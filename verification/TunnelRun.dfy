/** One interface's life: moving between peers, and leaving the host as it was found. */
module TunnelRun {
  import opened Base
  import opened Net
  import opened Routing
  import Repository
  import Kid
  import Tlv
  import Provision
  import Families
  import P = PeerRecord

  /** A peer as the tunnel uses it; `wrapped` is empty for one without a pre-shared key. */
  datatype Peer = Peer(
    kid: string, pub: Bytes32, endpoint: P.Endpoint, allowedIPs: seq<Prefix>, keepalive: byte, wrapped: bytes)

  /** A peer as WireGuard is given it; `psk` is empty when there is none. */
  datatype WgPeer = WgPeer(
    pub: Bytes32, endpoint: P.Endpoint, allowedIPs: seq<Prefix>, keepalive: byte, psk: bytes)

  /** The pre-shared key of a peer, unwrapped for that peer and no other. */
  function KeyOf(c: Kid.Crypto, ifPub: bytes, p: Peer): bytes {
    if p.wrapped == [] then [] else c.unwrap(ifPub, "ENC-WG-PSK-v2|" + p.kid, p.wrapped)
  }

  predicate KeyUsable(c: Kid.Crypto, ifPub: bytes, p: Peer) {
    p.wrapped == [] || |KeyOf(c, ifPub, p)| == 32
  }

  function Served(c: Kid.Crypto, ifPub: bytes, p: Peer): WgPeer {
    WgPeer(p.pub, p.endpoint, p.allowedIPs, p.keepalive, KeyOf(c, ifPub, p))
  }

  predicate DistinctKids(peers: seq<Peer>) {
    forall i, j :: 0 <= i < j < |peers| ==> peers[i].kid != peers[j].kid
  }

  predicate NoSingleHost(peers: seq<Peer>) {
    forall i, j :: 0 <= i < |peers| && 0 <= j < |peers[i].allowedIPs| ==> !SingleHost(peers[i].allowedIPs[j])
  }

  // ----- walking the stored order

  /** Peer k first, then all the others as stored. */
  function WalkOrder(n: nat, k: nat): (r: seq<nat>)
    requires k < n
    ensures |r| == n
  {
    [k] + seq(n - 1, i requires 0 <= i < n - 1 => if i < k then i else i + 1)
  }

  lemma WalkOrderVisitsAll(n: nat, k: nat)
    requires k < n
    ensures Distinct(WalkOrder(n, k))
    ensures forall i :: 0 <= i < n ==> i in WalkOrder(n, k)
  {
    var r := WalkOrder(n, k);
    forall i | 0 <= i < n ensures i in r {
      assert r[if i == k then 0 else if i < k then i + 1 else i] == i;
    }
  }

  /** The state WalkPeers closes over. */
  class Walker {
    var tried: set<string>

    constructor ()
      ensures tried == {}
    {
      tried := {};
    }

    /** The first peer in stored order that has not failed yet, None when every one has. */
    method SelectNext(peers: seq<Peer>, failed: string) returns (r: Option<nat>)
      modifies this
      ensures tried == old(tried) + {failed}
      ensures r.Some? ==> r.value < |peers| && peers[r.value].kid !in tried
      ensures r.Some? ==> forall i :: 0 <= i < r.value ==> peers[i].kid in tried
      ensures r.None? ==> forall i :: 0 <= i < |peers| ==> peers[i].kid in tried
    {
      tried := tried + {failed};
      for i := 0 to |peers|
        invariant forall j :: 0 <= j < i ==> peers[j].kid in tried
      {
        if peers[i].kid !in tried {
          return Some(i);
        }
      }
      return None;
    }
  }

  /** What has been tried after the first `m` visits is those visits' peers. */
  ghost predicate TriedUpto(peers: seq<Peer>, k: nat, m: nat, tried: set<string>)
    requires k < |peers| && m <= |peers|
  {
    forall i :: 0 <= i < |peers| ==> (peers[i].kid in tried <==> i in WalkOrder(|peers|, k)[..m])
  }

  /** So the first untried peer is the next one in the walk. */
  lemma NextInWalk(peers: seq<Peer>, k: nat, m: nat, tried: set<string>, next: Option<nat>)
    requires k < |peers| && 1 <= m <= |peers| && TriedUpto(peers, k, m, tried)
    requires next.Some? ==> next.value < |peers| && peers[next.value].kid !in tried
    requires next.Some? ==> forall i :: 0 <= i < next.value ==> peers[i].kid in tried
    requires next.None? ==> forall i :: 0 <= i < |peers| ==> peers[i].kid in tried
    ensures next.Some? <==> m < |peers|
    ensures next.Some? ==> next.value == WalkOrder(|peers|, k)[m]
  {
    var order := WalkOrder(|peers|, k);
    WalkOrderVisitsAll(|peers|, k);
    if m < |peers| {
      var w := order[m];
      assert w !in order[..m];
      assert forall i :: 0 <= i < w ==> i in order[..m] by {
        forall i | 0 <= i < w ensures i in order[..m] {
          var at := if i == k then 0 else if i < k then i + 1 else i;
          assert order[at] == i && at < m;
        }
      }
    } else {
      assert order[..m] == order;
    }
  }

  /** The visits so far are the first ones of the walk from peer k. */
  ghost predicate Walked(n: nat, k: nat, visited: seq<nat>) {
    k < n && |visited| <= n && forall j :: 0 <= j < |visited| ==> visited[j] == WalkOrder(n, k)[j]
  }

  lemma TriedStep(peers: seq<Peer>, k: nat, m: nat, before: set<string>, after: set<string>)
    requires k < |peers| && m < |peers| && DistinctKids(peers) && TriedUpto(peers, k, m, before)
    requires after == before + {peers[WalkOrder(|peers|, k)[m]].kid}
    ensures TriedUpto(peers, k, m + 1, after)
  {
    var order := WalkOrder(|peers|, k);
    assert order[..m + 1] == order[..m] + [order[m]];
  }

  /** One question to the walk: the m-th visit failed, who is next. */
  method Advance(walker: Walker, peers: seq<Peer>, ghost k: nat, ghost m: nat, failed: nat) returns (next: Option<nat>)
    requires DistinctKids(peers) && k < |peers| && 1 <= m <= |peers| && failed == WalkOrder(|peers|, k)[m - 1]
    requires TriedUpto(peers, k, m - 1, walker.tried)
    modifies walker
    ensures TriedUpto(peers, k, m, walker.tried)
    ensures next == if m < |peers| then Some(WalkOrder(|peers|, k)[m]) else None
  {
    ghost var before := walker.tried;
    next := walker.SelectNext(peers, peers[failed].kid);
    TriedStep(peers, k, m - 1, before, walker.tried);
    NextInWalk(peers, k, m, walker.tried, next);
  }

  // ----- what a failover leaves unclaimed

  /** allowedIPsDiffer: the ranges routed for one peer that the next does not claim. */
  method Orphaned(previous: Peer, next: Peer) returns (r: seq<Prefix>)
    ensures forall p :: p in r <==> p in previous.allowedIPs && p !in next.allowedIPs
  {
    var claimed: set<Prefix> := {};
    for i := 0 to |next.allowedIPs|
      invariant forall p :: p in claimed <==> p in next.allowedIPs[..i]
    {
      claimed := claimed + {next.allowedIPs[i]};
      assert next.allowedIPs[..i + 1] == next.allowedIPs[..i] + [next.allowedIPs[i]];
    }
    assert next.allowedIPs[..|next.allowedIPs|] == next.allowedIPs;
    r := [];
    for i := 0 to |previous.allowedIPs|
      invariant forall p :: p in r <==> p in previous.allowedIPs[..i] && p !in next.allowedIPs
    {
      assert previous.allowedIPs[..i + 1] == previous.allowedIPs[..i] + [previous.allowedIPs[i]];
      if previous.allowedIPs[i] !in claimed {
        r := r + [previous.allowedIPs[i]];
      }
    }
    assert previous.allowedIPs[..|previous.allowedIPs|] == previous.allowedIPs;
  }

  // ----- the routing table over a run

  /** Routes are only added: the host's own stay, and what is new is a routed range or a recorded pin. */
  ghost predicate TableOk(initial: Table, t: Table, routes: seq<Pin>, routed: set<Prefix>) {
    && (forall k :: k in initial ==> initial[k] != Tunnel && k in t && t[k] == initial[k])
    && (forall k :: k in t && k !in initial ==> IsRange(routed, t, k) || IsPin(routes, t, k))
    && (forall p :: p in routed && p.IsValid() ==> Key(DstOf(p), 0) in t)
    && (forall i :: 0 <= i < |routes| ==>
          routes[i].hop.Via? && routes[i].addr.IsValid() && HostKey(routes[i].addr) in t)
  }

  ghost predicate IsRange(routed: set<Prefix>, t: Table, k: Key)
    requires k in t
  {
    t[k] == Tunnel && exists p :: p in routed && p.IsValid() && k == Key(DstOf(p), 0)
  }

  ghost predicate IsPin(routes: seq<Pin>, t: Table, k: Key)
    requires k in t
  {
    exists i :: 0 <= i < |routes| && HostKey(routes[i].addr) == k && routes[i].hop == t[k]
  }

  /** The pins of one move: a next hop outside for exactly the resolved addresses the new ranges cover. */
  ghost predicate Planned(pins: seq<Pin>, resolved: seq<Addr>, next: seq<Prefix>) {
    && (forall i :: 0 <= i < |pins| ==> pins[i].hop.Via? && pins[i].addr in resolved && Covered(pins[i].addr, next))
    && (forall a :: a in resolved && Covered(a, next) ==> exists i :: 0 <= i < |pins| && pins[i].addr == a)
  }

  /** One completed move: pin first, then route the new ranges in, which the first peer's are not yet. */
  ghost predicate Moved(t0: Table, t2: Table, next: seq<Prefix>, resolved: seq<Addr>, pins: seq<Pin>, first: bool) {
    Planned(pins, resolved, next) && t2 == WithRanges(WithPins(t0, pins), if first then [] else next)
  }

  /** An address as a prefix can contain it. */
  predicate Plain(a: Addr) {
    a.IsValid() && a.WithoutZone() == a
  }

  lemma AllCoveredValid(addrs: seq<Addr>, ps: seq<Prefix>)
    requires forall a :: a in addrs ==> Covered(a, ps)
    ensures forall a :: a in addrs ==> a.IsValid()
  {
    forall a | a in addrs ensures a.IsValid() {
      CoveredMeansPlain(a, ps);
    }
  }

  lemma CoveredMeansPlain(a: Addr, ps: seq<Prefix>)
    requires Covered(a, ps)
    ensures Plain(a)
  {}

  /** A pin that matches an address is that address's own, so the address is covered itself. */
  lemma PinsMatchOwn(pins: seq<Pin>, resolved: seq<Addr>, next: seq<Prefix>, a: Addr, pin: Pin)
    requires Planned(pins, resolved, next) && Plain(a) && pin in pins && HostDst(pin.addr).Matches(a)
    ensures Covered(a, next)
  {
    var b := pin.addr;
    CoveredMeansPlain(b, next);
    assert Bits(b.Octets()) == Bits(a.Octets());
    var n :| 0 <= n < |next| && Contains(next[n], b);
    assert Contains(next[n], a);
  }

  lemma UncoveredMoveAddsNothing(t0: Table, t2: Table, next: seq<Prefix>, resolved: seq<Addr>, pins: seq<Pin>,
      first: bool, a: Addr)
    requires Moved(t0, t2, next, resolved, pins, first) && Plain(a) && !Covered(a, next)
    ensures forall k :: k in t0 ==> k in t2 && t2[k] == t0[k]
    ensures forall k :: k in t2 && k.dst.Matches(a) ==> k in t0
  {
    PinsAdded(t0, pins);
    RangesAdded(WithPins(t0, pins), if first then [] else next);
    forall k | k in t2 && k.dst.Matches(a) ensures k in t0 {
      if k !in t0 {
        NewMatchMeansCovered(t0, t2, next, resolved, pins, first, a, k);
      }
    }
  }

  lemma NewPinMeansCovered(t0: Table, next: seq<Prefix>, resolved: seq<Addr>, pins: seq<Pin>, a: Addr, k: Key)
    requires Planned(pins, resolved, next) && Plain(a)
    requires k in WithPins(t0, pins) && k !in t0 && k.dst.Matches(a)
    ensures Covered(a, next)
  {
    var u := WithPins(t0, pins);
    PinsAdded(t0, pins);
    assert exists pin :: pin in pins && HostKey(pin.addr) == k && pin.hop == u[k];
    var pin :| pin in pins && HostKey(pin.addr) == k && pin.hop == u[k];
    assert HostDst(pin.addr) == k.dst;
    PinsMatchOwn(pins, resolved, next, a, pin);
  }

  lemma NewMatchMeansCovered(t0: Table, t2: Table, next: seq<Prefix>, resolved: seq<Addr>, pins: seq<Pin>,
      first: bool, a: Addr, k: Key)
    requires Moved(t0, t2, next, resolved, pins, first) && Plain(a)
    requires k in t2 && k !in t0 && k.dst.Matches(a)
    ensures Covered(a, next)
  {
    var t1 := WithPins(t0, pins);
    if k in t1 {
      NewPinMeansCovered(t0, next, resolved, pins, a, k);
    } else {
      NewRangeMeansCovered(t1, next, a, k);
    }
  }

  lemma CoveredMovePins(t0: Table, t2: Table, next: seq<Prefix>, resolved: seq<Addr>, pins: seq<Pin>, first: bool,
      a: Addr)
    requires Moved(t0, t2, next, resolved, pins, first) && a in resolved && Covered(a, next)
    ensures HostKey(a) in t2
    ensures if HostKey(a) in t0 then t2[HostKey(a)] == t0[HostKey(a)] else t2[HostKey(a)] != Tunnel
  {
    PinsAdded(t0, pins);
    RangesAdded(WithPins(t0, pins), if first then [] else next);
  }

  /** Exactly when a move leaves an endpoint its path: it had one already, or the new peer's own ranges
      cover it and no host route stood in the way of pinning it. */
  lemma MovedOutside(t0: Table, t2: Table, next: seq<Prefix>, resolved: seq<Addr>, pins: seq<Pin>, first: bool, a: Addr)
    requires Moved(t0, t2, next, resolved, pins, first) && a in resolved && Plain(a)
    ensures Outside(t2, a) <==> Outside(t0, a) || (Covered(a, next) && HostKey(a) !in t0)
  {
    if Covered(a, next) {
      CoveredMovePins(t0, t2, next, resolved, pins, first, a);
      HostRouteDecides(t2, a);
      if HostKey(a) in t0 {
        HostRouteDecides(t0, a);
      }
    } else {
      UncoveredMoveAddsNothing(t0, t2, next, resolved, pins, first, a);
      SameMatches(t0, t2, a);
    }
  }

  /** Every range routed so far that contains `a` is the host's own route, or loses to a longer one of the host's. */
  ghost predicate NotCaptured(initial: Table, routed: set<Prefix>, a: Addr) {
    forall p :: p in routed && Contains(p, a) && Key(DstOf(p), 0) !in initial ==> Beaten(initial, a, p.bits)
  }

  /** The same question put to what is known before a move: the host's table, the ranges routed by then,
      the host routes in place, and the new peer's ranges. */
  ghost predicate Escapes(initial: Table, t0: Table, routed: set<Prefix>, next: seq<Prefix>, a: Addr) {
    if HostKey(a) in t0 then t0[HostKey(a)] != Tunnel
    else Covered(a, next) || NotCaptured(initial, routed, a)
  }

  lemma OnlyHostsOwnMatch(initial: Table, t: Table, routes: seq<Pin>, routed: set<Prefix>, a: Addr, k: Key)
    requires TableOk(initial, t, routes, routed) && Plain(a) && HostKey(a) !in t
    requires k in t && k.dst.Matches(a)
    ensures k in initial || IsRange(routed, t, k)
  {
    if k !in initial && IsPin(routes, t, k) {
      var i :| 0 <= i < |routes| && HostKey(routes[i].addr) == k;
      HostDstMatchesOne(routes[i].addr, a);
    }
  }

  lemma HostDstMatchesOne(b: Addr, a: Addr)
    requires a.IsValid() && b.IsValid() && HostDst(b).Matches(a)
    ensures HostKey(b) == HostKey(a)
  {
    SamePrefixSameDst(HostDst(b), HostDst(a), a);
  }

  lemma BeatenByHostsOwn(initial: Table, t: Table, routes: seq<Pin>, routed: set<Prefix>, a: Addr, n: nat)
    requires TableOk(initial, t, routes, routed) && Plain(a) && HostKey(a) !in t
    ensures Beaten(t, a, n) <==> Beaten(initial, a, n)
  {
    if Beaten(t, a, n) {
      var j :| j in t && t[j] != Tunnel && j.dst.Matches(a) && |j.dst.bits| > n;
      OnlyHostsOwnMatch(initial, t, routes, routed, a, j);
      assert j in initial && initial[j] != Tunnel;
    }
    if Beaten(initial, a, n) {
      var j :| j in initial && initial[j] != Tunnel && j.dst.Matches(a) && |j.dst.bits| > n;
      assert j in t && t[j] != Tunnel;
    }
  }

  lemma RangeIsRoutedIn(initial: Table, t: Table, routes: seq<Pin>, routed: set<Prefix>, a: Addr, p: Prefix)
    requires TableOk(initial, t, routes, routed) && Plain(a) && HostKey(a) !in t
    requires p in routed && Contains(p, a) && Key(DstOf(p), 0) !in initial
    ensures Key(DstOf(p), 0) in t && t[Key(DstOf(p), 0)] == Tunnel
  {
    OnlyHostsOwnMatch(initial, t, routes, routed, a, Key(DstOf(p), 0));
  }

  /** Where no host route decides, an address is outside exactly when no routed range captures it. */
  lemma OutsideByRanges(initial: Table, t: Table, routes: seq<Pin>, routed: set<Prefix>, a: Addr)
    requires TableOk(initial, t, routes, routed) && Plain(a) && HostKey(a) !in t
    ensures Outside(t, a) <==> NotCaptured(initial, routed, a)
  {
    TunnelRoutesFirst(initial, t, routes, routed);
    OutsideIff(t, a);
    if Outside(t, a) {
      forall p | p in routed && Contains(p, a) && Key(DstOf(p), 0) !in initial ensures Beaten(initial, a, p.bits) {
        OutsideIsBeaten(initial, t, routes, routed, a, p);
      }
    } else {
      var k :| k in t && t[k] == Tunnel && k.dst.Matches(a) && !Beaten(t, a, |k.dst.bits|);
      if NotCaptured(initial, routed, a) {
        UncapturedIsBeaten(initial, t, routes, routed, a, k);
      }
    }
  }

  lemma OutsideIsBeaten(initial: Table, t: Table, routes: seq<Pin>, routed: set<Prefix>, a: Addr, p: Prefix)
    requires TableOk(initial, t, routes, routed) && Plain(a) && HostKey(a) !in t
    requires p in routed && Contains(p, a) && Key(DstOf(p), 0) !in initial
    requires forall k :: k in t && t[k] == Tunnel && k.dst.Matches(a) ==> Beaten(t, a, |k.dst.bits|)
    ensures Beaten(initial, a, p.bits)
  {
    RangeIsRoutedIn(initial, t, routes, routed, a, p);
    BeatenAtKey(t, a, p);
    BeatenByHostsOwn(initial, t, routes, routed, a, p.bits);
  }

  lemma BeatenAtKey(t: Table, a: Addr, p: Prefix)
    requires Contains(p, a) && Key(DstOf(p), 0) in t && t[Key(DstOf(p), 0)] == Tunnel
    requires forall k :: k in t && t[k] == Tunnel && k.dst.Matches(a) ==> Beaten(t, a, |k.dst.bits|)
    ensures Beaten(t, a, p.bits)
  {
    assert |DstOf(p).bits| == p.bits;
  }

  lemma UncapturedRange(initial: Table, routed: set<Prefix>, a: Addr, p: Prefix)
    requires NotCaptured(initial, routed, a) && p in routed && p.IsValid() && Key(DstOf(p), 0) !in initial
    requires Plain(a) && DstOf(p).Matches(a)
    ensures |DstOf(p).bits| == p.bits && Beaten(initial, a, p.bits)
  {
    assert Contains(p, a);
  }

  lemma UncapturedIsBeaten(initial: Table, t: Table, routes: seq<Pin>, routed: set<Prefix>, a: Addr, k: Key)
    requires TableOk(initial, t, routes, routed) && Plain(a) && HostKey(a) !in t
    requires NotCaptured(initial, routed, a) && k in t && t[k] == Tunnel && k.dst.Matches(a)
    ensures Beaten(t, a, |k.dst.bits|)
  {
    OnlyHostsOwnMatch(initial, t, routes, routed, a, k);
    var p :| p in routed && p.IsValid() && k == Key(DstOf(p), 0);
    UncapturedRange(initial, routed, a, p);
    BeatenByHostsOwn(initial, t, routes, routed, a, p.bits);
  }

  lemma TunnelRoutesFirst(initial: Table, t: Table, routes: seq<Pin>, routed: set<Prefix>)
    requires TableOk(initial, t, routes, routed)
    ensures TunnelFirst(t)
  {}

  /** So whether a completed move leaves the new endpoint its path can be told before the move. */
  lemma MovedEscapes(initial: Table, t0: Table, routes: seq<Pin>, routed: set<Prefix>, t2: Table, next: seq<Prefix>,
      resolved: seq<Addr>, pins: seq<Pin>, first: bool, a: Addr)
    requires TableOk(initial, t0, routes, routed)
    requires Moved(t0, t2, next, resolved, pins, first) && a in resolved && Plain(a)
    ensures Outside(t2, a) <==> Escapes(initial, t0, routed, next, a)
  {
    MovedOutside(t0, t2, next, resolved, pins, first, a);
    if HostKey(a) in t0 {
      HostRouteDecides(t0, a);
    } else {
      OutsideByRanges(initial, t0, routes, routed, a);
    }
  }

  // ----- moves that warn about nothing

  lemma PinIsNotTunnel(t: Table, allowed: seq<Prefix>, a: Addr)
    requires OnlyThese(t, allowed) && forall i :: 0 <= i < |allowed| ==> !SingleHost(allowed[i])
    requires HostKey(a) in t && a.IsValid()
    ensures t[HostKey(a)] != Tunnel
  {
    forall i | 0 <= i < |allowed| && allowed[i].IsValid() ensures DstOf(allowed[i]) != HostDst(a) {
      if DstOf(allowed[i]).v4 == HostDst(a).v4 {
        assert |DstOf(allowed[i]).bits| == allowed[i].bits < |HostDst(a).bits|;
      }
    }
  }

  /** If the new peer claims every range routed so far and none of them is a single host, its endpoint
      keeps its path. */
  lemma UnwarnedOutside(t0: Table, t2: Table, previous: seq<Prefix>, next: seq<Prefix>, resolved: seq<Addr>,
      pins: seq<Pin>, first: bool, a: Addr)
    requires Moved(t0, t2, next, resolved, pins, first) && a in resolved && Plain(a)
    requires OnlyThese(t0, previous) && forall i :: 0 <= i < |previous| ==> !SingleHost(previous[i])
    requires forall p :: p in previous ==> p in next
    ensures Outside(t2, a)
  {
    MovedOutside(t0, t2, next, resolved, pins, first, a);
    if !Covered(a, next) {
      forall i | 0 <= i < |previous| ensures !Contains(previous[i], a) {
        assert previous[i] in next;
      }
      UncoveredIsOutside(t0, previous, a);
    } else if HostKey(a) in t0 {
      PinIsNotTunnel(t0, previous, a);
      HostRouteWins(t0, a);
    }
  }

  /** Then the new peer's ranges are all that is routed in. */
  lemma OnlyTheseAfterMove(t0: Table, t2: Table, previous: seq<Prefix>, next: seq<Prefix>, resolved: seq<Addr>,
      pins: seq<Pin>, first: bool)
    requires Moved(t0, t2, next, resolved, pins, first)
    requires OnlyThese(t0, previous) && forall p :: p in previous ==> p in next
    ensures OnlyThese(t2, next)
  {
    var t1 := WithPins(t0, pins);
    PinsAdded(t0, pins);
    RangesAdded(t1, if first then [] else next);
    forall k | k in t2 && t2[k] == Tunnel
      ensures exists i :: 0 <= i < |next| && next[i].IsValid() && k.dst == DstOf(next[i])
    {
      if k in t0 {
        var j :| 0 <= j < |previous| && previous[j].IsValid() && k.dst == DstOf(previous[j]);
        assert previous[j] in next;
      } else if k in t1 {
        assert false;
      }
    }
  }

  // ----- routing the active peer's ranges, when the interface is configured

  /** Covered endpoint addresses have their host route. */
  ghost predicate EndpointsPinned(t: Table, allowed: seq<Prefix>, endpoints: seq<Addr>) {
    forall a :: a in endpoints && Covered(a, allowed) ==> HostKey(a) in t
  }

  /** With that, routing the peer's own ranges in moves none of its endpoint addresses. */
  lemma ConfiguredOutside(t: Table, allowed: seq<Prefix>, endpoints: seq<Addr>, a: Addr)
    requires EndpointsPinned(t, allowed, endpoints) && a in endpoints && Plain(a)
    ensures Outside(WithRanges(t, allowed), a) <==> Outside(t, a)
  {
    var u := WithRanges(t, allowed);
    RangesAdded(t, allowed);
    if HostKey(a) in t {
      HostRouteDecides(t, a);
      HostRouteDecides(u, a);
    } else {
      forall k | k in u && k.dst.Matches(a) ensures k in t {
        if k !in t {
          NewRangeMeansCovered(t, allowed, a, k);
        }
      }
      SameMatches(t, u, a);
    }
  }

  lemma NewRangeMeansCovered(t: Table, ps: seq<Prefix>, a: Addr, k: Key)
    requires Plain(a) && k in WithRanges(t, ps) && k !in t && k.dst.Matches(a)
    ensures Covered(a, ps)
  {
    RangesAdded(t, ps);
    var n :| 0 <= n < |ps| && ps[n].IsValid() && k.dst == DstOf(ps[n]);
    assert Contains(ps[n], a);
  }

  // ----- two runs in addresses

  function Gateway(): Hop { Via(V4([192, 0, 2, 1]), "eth0") }

  /** A host with nothing but a default route. */
  function OneDefault(): Table { map[Key(Dst(true, []), 100) := Gateway()] }

  function Ten(): Prefix { Prefix(V4([10, 0, 0, 0]), 8) }

  function Office(): Prefix { Prefix(V4([192, 168, 0, 0]), 16) }

  /** A run that warns and is captured: the first peer claims 10.0.0.0/8, the second claims 192.168.0.0/16 and
      sits at 10.1.2.3. From a table without a tunnel, the first move, the interface's own routes and the second
      move leave the second endpoint routed into the tunnel it is meant to carry. */
  lemma WarnedRunCaptures(first: Addr, second: Addr, t2: Table, t3: Table)
    requires first == V4([203, 0, 113, 1]) && second == V4([10, 1, 2, 3])
    requires t2 == WithRanges(OneDefault(), [Ten()]) && t3 == WithRanges(t2, [Office()])
    ensures forall k :: k in OneDefault() ==> OneDefault()[k] != Tunnel
    ensures Moved(OneDefault(), OneDefault(), [Ten()], [first], [], true) && Outside(OneDefault(), second)
    ensures Moved(t2, t3, [Office()], [second], [], false) && !Outside(t3, second)
  {
    FirstMove(first);
    SecondMove(t2, second);
    TenIsIn(t2, second);
  }

  lemma FirstMove(a: Addr)
    requires a == V4([203, 0, 113, 1])
    ensures Moved(OneDefault(), OneDefault(), [Ten()], [a], [], true)
  {
    NotIn(Ten(), a);
    NothingToPin(OneDefault(), [Ten()], a);
  }

  lemma SecondMove(t: Table, a: Addr)
    requires a == V4([10, 1, 2, 3])
    ensures Moved(t, WithRanges(t, [Office()]), [Office()], [a], [], false)
    ensures Outside(WithRanges(t, [Office()]), a) <==> Outside(t, a)
  {
    StaysCaptured(t, Office(), a);
  }

  lemma NothingToPin(t: Table, next: seq<Prefix>, a: Addr)
    requires !Covered(a, next)
    ensures Moved(t, t, next, [a], [], true) && Moved(t, WithRanges(t, next), next, [a], [], false)
  {
    assert WithPins(t, []) == t && WithRanges(t, []) == t;
  }

  lemma StaysCaptured(t: Table, p: Prefix, a: Addr)
    requires p.IsValid() && p.addr.V4? && a.V4? && p.bits >= 8 && ByteBits(p.addr.b4[0])[0] != ByteBits(a.b4[0])[0]
    ensures Moved(t, WithRanges(t, [p]), [p], [a], [], false)
    ensures Outside(WithRanges(t, [p]), a) <==> Outside(t, a)
  {
    NotIn(p, a);
    NothingToPin(t, [p], a);
    MovedOutside(t, WithRanges(t, [p]), [p], [a], [], false, a);
  }

  lemma NotIn(p: Prefix, a: Addr)
    requires p.IsValid() && p.addr.V4? && a.V4? && p.bits >= 8 && ByteBits(p.addr.b4[0])[0] != ByteBits(a.b4[0])[0]
    ensures !Covered(a, [p])
  {
    FirstByte(p.addr.b4);
    FirstByte(a.b4);
    assert DstOf(p).bits[0] == Bits(p.addr.b4)[..8][0] && Bits(a.b4)[0] == Bits(a.b4)[..8][0];
  }

  lemma TenIsIn(t: Table, a: Addr)
    requires a.V4? && a.b4[0] == 10 && t == WithRanges(OneDefault(), [Ten()])
    ensures !Outside(t, a)
  {
    var k := Key(DstOf(Ten()), 0);
    assert [Ten()][..0] == [];
    assert WithRanges(OneDefault(), []) == OneDefault();
    assert t == OneDefault()[k := Tunnel];
    FirstByte(Ten().addr.b4);
    FirstByte(a.b4);
    assert k.dst.bits == Bits(a.b4)[..8];
    assert Best(t, a, k);
  }

  lemma FirstByte(b: bytes)
    requires b != []
    ensures Bits(b)[..8] == ByteBits(b[0])
  {}

  // ----- what is left when it is over

  /** After teardown: what was there before, less any route recorded as ours that was there already. */
  lemma TeardownTable(initial: Table, t: Table, routes: seq<Pin>, routed: set<Prefix>)
    requires TableOk(initial, t, routes, routed)
    ensures Unpinned(NoTunnel(t), routes) == Unpinned(initial, routes)
    ensures forall k :: k in NoTunnel(t) ==> (k in initial && initial[k] == t[k]) || IsPin(routes, t, k)
  {}

  lemma WhatRemains(initial: Table, t: Table, routes: seq<Pin>, routed: set<Prefix>, final: Table)
    requires TableOk(initial, t, routes, routed) && Between(Unpinned(NoTunnel(t), routes), final, NoTunnel(t))
    ensures LeftBehind(initial, routes, final)
  {
    TeardownTable(initial, t, routes, routed);
    var low := Unpinned(initial, routes);
    forall k | k in low ensures k in final && final[k] == initial[k] {
      assert low[k] == initial[k];
    }
    forall k | k in final ensures (k in initial && initial[k] == final[k]) || IsPin(routes, final, k) {
      assert k in NoTunnel(t) && final[k] == t[k];
      if IsPin(routes, t, k) {
        var i :| 0 <= i < |routes| && HostKey(routes[i].addr) == k && routes[i].hop == t[k];
      }
    }
  }

  /** The table is exactly as it was found if and only if no recorded pin was there before. */
  lemma RestoredExactly(initial: Table, routes: seq<Pin>)
    ensures Unpinned(initial, routes) == initial <==> NoneWasThere(initial, routes)
  {
    if Unpinned(initial, routes) == initial {
      forall i | 0 <= i < |routes| && HostKey(routes[i].addr) in initial
        ensures initial[HostKey(routes[i].addr)] != routes[i].hop
      {
        assert HostKey(routes[i].addr) in Unpinned(initial, routes);
      }
    }
  }

  ghost predicate NoneWasThere(initial: Table, routes: seq<Pin>) {
    forall i :: 0 <= i < |routes| && HostKey(routes[i].addr) in initial ==>
      initial[HostKey(routes[i].addr)] != routes[i].hop
  }

  /** Over a default and a route that pins `e` already: the tunnel's routes go with its link, and that one with the
      pins. */
  lemma OwnRouteGoes(e: Addr, ranges: seq<Prefix>)
    requires e.IsValid()
    ensures var t := WithRanges(OneDefault()[HostKey(e) := Gateway()], ranges);
            Unpinned(NoTunnel(t), [Pin(e, Gateway())]) == OneDefault()
  {
    var initial := OneDefault()[HostKey(e) := Gateway()];
    HostRouteIsLong(e);
    RangesAdded(initial, ranges);
    assert NoTunnel(WithRanges(initial, ranges)) == initial;
    assert [Pin(e, Gateway())][0] == Pin(e, Gateway());
  }

  /** A run that takes away what it did not bring: the host already had the route that pins 203.0.113.1, adding
      it again counted as success, and teardown removes it. */
  lemma PreexistingRouteLost()
    ensures var e := V4([203, 0, 113, 1]);
            var all, pins := [Prefix(V4([0, 0, 0, 0]), 0)], [Pin(e, Gateway())];
            var initial := OneDefault()[HostKey(e) := Gateway()];
            && IsGateway(initial, e.V6?, Gateway()) && Moved(initial, initial, all, [e], pins, true)
            && Unpinned(NoTunnel(WithRanges(initial, all)), pins) == OneDefault()
  {
    var e := V4([203, 0, 113, 1]);
    var all, pins := [Prefix(V4([0, 0, 0, 0]), 0)], [Pin(e, Gateway())];
    var initial := OneDefault()[HostKey(e) := Gateway()];
    assert DefaultVia(initial, false, Key(Dst(true, []), 100));
    assert Contains(all[0], e);
    assert pins[..0] == [] && WithPins(initial, []) == initial;
    assert WithPins(initial, pins) == initial && WithRanges(initial, []) == initial;
    OwnRouteGoes(e, all);
  }

  // ----- the tunnel

  ghost predicate Blank(a: array<byte>)
    reads a
  {
    forall i :: 0 <= i < a.Length ==> a[i] == 0
  }

  method Zero(a: array?<byte>)
    modifies if a == null then {} else {a}
    ensures a != null ==> Blank(a)
  {
    if a != null {
      for i := 0 to a.Length
        invariant forall j :: 0 <= j < i ==> a[j] == 0
      {
        a[i] := 0;
      }
    }
  }

  /** Of all the keys ever obtained at most these two are readable. */
  ghost predicate Readable(secrets: set<array<byte>>, psk: array?<byte>, buf: array?<byte>)
    reads secrets
  {
    && (psk != null ==> psk in secrets) && (buf != null ==> buf in secrets && buf != psk)
    && (forall s :: s in secrets && s != psk && s != buf ==> Blank(s))
  }

  lemma ReadableMore(secrets: set<array<byte>>, psk: array?<byte>, buf: array<byte>)
    requires Readable(secrets, psk, null) && buf !in secrets
    ensures Readable(secrets + {buf}, psk, buf)
  {}

  lemma ReadableSwap(secrets: set<array<byte>>, psk: array?<byte>, buf: array?<byte>)
    requires Readable(secrets, psk, buf)
    ensures Readable(secrets, buf, psk)
  {}

  /** One of the two is zeroed. */
  method Retire(ghost secrets: set<array<byte>>, key: array?<byte>, ghost other: array?<byte>)
    requires Readable(secrets, key, other)
    modifies if key == null then {} else {key}
    ensures Readable(secrets, other, null)
  {
    Zero(key);
  }

  /** The table is as it should be, and every recorded pin is an endpoint's address by way of the gateway that was the
      host's own default before the run. */
  ghost predicate AccountedFor(initial: Table, t: Table, routes: seq<Pin>, routed: set<Prefix>, asked: set<Addr>) {
    && TableOk(initial, t, routes, routed)
    && forall i :: 0 <= i < |routes| ==>
         routes[i].addr in asked && IsGateway(initial, routes[i].addr.V6?, routes[i].hop)
  }

  /** Nothing a run does changes the host's defaults. */
  lemma RunKeepsDefaults(initial: Table, t: Table, routes: seq<Pin>, routed: set<Prefix>)
    requires TableOk(initial, t, routes, routed)
    ensures SameDefaults(initial, t)
  {
    forall v6, k | DefaultVia(t, v6, k) ensures k in initial {
      DefaultIsHostsOwn(initial, t, routes, routed, v6, k);
    }
  }

  lemma DefaultIsHostsOwn(initial: Table, t: Table, routes: seq<Pin>, routed: set<Prefix>, v6: bool, k: Key)
    requires TableOk(initial, t, routes, routed) && DefaultVia(t, v6, k)
    ensures k in initial
  {
    forall i | 0 <= i < |routes| ensures HostKey(routes[i].addr) != k {
      HostRouteIsLong(routes[i].addr);
    }
  }

  ghost predicate Holds(key: array?<byte>, contents: bytes)
    reads if key == null then {} else {key}
  {
    if key == null then contents == [] else key[..] == contents
  }

  /** UnwrapPSK: nothing for a peer without one, a fresh buffer with its key otherwise, or a failure. */
  method UnwrapPsk(c: Kid.Crypto, ifPub: bytes, p: Peer, steady: bool) returns (ok: bool, buf: array?<byte>)
    ensures buf != null ==> fresh(buf) && buf.Length == 32
    ensures ok ==> (buf == null <==> p.wrapped == []) && Holds(buf, KeyOf(c, ifPub, p))
    ensures !ok ==> buf == null
    ensures steady ==> (ok <==> KeyUsable(c, ifPub, p))
  {
    if p.wrapped == [] {
      return true, null;
    }
    var answered: bool := *;
    var key := c.unwrap(ifPub, Kid.PskContext(p.kid), p.wrapped);
    if (!answered && !steady) || |key| != 32 {
      return false, null;
    }
    buf := new byte[32](i requires 0 <= i < 32 => key[i]);
    return true, buf;
  }

  /** resolveHost: an address is itself, a name is what it resolves to at the moment it is asked, if it does. */
  method Resolve(literal: Addr, steady: bool) returns (r: Option<seq<Addr>>)
    ensures literal.IsValid() ==> r == Some([literal])
    ensures steady ==> r.Some?
  {
    if literal.IsValid() {
      return Some([literal]);
    }
    var found: bool, addrs: seq<Addr> := *, *;
    return if found || steady then Some(addrs) else None;
  }

  /** What planning a move found out: where the peer's endpoint and the HEM are, and whether the peer's ranges
      reach the HEM. */
  datatype Found = Found(resolved: seq<Addr>, hem: seq<Addr>, inside: bool)

  /** `hem` is the HEM's address, or none when it is known by name. */
  ghost predicate FoundFor(p: Peer, hem: Addr, f: Found) {
    && (!p.endpoint.IsSet() ==> f.resolved == [])
    && (p.endpoint.host == [] && p.endpoint.ip.IsValid() ==> f.resolved == [p.endpoint.ip])
    && (hem.IsValid() ==> f.hem == [hem])
    && (f.inside <==> exists a :: a in f.hem && Covered(a, p.allowedIPs))
  }

  /** What came of moving on: the next peer is in place, there was none, or it could not be put in place. */
  datatype Turn = NextUp | AllTried | Refused

  datatype HoldResult = Ended | NoPeerAnswered | MoveFailed

  datatype RunResult = Stopped | NoneAnswered

  /** What waiting for a peer's first handshake came to. */
  datatype Wait = Answered | Ending | Silent

  predicate AllSilent(waits: seq<Wait>) {
    forall i :: 0 <= i < |waits| ==> waits[i] == Silent
  }

  /** How holding a peer ended after the given waits, one for each peer visited: all but the last were silent; the
      last was not exactly if that ended it, and all were exactly if nobody answered and everybody had a turn. */
  predicate Came(r: HoldResult, n: nat, visited: seq<nat>, heard: seq<Wait>) {
    && |heard| == |visited| && 1 <= |visited| <= n && AllSilent(heard[..|heard| - 1])
    && (r.Ended? <==> heard[|heard| - 1] != Silent)
    && (r.NoPeerAnswered? <==> |heard| == n && AllSilent(heard))
    && (r.MoveFailed? ==> |visited| < n)
  }

  lemma SilentUntil(heard: seq<Wait>, w: Wait)
    requires AllSilent(heard)
    ensures var more := heard + [w];
            more[..|more| - 1] == heard && more[|more| - 1] == w && (AllSilent(more) <==> w == Silent)
  {
    assert (heard + [w])[|heard|] == w;
  }

  datatype Snapshot = Snapshot(active: Option<nat>, wg: seq<WgPeer>, table: Table, endpoints: seq<Addr>, warned: bool)

  /** WireGuard has the active peer under its own key and no other peer, and unless a move has warned or a range is a
      single host, every address of the peer's endpoint is reached outside the tunnel. */
  ghost predicate SafeAt(c: Kid.Crypto, ifPub: bytes, peers: seq<Peer>, s: Snapshot) {
    && s.active.Some? && s.active.value < |peers| && s.wg == [Served(c, ifPub, peers[s.active.value])]
    && (!s.warned && NoSingleHost(peers) ==> forall a :: a in s.endpoints && Plain(a) ==> Outside(s.table, a))
  }

  ghost predicate TraceSafe(c: Kid.Crypto, ifPub: bytes, peers: seq<Peer>, trace: seq<Snapshot>) {
    forall i :: 0 <= i < |trace| ==> SafeAt(c, ifPub, peers, trace[i])
  }

  lemma WalkedStep(n: nat, k: nat, visited: seq<nat>)
    requires Walked(n, k, visited) && |visited| < n
    ensures Walked(n, k, visited + [WalkOrder(n, k)[|visited|]])
  {}

  /** One moment for each visit after the first, with the visited peer active. */
  ghost predicate Followed(before: seq<Snapshot>, after: seq<Snapshot>, visited: seq<nat>) {
    && visited != [] && before <= after && |after| == |before| + |visited| - 1
    && forall m :: 1 <= m < |visited| ==> after[|before| + m - 1].active == Some(visited[m])
  }

  lemma FollowedStep(before: seq<Snapshot>, after: seq<Snapshot>, visited: seq<nat>, i: nat)
    requires after != [] && Followed(before, after[..|after| - 1], visited) && after[|after| - 1].active == Some(i)
    ensures Followed(before, after, visited + [i])
  {}

  lemma FollowedFromStart(t0: seq<Snapshot>, first: Snapshot, second: Snapshot, after: seq<Snapshot>, visited: seq<nat>)
    requires Followed(t0 + [first] + [second], after, visited) && first.active == Some(visited[0])
    ensures |t0| < |after| && WasActive(after[|t0|..], visited) && |after| == |t0| + |visited| + 1
  {}

  /** The peers the run visited are the ones that were active, in that order; the first counts twice once its ranges
      are routed in. */
  ghost predicate WasActive(trace: seq<Snapshot>, visited: seq<nat>) {
    && |visited| <= |trace| && (|visited| > 1 ==> |trace| == |visited| + 1)
    && forall m :: 0 <= m < |visited| ==> trace[if m == 0 then 0 else m + 1].active == Some(visited[m])
  }

  class Tunnel {
    const host: Host
    const pins: Pins
    const peers: seq<Peer>
    const c: Kid.Crypto
    const ifPub: bytes  // of the identity whose key wraps the pre-shared keys
    const hem: Addr     // of the HEM, when it is known by address
    var current: Option<nat>
    var psk: array?<byte>
    var hemInside: bool
    var wg: seq<WgPeer>                  // the peers of the WireGuard device
    ghost const initial: Table
    ghost var secrets: set<array<byte>>  // every pre-shared key this tunnel was ever given
    ghost var waits: seq<Wait>           // what every wait for a handshake came to
    ghost var answered: bool             // the HEM has, after the routes went in
    ghost var hemAt: seq<Addr>           // what the HEM's name resolved to
    ghost var endpoints: seq<Addr>       // what the active peer's endpoint resolved to
    ghost var asked: set<Addr>           // every address an endpoint of this run has resolved to
    ghost var routed: set<Prefix>        // every range this run has routed in
    ghost var warned: bool               // a move has left a range without a peer
    ghost var trace: seq<Snapshot>       // the routing after each completed move and configuration

    ghost predicate Valid()
      reads this, host, pins, secrets
    {
      Holding(null)
    }

    ghost function Ranges(): seq<Prefix>
      reads this`current
    {
      RangesOf(peers, current)
    }

    /** What holds between calls: before there is an active peer WireGuard has none; the active peer's covered
        endpoint addresses have host routes, and unless a move has warned, its ranges are all that is routed in. */
    ghost predicate Routed()
      reads this`current, this`endpoints, this`warned, this`wg, host`table
    {
      && (current.None? ==> wg == [])
      && EndpointsPinned(host.table, Ranges(), endpoints) && (!warned ==> OnlyThese(host.table, Ranges()))
    }

    ghost function Now(): Snapshot
      reads this`current, this`wg, this`endpoints, this`warned, host`table
    {
      Snapshot(current, wg, host.table, endpoints, warned)
    }

    /** The moment is as every completed move leaves it. */
    ghost predicate Safe()
      reads this`current, this`wg, this`endpoints, this`warned, host`table
    {
      SafeAt(c, ifPub, peers, Now())
    }

    /** The key in use is peer i's, and what was found out is about peer i. */
    ghost predicate Serving(i: nat)
      requires i < |peers|
      reads this`psk, this`endpoints, this`hemAt, this`hemInside, if psk == null then {} else {psk}
    {
      && (psk == null <==> peers[i].wrapped == []) && Holds(psk, KeyOf(c, ifPub, peers[i]))
      && FoundFor(peers[i], hem, Found(endpoints, hemAt, hemInside))
    }

    /** openDevice has succeeded: an interface with no routes, and nothing pinned. */
    constructor (host: Host, peers: seq<Peer>, c: Kid.Crypto, ifPub: bytes, hem: Addr)
      requires forall k :: k in host.table ==> host.table[k] != Hop.Tunnel
      ensures Valid() && Routed() && current == None && psk == null && secrets == {} && asked == {} && !warned
      ensures this.c == c && this.ifPub == ifPub && this.hem == hem && wg == []
      ensures this.host == host && this.peers == peers && initial == host.table && fresh(pins) && pins.routes == []
      ensures routed == {} && trace == [] && waits == []
    {
      this.host, this.peers, this.c, this.ifPub, this.hem := host, peers, c, ifPub, hem;
      pins := new Pins(host);
      current, psk, hemInside, wg, hemAt, answered, waits := None, null, false, [], [], false, [];
      initial, secrets, endpoints, asked, routed, warned, trace := host.table, {}, [], {}, {}, false, [];
    }

    /** No call fails for reasons of its own, and where a range of some peer's may cover an endpoint there is a default
        gateway of its family to pin it to. */
    ghost predicate Reliable() {
      && host.steady
      && forall i, j :: 0 <= i < |peers| && 0 <= j < |peers[i].allowedIPs| && peers[i].allowedIPs[j].IsValid() ==>
           HasGateway(initial, peers[i].allowedIPs[j].addr.V6?)
    }

    lemma ReliablyPinned(i: nat, addrs: seq<Addr>)
      requires Accounted() && Reliable() && i < |peers|
      requires forall a :: a in addrs ==> Covered(a, peers[i].allowedIPs)
      ensures forall a :: a in addrs ==> HasGateway(host.table, a.V6?)
    {
      forall a | a in addrs ensures HasGateway(host.table, a.V6?) {
        var j :| 0 <= j < |peers[i].allowedIPs| && Contains(peers[i].allowedIPs[j], a);
        GatewayStays(initial, host.table, a.V6?);
      }
    }

    lemma PinnedByOwnDefault(added: seq<Pin>, t0: Table, r0: seq<Pin>, routed0: set<Prefix>)
      requires TableOk(initial, t0, r0, routed0)
      requires forall i :: 0 <= i < |added| ==> IsGateway(t0, added[i].addr.V6?, added[i].hop)
      ensures forall i :: 0 <= i < |added| ==> IsGateway(initial, added[i].addr.V6?, added[i].hop)
    {
      RunKeepsDefaults(initial, t0, r0, routed0);
      forall i | 0 <= i < |added| ensures IsGateway(initial, added[i].addr.V6?, added[i].hop) {
        SameGateway(initial, t0, added[i].addr.V6?, added[i].hop);
      }
    }

    /** The table is accounted for, and every recorded pin is an address some endpoint resolved to. */
    ghost predicate Accounted()
      reads this`routed, this`asked, host`table, pins`routes
    {
      pins.host == host && AccountedFor(initial, host.table, pins.routes, routed, asked)
    }

    /** Where the endpoint and the HEM are, and which endpoint addresses the peer's own ranges would capture. */
    method Survey(next: Peer) returns (r: Option<(Found, seq<Addr>)>)
      ensures r.Some? ==> FoundFor(next, hem, r.value.0)
      ensures host.steady ==> r.Some?
      ensures r.Some? ==> forall a :: a in r.value.1 <==> a in r.value.0.resolved && Covered(a, next.allowedIPs)
    {
      var addrs := Some([]);
      if next.endpoint.IsSet() {
        addrs := Resolve(if next.endpoint.host == [] then next.endpoint.ip else NoAddr, host.steady);
      }
      var hems := Resolve(hem, host.steady);
      var query := [RoutePeer(next.endpoint.IsSet(), addrs, next.allowedIPs)];
      var plan := PlanRouting(query, hems);
      if plan.None? {
        return None;
      }
      assert query[0].hasEndpoint ==> query[0].resolved.Some?;
      PlanIsExact(next.allowedIPs, addrs.value, query[0].hasEndpoint, plan.value);
      HemIsExact(next.allowedIPs, query[0], hems.value, plan.value);
      return Some((Found(addrs.value, hems.value, plan.value.hemInside), plan.value.endpoints));
    }

    /** The pins of a plan: host routes for the addresses the peer's ranges cover. */
    method PinAll(i: nat, covered: seq<Addr>) returns (ok: bool, ghost added: seq<Pin>)
      requires Accounted() && i < |peers|
      requires forall a :: a in covered ==> Covered(a, peers[i].allowedIPs) && a in asked
      modifies host, pins
      ensures Accounted() && pins.routes == old(pins.routes) + added && host.table == WithPins(old(host.table), added)
      ensures |added| <= |covered| && (ok ==> |added| == |covered|) && (Reliable() ==> ok)
      ensures forall n :: 0 <= n < |added| ==> added[n].hop.Via? && added[n].addr == covered[n]
    {
      ghost var t0, r0 := host.table, pins.routes;
      if Reliable() {
        ReliablyPinned(i, covered);
      }
      AllCoveredValid(covered, peers[i].allowedIPs);
      ok, added := pins.Add(covered);
      forall n | 0 <= n < |added| ensures Covered(added[n].addr, peers[i].allowedIPs) && added[n].addr in asked {
        assert added[n].addr in covered;
      }
      PinnedByOwnDefault(added, t0, r0, routed);
      PinningKeeps(initial, t0, r0, routed, added, peers[i].allowedIPs);
    }

    /** Plan against the new peer's own ranges and pin what they would capture. */
    method PinEndpoints(i: nat) returns (ok: bool, found: Found, ghost added: seq<Pin>)
      requires Accounted() && i < |peers|
      modifies this`asked, host, pins
      ensures Accounted() && pins.routes == old(pins.routes) + added
      ensures host.table == WithPins(old(host.table), added)
      ensures ok ==> Planned(added, found.resolved, peers[i].allowedIPs) && FoundFor(peers[i], hem, found)
      ensures Reliable() ==> ok
    {
      ok, found, added := false, Found([], [], false), [];
      assert WithPins(host.table, []) == host.table;
      var survey := Survey(peers[i]);
      if survey.None? {
        return;
      }
      found := survey.value.0;
      var resolved := found.resolved;
      asked := asked + (set a | a in resolved);
      ok, added := PinAll(i, survey.value.1);
      if ok {
        AllPinned(survey.value.1, added, resolved, peers[i].allowedIPs);
      }
    }

    /** The routing half of UsePeer: plan, pin, and route the new peer's ranges in. */
    method MoveRoutes(i: nat) returns (ok: bool, found: Found, orphaned: bool, ghost added: seq<Pin>)
      requires Accounted() && i < |peers| && (current.Some? ==> current.value < |peers|)
      modifies this`asked, this`routed, host, pins
      ensures Accounted() && pins.routes == old(pins.routes) + added
      ensures (ok ==> FoundFor(peers[i], hem, found)) && (Reliable() ==> ok)
      ensures ok ==> Moved(old(host.table), host.table, peers[i].allowedIPs, found.resolved, added, current.None?)
      ensures ok ==> (orphaned <==> exists p :: p in RangesOf(peers, current) && p !in peers[i].allowedIPs)
    {
      orphaned := false;
      ok, found, added := PinEndpoints(i);
      if !ok {
        return;
      }
      ghost var t1 := host.table;
      if current.Some? {
        var lost := Orphaned(peers[current.value], peers[i]);
        orphaned := lost != [];
        assert lost != [] ==> lost[0] in lost;
        ghost var done;
        ok, done := host.AddRoutes(peers[i].allowedIPs);
        RoutingKeeps(initial, t1, pins.routes, routed, peers[i].allowedIPs[..done]);
        routed := routed + (set p | p in peers[i].allowedIPs[..done]);
        assert peers[i].allowedIPs[..|peers[i].allowedIPs|] == peers[i].allowedIPs;
      }
    }

    /** As Valid, with one more key in hand that may still be readable. */
    ghost predicate Holding(buf: array?<byte>)
      reads this, host, pins, secrets
    {
      && Accounted() && (current.Some? ==> current.value < |peers|)
      && Readable(secrets, psk, buf) && TraceSafe(c, ifPub, peers, trace)
    }

    /** The failure path: the key just obtained is zeroed, the one in use stays. */
    method Discard(buf: array?<byte>)
      requires Holding(buf)
      modifies if buf == null then {} else {buf}
      ensures Valid()
    {
      ReadableSwap(secrets, psk, buf);
      Retire(secrets, buf, psk);
    }

    /** The success path: the key in use is zeroed and the new one takes its place. */
    method Replace(i: nat, buf: array?<byte>, found: Found, orphaned: bool)
      requires Holding(buf) && i < |peers|
      modifies this`current, this`psk, this`endpoints, this`hemAt, this`hemInside, this`warned,
               if psk == null then {} else {psk}
      ensures Valid() && current == Some(i) && psk == buf && Found(endpoints, hemAt, hemInside) == found
      ensures warned == (old(warned) || orphaned) && (buf != null ==> buf[..] == old(buf[..]))
    {
      Retire(secrets, psk, buf);
      SetPeer(i, buf, found, orphaned);
    }

    /** A key to be accounted for from here on. */
    method ObtainKey(i: nat) returns (ok: bool, buf: array?<byte>)
      requires Valid() && i < |peers|
      modifies this`secrets
      ensures Holding(buf) && (!ok ==> buf == null)
      ensures host.steady ==> (ok <==> KeyUsable(c, ifPub, peers[i]))
      ensures ok ==> (buf == null <==> peers[i].wrapped == []) && Holds(buf, KeyOf(c, ifPub, peers[i]))
      ensures fresh(secrets - old(secrets)) && old(secrets) <= secrets && (buf != null ==> fresh(buf))
    {
      ok, buf := UnwrapPsk(c, ifPub, peers[i], host.steady);
      if buf != null {
        ReadableMore(secrets, psk, buf);
        secrets := secrets + {buf};
      }
    }

    method MoveHolding(i: nat, ghost buf: array?<byte>)
      returns (ok: bool, found: Found, orphaned: bool, ghost added: seq<Pin>)
      requires Holding(buf) && i < |peers|
      modifies this`asked, this`routed, host, pins
      ensures Holding(buf) && pins.routes == old(pins.routes) + added
      ensures (ok ==> FoundFor(peers[i], hem, found)) && (Reliable() ==> ok)
      ensures ok ==> Moved(old(host.table), host.table, peers[i].allowedIPs, found.resolved, added, current.None?)
      ensures ok ==> (orphaned <==> exists p :: p in RangesOf(peers, current) && p !in peers[i].allowedIPs)
    {
      ok, found, orphaned, added := MoveRoutes(i);
    }

    method SetPeer(i: nat, buf: array?<byte>, found: Found, orphaned: bool)
      modifies this`current, this`psk, this`endpoints, this`hemAt, this`hemInside, this`warned
      ensures current == Some(i) && psk == buf && Found(endpoints, hemAt, hemInside) == found
      ensures warned == (old(warned) || orphaned)
    {
      warned := warned || orphaned;
      current, psk, endpoints, hemAt, hemInside := Some(i), buf, found.resolved, found.hem, found.inside;
    }

    /** The first peer is added; any other takes the place of all there are. A failure can leave either undone. */
    method IpcSet(p: Peer, key: array?<byte>) returns (ok: bool)
      modifies this`wg
      ensures host.steady ==> ok
      ensures ok ==>
        wg == (if current.None? then old(wg) else [])
              + [WgPeer(p.pub, p.endpoint, p.allowedIPs, p.keepalive, if key == null then [] else key[..])]
    {
      if current.Some? {
        wg := [];
      }
      ok := *;
      ok := ok || host.steady;
      if ok {
        wg := wg + [WgPeer(p.pub, p.endpoint, p.allowedIPs, p.keepalive, if key == null then [] else key[..])];
      }
    }

    /** How a move to peer i has changed the routing and the warning: what was pinned, whether it warns, and which
        endpoint addresses are outside now, told from the state before. */
    ghost predicate CameBy(t0: Table, routed0: set<Prefix>, was: Option<nat>, warned0: bool, i: nat, added: seq<Pin>)
      requires i < |peers|
      reads this`endpoints, this`warned, host`table
    {
      && Moved(t0, host.table, peers[i].allowedIPs, endpoints, added, was.None?)
      && warned == (warned0 || exists p :: p in RangesOf(peers, was) && p !in peers[i].allowedIPs)
      && forall a :: a in endpoints && Plain(a) ==>
           (Outside(host.table, a) <==> Escapes(initial, t0, routed0, peers[i].allowedIPs, a))
    }

    /** The end of a completed move. */
    method Settle(i: nat, buf: array?<byte>, found: Found, orphaned: bool, ghost t0: Table, ghost routes0: seq<Pin>,
        ghost routed0: set<Prefix>, ghost added: seq<Pin>)
      requires Holding(buf) && i < |peers| && TableOk(initial, t0, routes0, routed0)
      requires (buf == null <==> peers[i].wrapped == []) && Holds(buf, KeyOf(c, ifPub, peers[i]))
      requires wg == [Served(c, ifPub, peers[i])] && FoundFor(peers[i], hem, found)
      requires Moved(t0, host.table, peers[i].allowedIPs, found.resolved, added, current.None?)
      requires orphaned <==> exists p :: p in RangesOf(peers, current) && p !in peers[i].allowedIPs
      requires !warned ==> OnlyThese(t0, RangesOf(peers, current))
      modifies this`current, this`psk, this`endpoints, this`hemAt, this`hemInside, this`warned, this`trace,
               if psk == null then {} else {psk}
      ensures Valid() && Routed() && current == Some(i) && endpoints == found.resolved && Serving(i)
      ensures CameBy(t0, routed0, old(current), old(warned), i, added)
      ensures Safe() && trace == old(trace) + [Now()]
    {
      ghost var was := current;
      Replace(i, buf, found, orphaned);
      MoveMeans(initial, t0, routes0, routed0, host.table, peers, was, i, found.resolved, added, warned);
      Note();
    }

    /** One more moment of the run at which routing was complete. */
    ghost method Note()
      requires Safe() && TraceSafe(c, ifPub, peers, trace)
      modifies this`trace
      ensures trace == old(trace) + [Now()] && TraceSafe(c, ifPub, peers, trace)
    {
      trace := trace + [Now()];
    }

    /** Point the interface at a peer. A failure zeroes the key it obtained and leaves the old one in use. Where
        it succeeds, which endpoint addresses keep their path is known from the state before: `Escapes`. */
    method UsePeer(i: nat) returns (ok: bool, ghost added: seq<Pin>)
      requires Valid() && Routed() && i < |peers|
      modifies this, host, pins, secrets
      ensures Valid() && fresh(secrets - old(secrets)) && old(secrets) <= secrets
      ensures pins.routes == old(pins.routes) + added
      ensures !ok ==> current == old(current) && psk == old(psk) && warned == old(warned)
      ensures ok ==> current == Some(i) && Routed() && Serving(i)
      ensures ok ==> CameBy(old(host.table), old(routed), old(current), old(warned), i, added)
      ensures ok ==> Safe() && trace == old(trace) + [Now()]
      ensures !ok ==> trace == old(trace)
      ensures waits == old(waits) && (Reliable() ==> (ok <==> KeyUsable(c, ifPub, peers[i])))
    {
      added := [];
      var got, buf := ObtainKey(i);
      if !got {
        return false, added;
      }
      ok, added := UseWith(i, buf);
    }

    /** Everything that can still fail with the new peer's key in hand. */
    method Install(i: nat, buf: array?<byte>) returns (ok: bool, found: Found, orphaned: bool, ghost added: seq<Pin>)
      requires Holding(buf) && i < |peers| && Holds(buf, KeyOf(c, ifPub, peers[i])) && (current.None? ==> wg == [])
      modifies this`asked, this`routed, this`wg, host, pins
      ensures Holding(buf) && pins.routes == old(pins.routes) + added
      ensures ok ==> wg == [Served(c, ifPub, peers[i])] && FoundFor(peers[i], hem, found)
      ensures Reliable() ==> ok
      ensures ok ==> Moved(old(host.table), host.table, peers[i].allowedIPs, found.resolved, added, current.None?)
      ensures ok ==> (orphaned <==> exists p :: p in RangesOf(peers, current) && p !in peers[i].allowedIPs)
    {
      ok, found, orphaned, added := MoveHolding(i, buf);
      if ok {
        ok := IpcSet(peers[i], buf);
      }
    }

    /** The rest of UsePeer, with the new peer's key in hand. */
    method UseWith(i: nat, buf: array?<byte>) returns (ok: bool, ghost added: seq<Pin>)
      requires Holding(buf) && Routed() && i < |peers|
      requires (buf == null <==> peers[i].wrapped == []) && Holds(buf, KeyOf(c, ifPub, peers[i]))
      modifies this`current, this`psk, this`endpoints, this`hemAt, this`hemInside, this`warned, this`asked,
               this`routed, this`wg, this`trace, host, pins,
               if psk == null then {} else {psk}, if buf == null then {} else {buf}
      ensures Valid() && pins.routes == old(pins.routes) + added
      ensures !ok ==> current == old(current) && psk == old(psk) && warned == old(warned)
      ensures ok ==> current == Some(i) && Routed() && Serving(i)
      ensures ok ==> CameBy(old(host.table), old(routed), old(current), old(warned), i, added)
      ensures ok ==> Safe() && trace == old(trace) + [Now()]
      ensures !ok ==> trace == old(trace)
      ensures Reliable() ==> ok
    {
      ghost var t0, routes0, routed0 := host.table, pins.routes, routed;
      assert TableOk(initial, t0, routes0, routed0) && (!warned ==> OnlyThese(t0, RangesOf(peers, current)));
      var installed, found, orphaned;
      installed, found, orphaned, added := Install(i, buf);
      if !installed {
        Discard(buf);
        return false, added;
      }
      Settle(i, buf, found, orphaned, t0, routes0, routed0, added);
      return true, added;
    }

    /** The active peer's ranges, routed in. */
    method RouteIn() returns (ok: bool)
      requires Valid() && current.Some?
      modifies this`routed, host
      ensures Valid() && (ok ==> host.table == WithRanges(old(host.table), Ranges())) && (host.steady ==> ok)
    {
      ghost var t0 := host.table;
      ghost var n;
      ok, n := host.AddRoutes(peers[current.value].allowedIPs);
      RoutingKeeps(initial, t0, pins.routes, routed, peers[current.value].allowedIPs[..n]);
      routed := routed + (set p | p in peers[current.value].allowedIPs[..n]);
      assert ok ==> peers[current.value].allowedIPs[..n] == Ranges();
    }

    method ProbeHem() returns (ok: bool)
      modifies this`answered
      ensures answered == ok && (host.steady ==> ok)
    {
      ok := *;
      ok := ok || host.steady;
      answered := ok;
    }

    /** Name servers are set, and a HEM that the ranges reach has to answer through them. */
    method CheckHem() returns (ok: bool)
      modifies this`answered
      ensures (ok && hemInside ==> answered) && (host.steady ==> ok)
    {
      answered := false;
      var dns: bool := *;
      if !dns && !host.steady {
        return false;
      }
      ok := true;
      if hemInside {
        ok := ProbeHem();
      }
    }

    /** Routes the active peer's ranges in; link settings, name servers and a last call to a covered HEM are only
        further places to fail. */
    method ConfigureInterface() returns (ok: bool)
      requires Valid() && Routed() && Safe() && current.Some?
      modifies this`routed, this`trace, this`answered, host
      ensures (ok && hemInside ==> answered) && (host.steady ==> ok)
      ensures Valid() && (ok ==> Routed() && host.table == WithRanges(old(host.table), Ranges()))
      ensures ok ==> forall a :: a in endpoints && Plain(a) ==>
        (Outside(host.table, a) <==> Outside(old(host.table), a))
      ensures ok ==> Safe() && trace == old(trace) + [Now()]
      ensures !ok ==> trace == old(trace)
    {
      var up: bool := *;
      if !up && !host.steady {
        return false;
      }
      ghost var t0 := host.table;
      ok := RouteIn();
      if !ok {
        return;
      }
      ok := CheckHem();
      if ok {
        NoteConfigured(t0);
      }
    }

    /** The moment after the active peer's ranges went in, over a table that was as a completed move leaves it. */
    ghost method NoteConfigured(t0: Table)
      requires Valid() && current.Some? && host.table == WithRanges(t0, Ranges())
      requires EndpointsPinned(t0, Ranges(), endpoints) && (!warned ==> OnlyThese(t0, Ranges()))
      requires SafeAt(c, ifPub, peers, Now().(table := t0))
      modifies this`trace
      ensures Valid() && Routed() && Safe() && trace == old(trace) + [Now()]
      ensures forall a :: a in endpoints && Plain(a) ==> (Outside(host.table, a) <==> Outside(t0, a))
    {
      ConfiguredKeeps(t0, Ranges(), endpoints, warned);
      Note();
    }

    /** Every way out: the link goes, the pins are taken back, the key is zeroed. */
    method Teardown() returns (failures: nat)
      requires Valid()
      modifies host, pins, secrets
      ensures forall s :: s in secrets ==> Blank(s)
      ensures failures == 0 ==> host.table == Unpinned(initial, old(pins.routes))
      ensures LeftBehind(initial, old(pins.routes), host.table)
      ensures host.steady ==> failures == 0
    {
      ghost var t, recorded := host.table, pins.routes;
      TeardownTable(initial, t, recorded, routed);
      host.Down();
      failures := pins.Restore();
      WhatRemains(initial, t, recorded, routed, host.table);
      Retire(secrets, psk, null);
    }

    /** The walk from peer k has come as far as `visited`, whose last is active, and its moments followed `before`. */
    ghost predicate OnWalk(tried: set<string>, k: nat, visited: seq<nat>, before: seq<Snapshot>)
      reads this`current, this`endpoints, this`warned, this`wg, this`trace, host`table
    {
      && Routed() && Safe() && Followed(before, trace, visited) && Walked(|peers|, k, visited)
      && current == Some(WalkOrder(|peers|, k)[|visited| - 1]) && TriedUpto(peers, k, |visited| - 1, tried)
    }

    lemma OnWalkNext(tried: set<string>, k: nat, visited: seq<nat>, before: seq<Snapshot>, was: seq<Snapshot>)
      requires Routed() && Safe() && Followed(before, was, visited) && trace == was + [Now()]
      requires Walked(|peers|, k, visited) && |visited| < |peers| && TriedUpto(peers, k, |visited|, tried)
      requires current == Some(WalkOrder(|peers|, k)[|visited|])
      ensures OnWalk(tried, k, visited + [current.value], before)
    {
      FollowedStep(before, trace, visited, current.value);
      WalkedStep(|peers|, k, visited);
    }

    /** The last peer visited never answered: point the interface at the next one, if there is one. */
    method MoveOn(walker: Walker, ghost k: nat, ghost visited: seq<nat>, ghost before: seq<Snapshot>)
      returns (r: Turn, ghost visited': seq<nat>)
      requires Valid() && DistinctKids(peers) && OnWalk(walker.tried, k, visited, before)
      modifies this, host, pins, secrets, walker
      ensures Valid() && fresh(secrets - old(secrets)) && old(secrets) <= secrets
      ensures r.AllTried? <==> |visited| == |peers|
      ensures r.NextUp? ==> |visited'| == |visited| + 1 && OnWalk(walker.tried, k, visited', before)
      ensures !r.NextUp? ==> visited' == visited && trace == old(trace)
      ensures Reliable() && r.Refused? ==> !KeyUsable(c, ifPub, Nth(k, |visited|))
      ensures waits == old(waits)
    {
      visited' := visited;
      var next := Advance(walker, peers, k, |visited|, current.value);
      if next.None? {
        return AllTried, visited';
      }
      var moved, added := UsePeer(next.value);
      if !moved {
        return Refused, visited';
      }
      OnWalkNext(walker.tried, k, visited, before, old(trace));
      visited' := visited + [next.value];
      return NextUp, visited';
    }

    /** The m-th peer of the walk from peer k. */
    function Nth(k: nat, m: nat): Peer
      requires k < |peers| && m < |peers|
    {
      peers[WalkOrder(|peers|, k)[m]]
    }

    method AwaitHandshake() returns (w: Wait)
      modifies this`waits
      ensures waits == old(waits) + [w]
    {
      w := *;
      waits := waits + [w];
    }

    /** The active peer's turn: wait for it and, when it never answers, move on. None if that went through. */
    method TakeTurn(walker: Walker, ghost k: nat, ghost visited: seq<nat>, ghost heard: seq<Wait>,
        ghost before: seq<Snapshot>)
      returns (r: Option<HoldResult>, ghost visited': seq<nat>, ghost w: Wait)
      requires Valid() && DistinctKids(peers) && OnWalk(walker.tried, k, visited, before)
      requires AllSilent(heard) && |heard| == |visited| - 1
      modifies this, host, pins, secrets, walker
      ensures Valid() && fresh(secrets - old(secrets)) && old(secrets) <= secrets && waits == old(waits) + [w]
      ensures r.None? ==> |visited'| == |visited| + 1 && OnWalk(walker.tried, k, visited', before) && w == Silent
      ensures r.Some? ==> visited' == visited && trace == old(trace) && Came(r.value, |peers|, visited, heard + [w])
      ensures r == Some(Ended) ==> Routed() && Safe()
      ensures r == Some(MoveFailed) && Reliable() ==> !KeyUsable(c, ifPub, Nth(k, |visited|))
    {
      visited' := visited;
      var wait := AwaitHandshake();
      w := wait;
      SilentUntil(heard, w);
      if wait != Silent {
        return Some(Ended), visited', w;
      }
      var next;
      next, visited' := MoveOn(walker, k, visited, before);
      match next
      case NextUp => return None, visited', w;
      case AllTried => return Some(NoPeerAnswered), visited', w;
      case Refused => return Some(MoveFailed), visited', w;
    }

    /** Wait for the active peer; move on when it never answers; give up when all have been tried. `heard` is what
        the waits came to, one for each peer visited, `calls` counts the peers it tried to move to. */
    method Hold(walker: Walker, k: nat, blind: bool)
      returns (r: HoldResult, ghost visited: seq<nat>, ghost heard: seq<Wait>, ghost calls: nat)
      requires Valid() && Routed() && Safe() && k < |peers| && current == Some(k) && DistinctKids(peers)
      requires walker.tried == {}
      modifies this, host, pins, secrets, walker
      ensures Valid() && fresh(secrets - old(secrets)) && old(secrets) <= secrets
      ensures 1 <= |visited| <= |peers| && Walked(|peers|, k, visited) && waits == old(waits) + heard
      ensures if blind then r.Ended? && heard == [] && visited == [k] else Came(r, |peers|, visited, heard)
      ensures r.MoveFailed? && Reliable() ==> !KeyUsable(c, ifPub, Nth(k, |visited|))
      ensures calls == (if r.MoveFailed? then |visited| else |visited| - 1) && calls < |peers|
      ensures r.Ended? ==> Routed() && Safe()
      ensures Followed(old(trace), trace, visited)
    {
      visited, heard, calls := [k], [], 0;
      if blind {
        return Ended, visited, heard, calls;
      }
      while true
        invariant Valid() && OnWalk(walker.tried, k, visited, old(trace))
        invariant fresh(secrets - old(secrets)) && old(secrets) <= secrets
        invariant waits == old(waits) + heard && AllSilent(heard) && |heard| == calls == |visited| - 1
        decreases |peers| - |visited|
      {
        var turn;
        ghost var w;
        turn, visited, w := TakeTurn(walker, k, visited, heard, old(trace));
        heard := heard + [w];
        if turn.Some? {
          calls := calls + if turn.value.MoveFailed? then 1 else 0;
          return turn.value, visited, heard, calls;
        }
        calls := calls + 1;
      }
    }

    /** A whole run, from an open device to wherever it ends. */
    method Run(k: nat)
      returns (r: RunResult, failures: nat, ghost visited: seq<nat>, ghost heard: seq<Wait>, ghost recorded: seq<Pin>)
      requires Valid() && Routed() && k < |peers| && current == None && DistinctKids(peers)
      modifies this, host, pins, secrets
      ensures forall s :: s in secrets ==> Blank(s)
      ensures |visited| <= |peers| && Walked(|peers|, k, visited)
      ensures waits == old(waits) + heard && |heard| <= |visited|
      ensures r == NoneAnswered <==> |heard| == |peers| && AllSilent(heard)
      ensures TraceSafe(c, ifPub, peers, trace) && |old(trace)| + |visited| <= |trace| <= |old(trace)| + |visited| + 1
      ensures WasActive(trace[|old(trace)|..], visited)
      ensures forall i :: 0 <= i < |recorded| ==> recorded[i].addr in asked
      ensures failures == 0 ==> host.table == Unpinned(initial, recorded)
      ensures failures == 0 ==> (host.table == initial <==> NoneWasThere(initial, recorded))
      ensures LeftBehind(initial, recorded, host.table)
      ensures host.steady ==> failures == 0
      ensures Reliable() ==> (visited != [] <==> KeyUsable(c, ifPub, peers[k]))
      ensures forall i :: 0 <= i < |recorded| ==> IsGateway(initial, recorded[i].addr.V6?, recorded[i].hop)
    {
      r, visited, heard := Live(k);
      failures, recorded := Finish();
    }

    /** The first peer in place and its ranges routed in. */
    method BringUp(k: nat) returns (ok: bool, ghost visited: seq<nat>)
      requires Valid() && Routed() && k < |peers| && current == None
      modifies this, host, pins, secrets
      ensures Valid() && fresh(secrets - old(secrets)) && old(secrets) <= secrets
      ensures visited == if trace == old(trace) then [] else [k]
      ensures trace == old(trace)
              || (!ok && exists s :: trace == old(trace) + [s] && s.active == Some(k))
              || (exists s, s' :: trace == old(trace) + [s] + [s'] && s.active == Some(k))
      ensures ok ==> Routed() && Safe() && current == Some(k) && |trace| == |old(trace)| + 2
      ensures waits == old(waits)
      ensures Reliable() ==> (ok <==> KeyUsable(c, ifPub, peers[k])) && (visited != [] <==> ok)
    {
      visited := [];
      ghost var added;
      ok, added := UsePeer(k);
      if !ok {
        return;
      }
      visited := [k];
      ghost var first := Now();
      ok := ConfigureInterface();
      assert trace == old(trace) + [first] || trace == old(trace) + [first] + [Now()];
    }

    /** Everything between the open device and the teardown that every way out leads to. */
    method Live(k: nat) returns (r: RunResult, ghost visited: seq<nat>, ghost heard: seq<Wait>)
      requires Valid() && Routed() && k < |peers| && current == None && DistinctKids(peers)
      modifies this, host, pins, secrets
      ensures Valid() && fresh(secrets - old(secrets)) && old(secrets) <= secrets
      ensures |visited| <= |peers| && Walked(|peers|, k, visited)
      ensures waits == old(waits) + heard && |heard| <= |visited|
      ensures r == NoneAnswered <==> |heard| == |peers| && AllSilent(heard)
      ensures |old(trace)| + |visited| <= |trace| <= |old(trace)| + |visited| + 1
      ensures WasActive(trace[|old(trace)|..], visited)
      ensures Reliable() ==> (visited != [] <==> KeyUsable(c, ifPub, peers[k]))
    {
      heard := [];
      var up;
      up, visited := BringUp(k);
      var saved: bool, blind: bool := *, *;
      if !up || (!saved && !host.steady) {
        return Stopped, visited, heard;
      }
      ghost var was := trace;
      var walker := new Walker();
      var held;
      ghost var calls;
      held, visited, heard, calls := Hold(walker, k, blind);
      FollowedFromStart(old(trace), was[|was| - 2], was[|was| - 1], trace, visited);
      return if held.NoPeerAnswered? then NoneAnswered else Stopped, visited, heard;
    }

    /** Teardown at the end of a run, with the pins it took back. */
    method Finish() returns (failures: nat, ghost recorded: seq<Pin>)
      requires Valid()
      modifies host, pins, secrets
      ensures recorded == old(pins.routes) && forall i :: 0 <= i < |recorded| ==> recorded[i].addr in asked
      ensures forall i :: 0 <= i < |recorded| ==> IsGateway(initial, recorded[i].addr.V6?, recorded[i].hop)
      ensures forall s :: s in secrets ==> Blank(s)
      ensures failures == 0 ==> host.table == Unpinned(initial, recorded)
      ensures failures == 0 ==> (host.table == initial <==> NoneWasThere(initial, recorded))
      ensures LeftBehind(initial, recorded, host.table)
      ensures host.steady ==> failures == 0
    {
      recorded := pins.routes;
      RestoredExactly(initial, recorded);
      failures := Teardown();
    }
  }

  /** Whatever goes wrong on the way down: of what was there before only recorded pins can be missing, and of
      what was not, only recorded pins can remain. */
  ghost predicate LeftBehind(initial: Table, recorded: seq<Pin>, t: Table) {
    && (forall k :: k in Unpinned(initial, recorded) ==> k in t && t[k] == initial[k])
    && (forall k :: k in t ==> (k in initial && initial[k] == t[k]) || IsPin(recorded, t, k))
  }

  // ----- the invariants, step by step

  /** The plan names exactly the resolved addresses that the new peer's own ranges would capture. */
  lemma PlanIsExact(allowed: seq<Prefix>, resolved: seq<Addr>, hasEndpoint: bool, plan: Plan)
    requires !hasEndpoint ==> resolved == []
    requires forall a :: a in plan.endpoints <==>
      CoveredByAny(a, [RoutePeer(hasEndpoint, Some(resolved), allowed)])
      && exists i :: 0 <= i < 1 && ResolvedTo([RoutePeer(hasEndpoint, Some(resolved), allowed)][i], a)
    ensures forall a :: a in plan.endpoints <==> a in resolved && Covered(a, allowed)
  {
    var peers := [RoutePeer(hasEndpoint, Some(resolved), allowed)];
    forall a | a in resolved && Covered(a, allowed) ensures a in plan.endpoints {
      assert Covered(a, peers[0].allowedIPs) && ResolvedTo(peers[0], a);
    }
  }

  /** And it says whether those ranges would capture an address of the HEM's. */
  lemma HemIsExact(allowed: seq<Prefix>, peer: RoutePeer, hems: seq<Addr>, plan: Plan)
    requires peer.allowedIPs == allowed
    requires plan.hemInside <==> exists i :: 0 <= i < |hems| && CoveredByAny(hems[i], [peer])
    ensures plan.hemInside <==> exists a :: a in hems && Covered(a, allowed)
  {
    forall i | 0 <= i < |hems| ensures CoveredByAny(hems[i], [peer]) <==> Covered(hems[i], allowed) {
      if Covered(hems[i], allowed) {
        assert Covered(hems[i], [peer][0].allowedIPs);
      }
    }
    if a :| a in hems && Covered(a, allowed) {
      var i :| 0 <= i < |hems| && hems[i] == a;
      assert CoveredByAny(hems[i], [peer]);
    }
  }

  lemma AllPinned(endpoints: seq<Addr>, added: seq<Pin>, resolved: seq<Addr>, next: seq<Prefix>)
    requires forall a :: a in endpoints <==> a in resolved && Covered(a, next)
    requires |added| == |endpoints|
    requires forall i :: 0 <= i < |added| ==> added[i].hop.Via? && added[i].addr == endpoints[i]
    ensures Planned(added, resolved, next)
  {
    forall i | 0 <= i < |added| ensures added[i].addr in resolved && Covered(added[i].addr, next) {
      assert endpoints[i] in endpoints;
    }
  }

  lemma PinIn(added: seq<Pin>, before: seq<Pin>, pin: Pin, t: Table, k: Key)
    requires pin in added && k in t && HostKey(pin.addr) == k && pin.hop == t[k]
    ensures IsPin(before + added, t, k)
  {
    var i :| 0 <= i < |added| && added[i] == pin;
    assert (before + added)[|before| + i] == pin;
  }

  /** A pin that was installed is one that was recorded. */
  lemma PinningKeeps(initial: Table, t0: Table, r0: seq<Pin>, routed: set<Prefix>, added: seq<Pin>, next: seq<Prefix>)
    requires TableOk(initial, t0, r0, routed)
    requires forall i :: 0 <= i < |added| ==> added[i].hop.Via? && Covered(added[i].addr, next)
    ensures TableOk(initial, WithPins(t0, added), r0 + added, routed)
  {
    var t1, r1 := WithPins(t0, added), r0 + added;
    PinsAdded(t0, added);
    forall k | k in t1 && k !in initial ensures IsRange(routed, t1, k) || IsPin(r1, t1, k) {
      if k !in t0 {
        var pin :| pin in added && HostKey(pin.addr) == k && pin.hop == t1[k];
        PinIn(added, r0, pin, t1, k);
      } else if IsPin(r0, t0, k) {
        var i :| 0 <= i < |r0| && HostKey(r0[i].addr) == k && r0[i].hop == t0[k];
        assert r1[i] == r0[i];
      }
    }
    forall i | 0 <= i < |r1| ensures r1[i].hop.Via? && r1[i].addr.IsValid() && HostKey(r1[i].addr) in t1 {
      if i >= |r0| {
        assert r1[i] == added[i - |r0|] && r1[i] in added;
        CoveredMeansPlain(r1[i].addr, next);
      }
    }
  }

  lemma RoutedKey(initial: Table, t0: Table, routes: seq<Pin>, routed: set<Prefix>, ps: seq<Prefix>, k: Key)
    requires TableOk(initial, t0, routes, routed) && k in WithRanges(t0, ps) && k !in initial
    ensures IsRange(routed + (set p | p in ps), WithRanges(t0, ps), k) || IsPin(routes, WithRanges(t0, ps), k)
  {
    var more := routed + set p | p in ps;
    RangesAdded(t0, ps);
    if k !in t0 {
      var i :| 0 <= i < |ps| && ps[i].IsValid() && k.dst == DstOf(ps[i]);
      assert ps[i] in more;
    } else if IsRange(routed, t0, k) {
      var p :| p in routed && p.IsValid() && k == Key(DstOf(p), 0);
      assert p in more;
    }
  }

  lemma RoutingKeeps(initial: Table, t0: Table, routes: seq<Pin>, routed: set<Prefix>, ps: seq<Prefix>)
    requires TableOk(initial, t0, routes, routed)
    ensures TableOk(initial, WithRanges(t0, ps), routes, routed + set p | p in ps)
  {
    var t1, more := WithRanges(t0, ps), routed + set p | p in ps;
    RangesAdded(t0, ps);
    forall k | k in t1 && k !in initial ensures IsRange(more, t1, k) || IsPin(routes, t1, k) {
      RoutedKey(initial, t0, routes, routed, ps, k);
    }
    forall p | p in more && p.IsValid() ensures Key(DstOf(p), 0) in t1 {
      if p !in routed {
        var i :| 0 <= i < |ps| && ps[i] == p;
      }
    }
  }

  /** A completed move leaves what the next call counts on. */
  lemma MoveIsRouted(t0: Table, t2: Table, previous: seq<Prefix>, next: seq<Prefix>, resolved: seq<Addr>,
      added: seq<Pin>, first: bool, warned: bool)
    requires Moved(t0, t2, next, resolved, added, first)
    requires !warned ==> OnlyThese(t0, previous) && forall p :: p in previous ==> p in next
    ensures EndpointsPinned(t2, next, resolved) && (!warned ==> OnlyThese(t2, next))
  {
    forall a | a in resolved && Covered(a, next) ensures HostKey(a) in t2 {
      CoveredMovePins(t0, t2, next, resolved, added, first, a);
    }
    if !warned {
      OnlyTheseAfterMove(t0, t2, previous, next, resolved, added, first);
    }
  }

  lemma AllEscape(initial: Table, t0: Table, routes: seq<Pin>, routed: set<Prefix>, t2: Table, next: seq<Prefix>,
      resolved: seq<Addr>, added: seq<Pin>, first: bool)
    requires TableOk(initial, t0, routes, routed) && Moved(t0, t2, next, resolved, added, first)
    ensures forall a :: a in resolved && Plain(a) ==> (Outside(t2, a) <==> Escapes(initial, t0, routed, next, a))
  {
    forall a | a in resolved && Plain(a) ensures Outside(t2, a) <==> Escapes(initial, t0, routed, next, a) {
      MovedEscapes(initial, t0, routes, routed, t2, next, resolved, added, first, a);
    }
  }

  /** All that a completed move means for the routing. */
  lemma MoveMeans(initial: Table, t0: Table, routes: seq<Pin>, routed: set<Prefix>, t2: Table, peers: seq<Peer>,
      was: Option<nat>, i: nat, resolved: seq<Addr>, added: seq<Pin>, warned: bool)
    requires TableOk(initial, t0, routes, routed) && i < |peers|
    requires Moved(t0, t2, peers[i].allowedIPs, resolved, added, was.None?)
    requires !warned ==>
      OnlyThese(t0, RangesOf(peers, was)) && forall p :: p in RangesOf(peers, was) ==> p in peers[i].allowedIPs
    ensures EndpointsPinned(t2, peers[i].allowedIPs, resolved) && (!warned ==> OnlyThese(t2, peers[i].allowedIPs))
    ensures forall a :: a in resolved && Plain(a) ==>
      (Outside(t2, a) <==> Escapes(initial, t0, routed, peers[i].allowedIPs, a))
    ensures !warned && NoSingleHost(peers) ==> forall a :: a in resolved && Plain(a) ==> Outside(t2, a)
  {
    var previous, next := RangesOf(peers, was), peers[i].allowedIPs;
    MoveIsRouted(t0, t2, previous, next, resolved, added, was.None?, warned);
    AllEscape(initial, t0, routes, routed, t2, next, resolved, added, was.None?);
    if !warned && NoSingleHost(peers) {
      NoneSingleHost(peers, was);
      AllOutside(t0, t2, previous, next, resolved, added, was.None?);
    }
  }

  lemma NoneSingleHost(peers: seq<Peer>, current: Option<nat>)
    requires NoSingleHost(peers)
    ensures forall i :: 0 <= i < |RangesOf(peers, current)| ==> !SingleHost(RangesOf(peers, current)[i])
  {}

  /** The ranges of the active peer. */
  function RangesOf(peers: seq<Peer>, current: Option<nat>): seq<Prefix> {
    if current.Some? && current.value < |peers| then peers[current.value].allowedIPs else []
  }

  lemma AllOutside(t0: Table, t2: Table, previous: seq<Prefix>, next: seq<Prefix>, resolved: seq<Addr>,
      added: seq<Pin>, first: bool)
    requires Moved(t0, t2, next, resolved, added, first)
    requires OnlyThese(t0, previous) && forall i :: 0 <= i < |previous| ==> !SingleHost(previous[i])
    requires forall p :: p in previous ==> p in next
    ensures forall a :: a in resolved && Plain(a) ==> Outside(t2, a)
  {
    forall a | a in resolved && Plain(a) ensures Outside(t2, a) {
      UnwarnedOutside(t0, t2, previous, next, resolved, added, first, a);
    }
  }

  /** Routing the active peer's ranges keeps what the next call counts on, and moves no endpoint. */
  lemma ConfiguredKeeps(t: Table, allowed: seq<Prefix>, endpoints: seq<Addr>, warned: bool)
    requires EndpointsPinned(t, allowed, endpoints) && (!warned ==> OnlyThese(t, allowed))
    ensures var u := WithRanges(t, allowed);
      && EndpointsPinned(u, allowed, endpoints) && (!warned ==> OnlyThese(u, allowed))
      && forall a :: a in endpoints && Plain(a) ==> (Outside(u, a) <==> Outside(t, a))
  {
    RangesAdded(t, allowed);
    forall a | a in endpoints && Plain(a) ensures Outside(WithRanges(t, allowed), a) <==> Outside(t, a) {
      ConfiguredOutside(t, allowed, endpoints, a);
    }
  }

  // ----- the tunnel of a loaded configuration

  function PeerOf(p: Repository.TreePeer): Peer {
    Peer(p.kid, p.pub, p.rec.endpoint, p.rec.allowedIPs, p.rec.keepalive, p.rec.psk)
  }

  function PeersOf(t: Repository.Tree): seq<Peer> {
    Map((p: Repository.TreePeer) => PeerOf(p), t.peers)
  }

  /** A loaded tree is what the walk asks for: at least one peer, and none listed twice. */
  lemma LoadedTreeCanBeWalked(c: Kid.Crypto, size: Tlv.RecordSize, repo: Repository.Repo, ring: Repository.Ring,
      kid: string, t: Repository.Tree)
    requires Repository.Loads(c, size, repo, ring, kid, t)
    ensures PeersOf(t) != [] && DistinctKids(PeersOf(t))
  {
    Repository.LoadedDistinct(c, size, repo, ring, kid, t);
  }

  /** The device unwraps what it wrapped. */
  ghost predicate Unwraps(c: Kid.Crypto) {
    forall pub, context, key ::
      |c.wrap(pub, context, key)| == 40 ==> c.unwrap(pub, context, c.wrap(pub, context, key)) == key
  }

  lemma SpecifiedIsServed(c: Kid.Crypto, spec: Provision.PeerSpec, psk: Option<bytes>, ifPub: bytes,
      tp: Repository.TreePeer)
    requires Unwraps(c) && Provision.AsSpecified(c, spec, psk, ifPub, tp.rec)
    requires tp.pub == spec.pub && tp.kid == Kid.KeyId(c, tp.pub)
    ensures Served(c, ifPub, PeerOf(tp))
         == WgPeer(spec.pub, spec.endpoint.Canon(), Families.Grouped(spec.allowedIPs), spec.keepalive,
                   if psk.Some? then psk.value else [])
  {}

  /** From the request to the running tunnel: once this peer is the active one, WireGuard has the key, endpoint,
      ranges and keepalive that provisioning was given for it, and the very pre-shared key, as long as the device
      unwraps what it wrapped. */
  lemma RequestedIsServed(c: Kid.Crypto, size: Tlv.RecordSize, p: Provision.Params, before: Repository.Repo,
      after: Repository.Repo, kid: string, sum: Bytes32, placed: seq<Repository.TreePeer>, t: Repository.Tree, i: nat)
    requires Provision.Complete(c, size, p, before, after, kid, sum, placed) && Provision.NotOwnPeer(c, p, kid)
    requires Repository.LoadsHere(c, size, after, kid, t)
    requires i < |p.peers| && Kid.KeyId(c, p.peers[i].pub) !in before
    requires Unwraps(c)
    ensures |PeersOf(t)| == |p.peers|
    ensures var spec := p.peers[i];
      Served(c, t.ifPub, PeersOf(t)[i])
      == WgPeer(spec.pub, spec.endpoint.Canon(), Families.Grouped(spec.allowedIPs), spec.keepalive,
                if p.psk.Some? then p.psk.value else [])
  {
    Provision.LoadedAsRequested(c, size, p, before, after, kid, sum, placed, t);
    Repository.LoadedPeer(c, size, after, Repository.DeviceRing(after), kid, t, i);
    assert Provision.PeerAsRequested(c, size, p.peers[i], p.psk, p.adopt, before, t.ifPub, t.peers[i]);
    SpecifiedIsServed(c, p.peers[i], p.psk, t.ifPub, t.peers[i]);
  }
}
