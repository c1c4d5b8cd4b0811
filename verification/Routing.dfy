/** The routing decision around the tunnel: longest-prefix match, the plan, and the pins. */
module Routing {
  import opened Base
  import opened Net

  // ----- prefixes as bit strings

  function HalfByteBits(n: nat): (r: seq<bool>)
    requires n < 16
    ensures |r| == 4
  {
    [n / 8 == 1, n / 4 % 2 == 1, n / 2 % 2 == 1, n % 2 == 1]
  }

  function ByteBits(b: byte): (r: seq<bool>)
    ensures |r| == 8
  {
    HalfByteBits(b / 16) + HalfByteBits(b % 16)
  }

  function Bits(b: bytes): (r: seq<bool>)
    ensures |r| == 8 * |b|
  {
    if b == [] then [] else ByteBits(b[0]) + Bits(b[1..])
  }

  /** A masked destination is its network bits and nothing else. */
  datatype Dst = Dst(v4: bool, bits: seq<bool>) {
    predicate Matches(a: Addr) {
      a.IsValid() && a.V4? == v4 && bits <= Bits(a.Octets())
    }
  }

  function DstOf(p: Prefix): Dst
    requires p.IsValid()
  {
    Dst(p.addr.V4?, Bits(p.addr.Octets())[..p.bits])
  }

  function HostDst(a: Addr): Dst {
    Dst(a.V4?, Bits(a.Octets()))
  }

  /** netip.Prefix.Contains: never across families, never a zoned address. */
  predicate Contains(p: Prefix, a: Addr) {
    p.IsValid() && a.WithoutZone() == a && DstOf(p).Matches(a)
  }

  predicate SingleHost(p: Prefix) {
    match p.addr
    case V4(_) => p.bits == 32
    case V6(_, _) => p.bits == 128
    case NoAddr => false
  }

  // ----- containment in numbers

  /** An address as the number its octets spell, most significant first. */
  function Number(b: bytes): nat {
    if b == [] then 0 else 256 * Number(b[..|b| - 1]) + b[|b| - 1]
  }

  function PowerOf2(n: nat): (r: nat)
    ensures r > 0
  {
    if n == 0 then 1 else 2 * PowerOf2(n - 1)
  }

  function BitNumber(s: seq<bool>): nat {
    if s == [] then 0 else 2 * BitNumber(s[..|s| - 1]) + if s[|s| - 1] then 1 else 0
  }

  lemma OneMoreBit(s: seq<bool>, x: bool)
    ensures BitNumber(s + [x]) == 2 * BitNumber(s) + if x then 1 else 0
  {
    assert (s + [x])[..|s|] == s;
  }

  lemma TwoMoreBits(s: seq<bool>, x: bool, y: bool)
    ensures BitNumber(s + [x, y]) == 4 * BitNumber(s) + (if x then 2 else 0) + if y then 1 else 0
  {
    OneMoreBit(s, x);
    OneMoreBit(s + [x], y);
    assert s + [x, y] == s + [x] + [y];
  }

  function Bit(x: bool): nat {
    if x then 1 else 0
  }

  lemma FourMoreBits(s: seq<bool>, x: seq<bool>)
    requires |x| == 4
    ensures BitNumber(s + x) == 16 * BitNumber(s) + 8 * Bit(x[0]) + 4 * Bit(x[1]) + 2 * Bit(x[2]) + Bit(x[3])
  {
    TwoMoreBits(s, x[0], x[1]);
    TwoMoreBits(s + [x[0], x[1]], x[2], x[3]);
    assert s + x == s + [x[0], x[1]] + [x[2], x[3]];
  }

  lemma HalfByteNumber(s: seq<bool>, n: nat)
    requires n < 16
    ensures BitNumber(s + HalfByteBits(n)) == 16 * BitNumber(s) + n
  {
    FourMoreBits(s, HalfByteBits(n));
  }

  lemma ByteNumber(s: seq<bool>, b: byte)
    ensures BitNumber(s + ByteBits(b)) == 256 * BitNumber(s) + b
  {
    HalfByteNumber(s, b / 16);
    HalfByteNumber(s + HalfByteBits(b / 16), b % 16);
    assert s + ByteBits(b) == s + HalfByteBits(b / 16) + HalfByteBits(b % 16);
  }

  lemma {:induction false} BitsSnoc(b: bytes)
    requires b != []
    ensures Bits(b) == Bits(b[..|b| - 1]) + ByteBits(b[|b| - 1])
  {
    if |b| > 1 {
      BitsSnoc(b[1..]);
      assert b[..|b| - 1][1..] == b[1..][..|b| - 2];
    }
  }

  lemma {:induction false} NumberOfBits(b: bytes)
    ensures BitNumber(Bits(b)) == Number(b)
  {
    if b != [] {
      NumberOfBits(b[..|b| - 1]);
      BitsSnoc(b);
      ByteNumber(Bits(b[..|b| - 1]), b[|b| - 1]);
    }
  }

  /** Dropping the last bits of a number is dividing it. */
  lemma {:induction false} LeadingBits(s: seq<bool>, n: nat)
    requires n <= |s|
    ensures BitNumber(s) / PowerOf2(|s| - n) == BitNumber(s[..n])
  {
    if n == |s| {
      assert s[..n] == s;
    } else {
      var init, m := s[..|s| - 1], |s| - 1 - n;
      LeadingBits(init, n);
      assert init[..n] == s[..n];
      HalveThenDivide(BitNumber(s), PowerOf2(m));
    }
  }

  lemma HalveThenDivide(x: nat, d: nat)
    requires d > 0
    ensures x / (2 * d) == x / 2 / d
  {
    var h := x / 2;
    var q, r := h / d, h % d;
    assert h == q * d + r;
    assert x == q * (2 * d) + (2 * r + x % 2) by {
      assert x == 2 * h + x % 2;
    }
    QuotientIs(x, 2 * d, q, 2 * r + x % 2);
  }

  lemma QuotientIs(x: int, d: int, q: int, r: int)
    requires d > 0 && x == q * d + r && 0 <= r < d
    ensures x / d == q
  {
    var e := x / d - q;
    assert x == (x / d) * d + x % d;
    assert e * d == r - x % d;
    NoSmallMultiple(e, d);
  }

  lemma NoSmallMultiple(e: int, d: int)
    requires -d < e * d < d
    ensures e == 0
  {}

  lemma {:induction false} SameNumberSameBits(s: seq<bool>, t: seq<bool>)
    requires |s| == |t| && BitNumber(s) == BitNumber(t)
    ensures s == t
  {
    if s != [] {
      SameNumberSameBits(s[..|s| - 1], t[..|t| - 1]);
      assert s == s[..|s| - 1] + [s[|s| - 1]] && t == t[..|t| - 1] + [t[|t| - 1]];
    }
  }

  lemma LeadingNumber(b: bytes, n: nat)
    requires n <= 8 * |b|
    ensures BitNumber(Bits(b)[..n]) == Number(b) / PowerOf2(8 * |b| - n)
  {
    NumberOfBits(b);
    LeadingBits(Bits(b), n);
  }

  lemma SameLeadingBits(b: bytes, d: bytes, n: nat)
    requires |b| == |d| && n <= 8 * |b|
    ensures Bits(b)[..n] == Bits(d)[..n]
       <==> Number(b) / PowerOf2(8 * |b| - n) == Number(d) / PowerOf2(8 * |b| - n)
  {
    LeadingNumber(b, n);
    LeadingNumber(d, n);
    if BitNumber(Bits(b)[..n]) == BitNumber(Bits(d)[..n]) {
      SameNumberSameBits(Bits(b)[..n], Bits(d)[..n]);
    }
  }

  /** A prefix contains what it agrees with after the host part is divided away: the same family, no zone, and
      one number left of the two addresses. */
  lemma ContainsInNumbers(p: Prefix, a: Addr)
    ensures Contains(p, a)
       <==> && p.IsValid() && a.IsValid() && a.WithoutZone() == a && (a.V4? <==> p.addr.V4?)
            && var host := (if a.V4? then 32 else 128) - p.bits;
               Number(a.Octets()) / PowerOf2(host) == Number(p.addr.Octets()) / PowerOf2(host)
  {
    if p.IsValid() && a.IsValid() && (a.V4? <==> p.addr.V4?) {
      SameLeadingBits(a.Octets(), p.addr.Octets(), p.bits);
    }
  }

  // ----- the table

  datatype Hop = Tunnel | Via(gw: Addr, iface: string)

  /** Routes to one destination are told apart by metric; a second at the same metric is EEXIST. */
  datatype Key = Key(dst: Dst, metric: nat)

  type Table = map<Key, Hop>

  /** The route the kernel takes: the longest match, then the lowest metric. */
  ghost predicate Best(t: Table, a: Addr, k: Key) {
    && k in t && k.dst.Matches(a)
    && forall j :: j in t && j.dst.Matches(a) ==>
         |j.dst.bits| < |k.dst.bits| || (|j.dst.bits| == |k.dst.bits| && k.metric <= j.metric)
  }

  /** Whatever carries traffic to `a`, it is not the tunnel. */
  ghost predicate Outside(t: Table, a: Addr) {
    forall k :: Best(t, a, k) ==> t[k] != Tunnel
  }

  function HostKey(a: Addr): Key {
    Key(HostDst(a), 0)
  }

  lemma SamePrefixSameDst(d: Dst, e: Dst, a: Addr)
    requires d.Matches(a) && e.Matches(a) && |d.bits| == |e.bits|
    ensures d == e
  {}

  /** A host route beats everything shorter, whatever order the two were installed in. */
  lemma HostRouteWins(t: Table, a: Addr)
    requires a.IsValid() && HostKey(a) in t && t[HostKey(a)] != Tunnel
    ensures Outside(t, a)
  {
    forall k | Best(t, a, k) ensures t[k] != Tunnel {
      assert HostKey(a).dst.Matches(a);
      SamePrefixSameDst(k.dst, HostDst(a), a);
    }
  }

  /** Where there is a host route for an address, that route decides. */
  lemma HostRouteDecides(t: Table, a: Addr)
    requires a.IsValid() && HostKey(a) in t
    ensures Outside(t, a) <==> t[HostKey(a)] != Tunnel
  {
    assert Best(t, a, HostKey(a));
    forall k | Best(t, a, k) ensures k == HostKey(a) {
      SamePrefixSameDst(k.dst, HostDst(a), a);
    }
  }

  /** Some route is the best one as soon as any matches. */
  lemma BestExists(t: Table, a: Addr, k: Key) returns (b: Key)
    requires k in t && k.dst.Matches(a)
    ensures Best(t, a, b) && |b.dst.bits| >= |k.dst.bits|
    decreases |Bits(a.Octets())| - |k.dst.bits|, k.metric
  {
    if Best(t, a, k) {
      return k;
    }
    var j :| j in t && j.dst.Matches(a)
          && !(|j.dst.bits| < |k.dst.bits| || (|j.dst.bits| == |k.dst.bits| && k.metric <= j.metric));
    b := BestExists(t, a, j);
  }

  /** The tunnel's own routes carry the lowest metric there is. */
  predicate TunnelFirst(t: Table) {
    forall k :: k in t && t[k] == Tunnel ==> k.metric == 0
  }

  /** So an address stays outside exactly when every tunnel route to it is beaten by a longer one elsewhere. */
  lemma OutsideIff(t: Table, a: Addr)
    requires TunnelFirst(t)
    ensures Outside(t, a) <==>
      forall k :: k in t && t[k] == Tunnel && k.dst.Matches(a) ==> Beaten(t, a, |k.dst.bits|)
  {
    if Outside(t, a) {
      forall k | k in t && t[k] == Tunnel && k.dst.Matches(a) ensures Beaten(t, a, |k.dst.bits|) {
        var b := BestExists(t, a, k);
        if |b.dst.bits| == |k.dst.bits| {
          SamePrefixSameDst(b.dst, k.dst, a);
        }
      }
    }
  }

  /** A route that is not the tunnel's matches `a` with more than `n` bits. */
  ghost predicate Beaten(t: Table, a: Addr, n: nat) {
    exists j :: j in t && t[j] != Tunnel && j.dst.Matches(a) && |j.dst.bits| > n
  }

  /** Routes that do not match an address have no say in where it goes. */
  lemma SameMatches(t: Table, u: Table, a: Addr)
    requires forall k :: k in t ==> k in u && u[k] == t[k]
    requires forall k :: k in u && k.dst.Matches(a) ==> k in t
    ensures Outside(u, a) <==> Outside(t, a)
  {
    forall k ensures Best(u, a, k) <==> Best(t, a, k) {}
  }

  /** Everything routed into the tunnel is one of these prefixes. */
  ghost predicate OnlyThese(t: Table, ps: seq<Prefix>) {
    forall k :: k in t && t[k] == Tunnel ==> exists i :: 0 <= i < |ps| && ps[i].IsValid() && k.dst == DstOf(ps[i])
  }

  predicate Covered(a: Addr, ps: seq<Prefix>) {
    exists i :: 0 <= i < |ps| && Contains(ps[i], a)
  }

  /** An address that the tunnel's prefixes do not cover is not captured by them. */
  lemma UncoveredIsOutside(t: Table, ps: seq<Prefix>, a: Addr)
    requires OnlyThese(t, ps) && a.WithoutZone() == a && !Covered(a, ps)
    ensures Outside(t, a)
  {
    assert forall i :: 0 <= i < |ps| && ps[i].IsValid() ==> !DstOf(ps[i]).Matches(a);
  }

  // ----- the plan

  /** One peer as the planner sees it: what its endpoint resolved to, or that it did not. */
  datatype RoutePeer = RoutePeer(hasEndpoint: bool, resolved: Option<seq<Addr>>, allowedIPs: seq<Prefix>)

  datatype Plan = Plan(endpoints: seq<Addr>, hemInside: bool)

  predicate CoveredByAny(a: Addr, peers: seq<RoutePeer>) {
    exists i :: 0 <= i < |peers| && Covered(a, peers[i].allowedIPs)
  }

  predicate ResolvedTo(p: RoutePeer, a: Addr) {
    p.hasEndpoint && p.resolved.Some? && a in p.resolved.value
  }

  method IsCovered(a: Addr, peers: seq<RoutePeer>) returns (r: bool)
    ensures r <==> CoveredByAny(a, peers)
  {
    for i := 0 to |peers|
      invariant forall j :: 0 <= j < i ==> !Covered(a, peers[j].allowedIPs)
    {
      for j := 0 to |peers[i].allowedIPs|
        invariant forall n :: 0 <= n < j ==> !Contains(peers[i].allowedIPs[n], a)
      {
        if Contains(peers[i].allowedIPs[j], a) {
          return true;
        }
      }
    }
    return false;
  }

  /** The covered endpoint addresses, each once, in order; and whether the HEM is covered too. */
  method PlanRouting(peers: seq<RoutePeer>, hem: Option<seq<Addr>>) returns (r: Option<Plan>)
    ensures r.Some? <==> hem.Some? && forall i :: 0 <= i < |peers| && peers[i].hasEndpoint ==> peers[i].resolved.Some?
    ensures r.Some? ==> Distinct(r.value.endpoints)
    ensures r.Some? ==> forall a :: a in r.value.endpoints <==>
      CoveredByAny(a, peers) && exists i :: 0 <= i < |peers| && ResolvedTo(peers[i], a)
    ensures r.Some? ==> (r.value.hemInside <==> exists i :: 0 <= i < |hem.value| && CoveredByAny(hem.value[i], peers))
  {
    var endpoints := [];
    for i := 0 to |peers|
      invariant forall j :: 0 <= j < i && peers[j].hasEndpoint ==> peers[j].resolved.Some?
      invariant Distinct(endpoints)
      invariant forall a :: a in endpoints <==>
        CoveredByAny(a, peers) && exists j :: 0 <= j < i && ResolvedTo(peers[j], a)
    {
      if peers[i].hasEndpoint {
        if peers[i].resolved.None? {
          return None;
        }
        endpoints := AddCovered(endpoints, peers[i].resolved.value, peers);
      }
    }
    if hem.None? {
      return None;
    }
    var hemInside := false;
    for i := 0 to |hem.value|
      invariant hemInside <==> exists j :: 0 <= j < i && CoveredByAny(hem.value[j], peers)
    {
      var c := IsCovered(hem.value[i], peers);
      hemInside := hemInside || c;
    }
    return Some(Plan(endpoints, hemInside));
  }

  method AddCovered(endpoints: seq<Addr>, addrs: seq<Addr>, peers: seq<RoutePeer>) returns (r: seq<Addr>)
    requires Distinct(endpoints)
    ensures Distinct(r)
    ensures forall a :: a in r <==> a in endpoints || (a in addrs && CoveredByAny(a, peers))
  {
    r := endpoints;
    for i := 0 to |addrs|
      invariant Distinct(r)
      invariant forall a :: a in r <==> a in endpoints || (a in addrs[..i] && CoveredByAny(a, peers))
    {
      var c := IsCovered(addrs[i], peers);
      assert addrs[..i + 1] == addrs[..i] + [addrs[i]];
      if c && addrs[i] !in r {
        r := r + [addrs[i]];
      }
    }
    assert addrs[..|addrs|] == addrs;
  }

  // ----- installing and removing

  datatype Pin = Pin(addr: Addr, hop: Hop)

  /** A route at the lowest metric, unless there is one. */
  function WithRoute(t: Table, dst: Dst, hop: Hop): Table {
    if Key(dst, 0) in t then t else t[Key(dst, 0) := hop]
  }

  /** Ranges routed into the tunnel one after another. */
  function WithRanges(t: Table, ps: seq<Prefix>): Table {
    if ps == [] then t
    else
      var u, p := WithRanges(t, ps[..|ps| - 1]), ps[|ps| - 1];
      if p.IsValid() then WithRoute(u, DstOf(p), Tunnel) else u
  }

  /** Host routes installed one after another. */
  function WithPins(t: Table, pins: seq<Pin>): Table {
    if pins == [] then t
    else WithRoute(WithPins(t, pins[..|pins| - 1]), HostDst(pins[|pins| - 1].addr), pins[|pins| - 1].hop)
  }

  lemma {:induction false} RangesAdded(t: Table, ps: seq<Prefix>)
    ensures var u := WithRanges(t, ps);
      && (forall k :: k in t ==> k in u && u[k] == t[k])
      && (forall k :: k in u && k !in t ==>
            u[k] == Tunnel && k.metric == 0 && exists i :: 0 <= i < |ps| && ps[i].IsValid() && k.dst == DstOf(ps[i]))
      && (forall i :: 0 <= i < |ps| && ps[i].IsValid() ==> Key(DstOf(ps[i]), 0) in u)
  {
    if ps != [] {
      var init := ps[..|ps| - 1];
      RangesAdded(t, init);
      assert forall i :: 0 <= i < |init| ==> init[i] == ps[i];
    }
  }

  /** Nothing is lost, what is new is one of the pins, and every pin's address has a host route. */
  ghost predicate PinnedFrom(t: Table, u: Table, pins: seq<Pin>) {
    && (forall k :: k in t ==> k in u && u[k] == t[k])
    && (forall k :: k in u && k !in t ==> exists pin :: pin in pins && HostKey(pin.addr) == k && pin.hop == u[k])
    && (forall pin :: pin in pins ==> HostKey(pin.addr) in u)
  }

  lemma PinnedStep(t: Table, u: Table, pins: seq<Pin>, pin: Pin)
    requires PinnedFrom(t, u, pins)
    ensures PinnedFrom(t, WithRoute(u, HostDst(pin.addr), pin.hop), pins + [pin])
  {
    var v, more := WithRoute(u, HostDst(pin.addr), pin.hop), pins + [pin];
    forall k | k in v && k !in t ensures exists x :: x in more && HostKey(x.addr) == k && x.hop == v[k] {
      if k in u {
        var x :| x in pins && HostKey(x.addr) == k && x.hop == u[k];
        assert x in more;
      } else {
        assert pin in more;
      }
    }
  }

  lemma {:induction false} PinsAdded(t: Table, pins: seq<Pin>)
    ensures PinnedFrom(t, WithPins(t, pins), pins)
  {
    if pins != [] {
      var init, last := pins[..|pins| - 1], pins[|pins| - 1];
      PinsAdded(t, init);
      PinnedStep(t, WithPins(t, init), init, last);
      assert init + [last] == pins;
    }
  }

  // ----- the gateway that is default now

  /** A default route of one family that names a gateway; the tunnel's own, being scoped to its interface, does not. */
  predicate DefaultVia(t: Table, v6: bool, k: Key) {
    k in t && k.dst == Dst(!v6, []) && t[k].Via? && t[k].gw.IsValid()
  }

  ghost predicate HasGateway(t: Table, v6: bool) {
    exists k :: DefaultVia(t, v6, k)
  }

  /** By way of this the traffic of one family leaves: of its default routes the one with the lowest metric. */
  ghost predicate IsGateway(t: Table, v6: bool, hop: Hop) {
    exists k :: DefaultVia(t, v6, k) && t[k] == hop && forall j :: DefaultVia(t, v6, j) ==> k.metric <= j.metric
  }

  /** It is what the kernel chooses for an address of the family that nothing but such a default route matches. */
  lemma GatewayIsBest(t: Table, a: Addr, hop: Hop)
    requires a.IsValid() && forall k :: k in t && k.dst.Matches(a) ==> DefaultVia(t, a.V6?, k)
    ensures IsGateway(t, a.V6?, hop) <==> exists k :: Best(t, a, k) && t[k] == hop
  {
    if IsGateway(t, a.V6?, hop) {
      var k :| DefaultVia(t, a.V6?, k) && t[k] == hop && forall j :: DefaultVia(t, a.V6?, j) ==> k.metric <= j.metric;
      assert Best(t, a, k);
    }
    if k :| Best(t, a, k) && t[k] == hop {
      forall j | DefaultVia(t, a.V6?, j) ensures k.metric <= j.metric {
        assert j.dst.Matches(a);
      }
    }
  }

  ghost predicate SameDefaults(t: Table, u: Table) {
    forall v6, k :: (DefaultVia(t, v6, k) <==> DefaultVia(u, v6, k)) && (DefaultVia(t, v6, k) ==> t[k] == u[k])
  }

  lemma SameGateway(t: Table, u: Table, v6: bool, hop: Hop)
    requires SameDefaults(t, u) && IsGateway(u, v6, hop)
    ensures IsGateway(t, v6, hop)
  {
    var k :| DefaultVia(u, v6, k) && u[k] == hop && forall j :: DefaultVia(u, v6, j) ==> k.metric <= j.metric;
    assert DefaultVia(t, v6, k);
  }

  lemma GatewayStays(t: Table, u: Table, v6: bool)
    requires (forall k :: k in t ==> k in u && u[k] == t[k]) && HasGateway(t, v6)
    ensures HasGateway(u, v6)
  {
    var k :| DefaultVia(t, v6, k);
    assert DefaultVia(u, v6, k);
  }

  /** Host routes are no default routes. */
  lemma PinsKeepDefaults(t: Table, pins: seq<Pin>)
    requires forall i :: 0 <= i < |pins| ==> pins[i].addr.IsValid()
    ensures SameDefaults(t, WithPins(t, pins))
  {
    PinsAdded(t, pins);
    forall v6, k | DefaultVia(WithPins(t, pins), v6, k) ensures k in t {
      DefaultIsNoPin(t, pins, v6, k);
    }
  }

  lemma HostRouteIsLong(a: Addr)
    requires a.IsValid()
    ensures |HostDst(a).bits| >= 32
  {}

  lemma DefaultIsNoPin(t: Table, pins: seq<Pin>, v6: bool, k: Key)
    requires PinnedFrom(t, WithPins(t, pins), pins) && DefaultVia(WithPins(t, pins), v6, k)
    requires forall i :: 0 <= i < |pins| ==> pins[i].addr.IsValid()
    ensures k in t
  {
    forall pin | pin in pins ensures HostKey(pin.addr) != k {
      HostRouteIsLong(pin.addr);
    }
  }

  /** The kernel's table, and the calls that change it. */
  class Host {
    const steady: bool  // no call fails for reasons of its own
    var table: Table

    constructor (table: Table, steady: bool)
      ensures this.table == table && this.steady == steady
    {
      this.table, this.steady := table, steady;
    }

    /** The gateway that is default now for a family. */
    method DefaultGateway(v6: bool) returns (r: Option<Hop>)
      ensures r.Some? ==> IsGateway(table, v6, r.value)
      ensures steady ==> (r.Some? <==> HasGateway(table, v6))
    {
      var up: bool := *;
      var todo := set k | k in table && DefaultVia(table, v6, k);
      if (!up && !steady) || todo == {} {
        assert forall k :: DefaultVia(table, v6, k) ==> k in todo;
        return None;
      }
      var best :| best in todo;
      while todo != {}
        invariant DefaultVia(table, v6, best)
        invariant forall j :: DefaultVia(table, v6, j) ==> j in todo || best.metric <= j.metric
        decreases todo
      {
        var k :| k in todo;
        if DefaultVia(table, v6, k) && k.metric < best.metric {
          best := k;
        }
        todo := todo - {k};
      }
      return Some(table[best]);
    }

    /** A route that is already there counts as success and is left alone. */
    method AddRoute(dst: Dst, hop: Hop) returns (ok: bool)
      modifies this
      ensures table == if ok then WithRoute(old(table), dst, hop) else old(table)
      ensures steady ==> ok
    {
      ok := *;
      ok := ok || steady;
      if ok && Key(dst, 0) !in table {
        table := table[Key(dst, 0) := hop];
      }
    }

    /** Removes the route only as it was recorded: a different next hop is not ours. */
    method DelHostRoute(pin: Pin) returns (ok: bool)
      modifies this
      ensures table == if ok && HostKey(pin.addr) in old(table) && old(table)[HostKey(pin.addr)] == pin.hop
                       then old(table) - {HostKey(pin.addr)} else old(table)
      ensures steady ==> ok
    {
      ok := *;
      ok := ok || steady;
      if ok && HostKey(pin.addr) in table && table[HostKey(pin.addr)] == pin.hop {
        table := table - {HostKey(pin.addr)};
      }
    }

    /** The AllowedIPs of a peer, routed into the tunnel; stops at the first failure. */
    method AddRoutes(ps: seq<Prefix>) returns (ok: bool, ghost done: nat)
      modifies this
      ensures done <= |ps| && (ok <==> done == |ps|) && (steady ==> ok)
      ensures table == WithRanges(old(table), ps[..done])
    {
      for n := 0 to |ps|
        invariant table == WithRanges(old(table), ps[..n])
      {
        assert ps[..n + 1][..n] == ps[..n];
        if ps[n].IsValid() {
          var one := AddRoute(DstOf(ps[n]), Tunnel);
          if !one {
            return false, n;
          }
        }
      }
      return true, |ps|;
    }

    /** The tunnel's routes go with its link. */
    method Down()
      modifies this
      ensures table == NoTunnel(old(table))
    {
      table := NoTunnel(table);
    }
  }

  function NoTunnel(t: Table): Table {
    map k | k in t && t[k] != Tunnel :: t[k]
  }

  /** The table without the routes that were recorded as ours. */
  function Unpinned(t: Table, pins: seq<Pin>): Table {
    map k | k in t && !(exists i :: 0 <= i < |pins| && HostKey(pins[i].addr) == k && pins[i].hop == t[k]) :: t[k]
  }

  /** `t` lacks nothing of `low` and has nothing beyond `high`. */
  ghost predicate Between(low: Table, t: Table, high: Table) {
    && (forall k :: k in low ==> k in t && t[k] == low[k])
    && (forall k :: k in t ==> k in high && high[k] == t[k])
  }

  /** A record of every host route put in, so that those and no others can be taken out. */
  class Pins {
    const host: Host
    var routes: seq<Pin>

    constructor (host: Host)
      ensures this.host == host && routes == []
    {
      this.host, routes := host, [];
    }

    /** One pin per address, by way of the gateway that is default when its turn comes; the new
        entries are exactly the new routes, also when it stops half way. */
    method Add(addrs: seq<Addr>) returns (ok: bool, ghost added: seq<Pin>)
      modifies this, host
      ensures routes == old(routes) + added && host.table == WithPins(old(host.table), added)
      ensures |added| <= |addrs| && (ok <==> |added| == |addrs|)
      ensures forall i :: 0 <= i < |added| ==> added[i].hop.Via? && added[i].addr == addrs[i]
      ensures (forall a :: a in addrs ==> a.IsValid()) ==>
        forall i :: 0 <= i < |added| ==> IsGateway(old(host.table), added[i].addr.V6?, added[i].hop)
      ensures host.steady && (forall a :: a in addrs ==> HasGateway(old(host.table), a.V6?)) ==> ok
    {
      added := [];
      for n := 0 to |addrs|
        invariant |added| == n && routes == old(routes) + added && host.table == WithPins(old(host.table), added)
        invariant forall i :: 0 <= i < n ==> added[i].hop.Via? && added[i].addr == addrs[i]
        invariant (forall a :: a in addrs ==> a.IsValid()) ==>
          forall i :: 0 <= i < n ==> IsGateway(old(host.table), added[i].addr.V6?, added[i].hop)
      {
        var gw := host.DefaultGateway(addrs[n].V6?);
        if gw.None? {
          PinsAdded(old(host.table), added);
          if HasGateway(old(host.table), addrs[n].V6?) {
            GatewayStays(old(host.table), host.table, addrs[n].V6?);
          }
          return false, added;
        }
        if forall a :: a in addrs ==> a.IsValid() {
          PinsKeepDefaults(old(host.table), added);
          SameGateway(old(host.table), host.table, addrs[n].V6?, gw.value);
        }
        var ok := host.AddRoute(HostDst(addrs[n]), gw.value);
        if !ok {
          return false, added;
        }
        routes := routes + [Pin(addrs[n], gw.value)];
        added := added + [Pin(addrs[n], gw.value)];
        assert added[..n] + [added[n]] == added;
      }
      return true, added;
    }

    /** Takes the pins back; a removal that fails is reported and the rest go on. */
    method Restore() returns (failures: nat)
      modifies this, host
      ensures routes == []
      ensures failures == 0 ==> host.table == Unpinned(old(host.table), old(routes))
      ensures host.steady ==> failures == 0
      ensures Between(Unpinned(old(host.table), old(routes)), host.table, old(host.table))
    {
      failures := 0;
      for n := 0 to |routes|
        invariant routes == old(routes) && (host.steady ==> failures == 0)
        invariant failures == 0 ==> host.table == Unpinned(old(host.table), routes[..n])
        invariant Between(Unpinned(old(host.table), routes), host.table, old(host.table))
      {
        var ok := host.DelHostRoute(routes[n]);
        if !ok {
          failures := failures + 1;
        }
        if failures == 0 {
          UnpinnedStep(old(host.table), routes, n);
        }
      }
      assert routes[..|routes|] == routes;
      routes := [];
    }
  }

  lemma UnpinnedStep(t: Table, pins: seq<Pin>, n: nat)
    requires n < |pins|
    ensures var u, k := Unpinned(t, pins[..n]), HostKey(pins[n].addr);
            Unpinned(t, pins[..n + 1]) == if k in u && u[k] == pins[n].hop then u - {k} else u
  {
    var a, b := pins[..n], pins[..n + 1];
    assert forall i :: 0 <= i < n ==> a[i] == b[i];
    assert b[n] == pins[n];
  }
}
