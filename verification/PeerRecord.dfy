/** The WG:pr: record as a value, as an item stream and as bytes. */
module PeerRecord {
  import opened Base
  import opened Net
  import opened Tlv
  import opened Families

  const TAG_ENDPOINT4: byte := 0x10
  const TAG_ENDPOINT6: byte := 0x11
  const TAG_ENDPOINT_HOST: byte := 0x12
  const TAG_AIP4: byte := 0x13
  const TAG_AIP6: byte := 0x14
  const TAG_KEEPALIVE: byte := 0x15
  const TAG_PSK_WRAPPED: byte := 0x16

  const PSK_WRAPPED_LEN := 40  // a 32-byte key under AES key wrap, section 2.2.1 of RFC 3394

  function MaxHostname(size: RecordSize): nat {
    if size - HEADER_LEN - 4 < 60 then size - HEADER_LEN - 4 else 60
  }

  /** A literal address or a host name; the name wins where a caller sets both. */
  datatype Endpoint = Endpoint(ip: Addr, host: bytes, port: u16) {
    predicate IsSet() { host != [] || ip.IsValid() }

    function Canon(): Endpoint {
      if host != [] then this.(ip := NoAddr) else this.(ip := ip.WithoutZone())
    }
  }

  const NO_ENDPOINT := Endpoint(NoAddr, [], 0)

  /** `keepalive` is 0 when disabled, `psk` empty when there is none. */
  datatype Peer = Peer(endpoint: Endpoint, allowedIPs: seq<Prefix>, keepalive: byte, psk: bytes)

  const EMPTY := Peer(NO_ENDPOINT, [], 0, [])

  predicate WellFormed(p: Peer, size: RecordSize) {
    && |p.endpoint.host| <= MaxHostname(size)
    && AllValid(p.allowedIPs)
    && (|p.psk| == 0 || |p.psk| == PSK_WRAPPED_LEN)
  }

  predicate Encodable(p: Peer, size: RecordSize) {
    WellFormed(p, size) && p.endpoint.IsSet()
  }

  function EndpointItem(e: Endpoint): Item
    requires e.IsSet() && |e.host| <= 60
  {
    if e.host != [] then Item(TAG_ENDPOINT_HOST, Be16(e.port) + e.host)
    else Item(if e.ip.V4? then TAG_ENDPOINT4 else TAG_ENDPOINT6, e.ip.Octets() + Be16(e.port))
  }

  /** The items of the `k`-th group; the three endpoint tags form the first. */
  function Group(p: Peer, k: nat, size: RecordSize): (r: seq<Item>)
    requires WellFormed(p, size) && 1 <= k <= 5
    ensures forall i :: 0 <= i < |r| ==> Position(r[i].tag) == k
  {
    if k == 1 then (if p.endpoint.IsSet() then [EndpointItem(p.endpoint)] else [])
    else if k == 2 then PrefixItems(p.allowedIPs, true, TAG_AIP4)
    else if k == 3 then PrefixItems(p.allowedIPs, false, TAG_AIP6)
    else if k == 4 then (if p.keepalive != 0 then [Item(TAG_KEEPALIVE, [p.keepalive])] else [])
    else if |p.psk| > 0 then [Item(TAG_PSK_WRAPPED, p.psk)] else []
  }

  /** The group a tag belongs to, 0 for a tag that is not part of a peer record. */
  function Position(tag: byte): nat {
    if TAG_ENDPOINT4 <= tag <= TAG_ENDPOINT_HOST then 1
    else if TAG_AIP4 <= tag <= TAG_PSK_WRAPPED then tag - 0x11
    else 0
  }

  function Upto(p: Peer, k: nat, size: RecordSize): seq<Item>
    requires WellFormed(p, size) && k <= 5
  {
    if k == 0 then [] else Upto(p, k - 1, size) + Group(p, k, size)
  }

  function ItemsOf(p: Peer, size: RecordSize): seq<Item>
    requires WellFormed(p, size)
  {
    Upto(p, 5, size)
  }

  function Encode(p: Peer, size: RecordSize): (r: Option<bytes>)
    ensures r.Some? ==> |r.value| == size
  {
    if Encodable(p, size) then Seal(MAGIC_PEER, ItemsOf(p, size), size) else None
  }

  /** One step of the decoder. A second endpoint is as fatal here as it is at the end. */
  function Absorb(out: Peer, it: Item, size: RecordSize): Option<Peer> {
    if it.tag == TAG_ENDPOINT4 || it.tag == TAG_ENDPOINT6 then
      var n := if it.tag == TAG_ENDPOINT4 then 4 else 16;
      if out.endpoint.IsSet() || |it.value| != n + 2 then None
      else Some(out.(endpoint := Endpoint(AddrFrom(it.value[..n]), [], FromBe16(it.value[n..]))))
    else if it.tag == TAG_ENDPOINT_HOST then
      if out.endpoint.IsSet() || |it.value| < 3 || |it.value| > 2 + MaxHostname(size) then None
      else Some(out.(endpoint := Endpoint(NoAddr, it.value[2..], FromBe16(it.value[..2]))))
    else if it.tag == TAG_AIP4 || it.tag == TAG_AIP6 then
      match PrefixFrom(it.value, if it.tag == TAG_AIP4 then 4 else 16)
      case None => None
      case Some(p) => Some(out.(allowedIPs := out.allowedIPs + [p]))
    else if it.tag == TAG_KEEPALIVE then
      if out.keepalive != 0 || |it.value| != 1 || it.value[0] == 0 then None
      else Some(out.(keepalive := it.value[0]))
    else if it.tag == TAG_PSK_WRAPPED then
      if out.psk != [] || |it.value| != PSK_WRAPPED_LEN then None
      else Some(out.(psk := it.value))
    else None
  }

  function Fold(items: seq<Item>, size: RecordSize): Option<Peer> {
    if items == [] then Some(EMPTY)
    else
      match Fold(items[..|items| - 1], size)
      case None => None
      case Some(out) => Absorb(out, items[|items| - 1], size)
  }

  function Finish(r: Option<Peer>): Option<Peer> {
    if r.Some? && r.value.endpoint.IsSet() then r else None
  }

  function Decode(b: bytes, size: RecordSize): Option<Peer> {
    match Parse(b, MAGIC_PEER, size)
    case None => None
    case Some(items) => Finish(Fold(items, size))
  }

  /** The value a record can actually carry. */
  function Canon(p: Peer): Peer {
    p.(endpoint := p.endpoint.Canon(), allowedIPs := Grouped(p.allowedIPs))
  }

  function EndpointCost(e: Endpoint): nat {
    if e.host != [] then 4 + |e.host| else if e.ip.V4? then 8 else 20
  }

  /** The byte budget of a record, in closed form. */
  function Budget(p: Peer): nat {
    HEADER_LEN + EndpointCost(p.endpoint)
    + 7 * |Only(p.allowedIPs, true)| + 19 * |Only(p.allowedIPs, false)|
    + (if p.keepalive != 0 then 3 else 0)
    + (if |p.psk| > 0 then 42 else 0)
  }

  // ----- the item stream of a value is well formed

  lemma {:induction false} UptoAscending(p: Peer, k: nat, size: RecordSize)
    requires WellFormed(p, size) && k <= 5
    ensures Ascending(Upto(p, k, size), 0)
    ensures forall i :: 0 <= i < |Upto(p, k, size)| ==> 1 <= Position(Upto(p, k, size)[i].tag) <= k
  {
    if k > 0 {
      UptoAscending(p, k - 1, size);
    }
  }

  lemma {:induction false} GroupWithin(p: Peer, j: nat, k: nat, x: Item, size: RecordSize)
    requires WellFormed(p, size) && 1 <= j <= k <= 5 && x in Group(p, j, size)
    ensures x in Upto(p, k, size)
  {
    if j < k {
      GroupWithin(p, j, k - 1, x, size);
    }
  }

  // ----- decoding then encoding

  lemma NothingAbove(p: Peer, t: byte, j: nat, size: RecordSize)
    requires WellFormed(p, size) && 1 <= Position(t) < j <= 5
    requires forall x :: x in ItemsOf(p, size) ==> x.tag <= t
    ensures Group(p, j, size) == []
  {
    var g := Group(p, j, size);
    if g != [] {
      GroupWithin(p, j, 5, g[0], size);
    }
  }

  lemma Extend(pa: seq<Item>, pb: seq<Item>, ga: seq<Item>, gb: seq<Item>, it: Item)
    ensures pa == pb && gb == ga + [it] ==> pb + gb == pa + ga + [it]
    ensures pb == pa + [it] && ga == gb == [] ==> pb + gb == pa + ga + [it]
  {}

  lemma {:induction false} UptoGrows(a: Peer, b: Peer, j: nat, k: nat, it: Item, size: RecordSize)
    requires WellFormed(a, size) && WellFormed(b, size) && 1 <= j <= 5 && k <= 5
    requires Group(b, j, size) == Group(a, j, size) + [it]
    requires forall n :: 1 <= n <= 5 && n != j ==> Group(b, n, size) == Group(a, n, size)
    requires forall n :: j < n <= 5 ==> Group(a, n, size) == []
    ensures Upto(b, k, size) == if k < j then Upto(a, k, size) else Upto(a, k, size) + [it]
  {
    if k > 0 {
      UptoGrows(a, b, j, k - 1, it, size);
      Extend(Upto(a, k - 1, size), Upto(b, k - 1, size), Group(a, k, size), Group(b, k, size), it);
    }
  }

  lemma EndpointItemOfAbsorbed(out: Peer, it: Item, o: Peer, size: RecordSize)
    requires Position(it.tag) == 1 && Absorb(out, it, size) == Some(o)
    ensures o.endpoint.IsSet() && |o.endpoint.host| <= MaxHostname(size)
    ensures EndpointItem(o.endpoint) == it
  {
    var v := it.value;
    if it.tag == TAG_ENDPOINT_HOST {
      Be16FromBe16(v[..2]);
      assert v == v[..2] + v[2..];
    } else {
      var n := if it.tag == TAG_ENDPOINT4 then 4 else 16;
      Be16FromBe16(v[n..]);
      assert v == v[..n] + v[n..];
    }
  }

  lemma AbsorbWellFormed(out: Peer, it: Item, o: Peer, size: RecordSize)
    requires WellFormed(out, size) && Absorb(out, it, size) == Some(o)
    ensures WellFormed(o, size) && 1 <= Position(it.tag) <= 5
  {
    if Position(it.tag) == 1 {
      EndpointItemOfAbsorbed(out, it, o, size);
    }
  }

  lemma AbsorbGrows(out: Peer, it: Item, o: Peer, size: RecordSize)
    requires WellFormed(out, size) && WellFormed(o, size) && Absorb(out, it, size) == Some(o)
    requires 1 <= Position(it.tag) <= 5
    ensures Group(o, Position(it.tag), size) == Group(out, Position(it.tag), size) + [it]
  {
    if Position(it.tag) == 1 {
      EndpointItemOfAbsorbed(out, it, o, size);
      assert Group(o, 1, size) == [it] && Group(out, 1, size) == [];
    } else if it.tag == TAG_AIP4 || it.tag == TAG_AIP6 {
      assert o.allowedIPs[..|o.allowedIPs| - 1] == out.allowedIPs;
    } else if it.tag == TAG_KEEPALIVE {
      assert it.value == [it.value[0]];
    }
  }

  lemma AbsorbKeeps(out: Peer, it: Item, o: Peer, n: nat, size: RecordSize)
    requires WellFormed(out, size) && WellFormed(o, size) && Absorb(out, it, size) == Some(o)
    requires 1 <= n <= 5 && n != Position(it.tag)
    ensures Group(o, n, size) == Group(out, n, size)
  {
    if it.tag == TAG_AIP4 || it.tag == TAG_AIP6 {
      assert o.allowedIPs[..|o.allowedIPs| - 1] == out.allowedIPs;
    }
  }

  lemma AbsorbItems(out: Peer, it: Item, o: Peer, size: RecordSize)
    requires WellFormed(out, size) && Absorb(out, it, size) == Some(o)
    requires forall x :: x in ItemsOf(out, size) ==> x.tag <= it.tag
    ensures WellFormed(o, size) && ItemsOf(o, size) == ItemsOf(out, size) + [it]
  {
    AbsorbWellFormed(out, it, o, size);
    AbsorbGrows(out, it, o, size);
    var j := Position(it.tag);
    forall n | 1 <= n <= 5 && n != j ensures Group(o, n, size) == Group(out, n, size) {
      AbsorbKeeps(out, it, o, n, size);
    }
    forall n | j < n <= 5 ensures Group(out, n, size) == [] {
      NothingAbove(out, it.tag, n, size);
    }
    UptoGrows(out, o, j, 5, it, size);
  }

  lemma {:induction false} EmptyItems(k: nat, size: RecordSize)
    requires k <= 5
    ensures WellFormed(EMPTY, size) && Upto(EMPTY, k, size) == []
  {
    if k > 0 {
      EmptyItems(k - 1, size);
    }
  }

  lemma FoldItemsStep(items: seq<Item>, out: Peer, o: Peer, size: RecordSize)
    requires items != [] && Ascending(items, 0)
    requires WellFormed(out, size) && ItemsOf(out, size) == items[..|items| - 1]
    requires Absorb(out, items[|items| - 1], size) == Some(o)
    ensures WellFormed(o, size) && ItemsOf(o, size) == items
  {
    var init, it := items[..|items| - 1], items[|items| - 1];
    forall x | x in init ensures x.tag <= it.tag {
      var i :| 0 <= i < |init| && init[i] == x;
      assert items[i] == x;
    }
    AbsorbItems(out, it, o, size);
    assert init + [it] == items;
  }

  lemma FoldLast(items: seq<Item>, size: RecordSize)
    requires items != [] && Fold(items, size).Some?
    ensures Fold(items[..|items| - 1], size).Some? && (Ascending(items, 0) ==> Ascending(items[..|items| - 1], 0))
    ensures Absorb(Fold(items[..|items| - 1], size).value, items[|items| - 1], size) == Fold(items, size)
  {}

  lemma {:induction false} FoldItems(items: seq<Item>, size: RecordSize)
    requires Ascending(items, 0) && Fold(items, size).Some?
    ensures WellFormed(Fold(items, size).value, size)
    ensures ItemsOf(Fold(items, size).value, size) == items
  {
    if items == [] {
      EmptyItems(5, size);
    } else {
      FoldLast(items, size);
      FoldItems(items[..|items| - 1], size);
      FoldItemsStep(items, Fold(items[..|items| - 1], size).value, Fold(items, size).value, size);
    }
  }

  /** Distinguished encoding: an accepted record is the only encoding of what it says. */
  lemma EncodeOfDecode(b: bytes, size: RecordSize)
    requires Decode(b, size).Some?
    ensures Normalize(b, size).Some?
    ensures Encode(Decode(b, size).value, size) == Normalize(b, size)
  {
    SealOfParse(b, MAGIC_PEER, size);
    FoldItems(Parse(b, MAGIC_PEER, size).value, size);
  }

  // ----- encoding then decoding

  lemma FoldSnoc(pre: seq<Item>, g: seq<Item>, it: Item, size: RecordSize)
    ensures Fold(pre + (g + [it]), size) ==
            match Fold(pre + g, size) case None => None case Some(out) => Absorb(out, it, size)
  {
    var s := pre + (g + [it]);
    assert s[..|s| - 1] == pre + g;
  }

  lemma {:induction false} FoldPrefixes(pre: seq<Item>, out: Peer, ps: seq<Prefix>, v4: bool, size: RecordSize)
    requires Fold(pre, size) == Some(out) && AllValid(ps)
    ensures Fold(pre + PrefixItems(ps, v4, if v4 then TAG_AIP4 else TAG_AIP6), size)
         == Some(out.(allowedIPs := out.allowedIPs + Only(ps, v4)))
  {
    var tag := if v4 then TAG_AIP4 else TAG_AIP6;
    if ps == [] {
      assert pre + [] == pre && out.allowedIPs + [] == out.allowedIPs;
    } else {
      var init, p := ps[..|ps| - 1], ps[|ps| - 1];
      FoldPrefixes(pre, out, init, v4, size);
      if p.addr.V4? == v4 {
        FoldSnoc(pre, PrefixItems(init, v4, tag), PrefixItem(tag, p), size);
        PrefixFromItem(tag, p);
        assert out.allowedIPs + Only(ps, v4) == out.allowedIPs + Only(init, v4) + [p];
      }
    }
  }

  lemma FoldOptional(pre: seq<Item>, out: Peer, g: seq<Item>, next: Peer, size: RecordSize)
    requires Fold(pre, size) == Some(out) && |g| <= 1
    requires if g == [] then next == out else Absorb(out, g[0], size) == Some(next)
    ensures Fold(pre + g, size) == Some(next)
  {
    if g == [] {
      assert pre + g == pre;
    } else {
      var s := pre + g;
      assert s[..|s| - 1] == pre && s[|s| - 1] == g[0];
    }
  }

  /** The value as far as the first `k` groups describe it. */
  function Partial(p: Peer, k: nat): Peer
    requires k <= 5
  {
    Peer(
      if k == 0 then NO_ENDPOINT else p.endpoint.Canon(),
      if k < 2 then [] else if k == 2 then Only(p.allowedIPs, true) else Grouped(p.allowedIPs),
      if k < 4 then 0 else p.keepalive,
      if k < 5 then [] else p.psk)
  }

  lemma AbsorbEndpoint(p: Peer, size: RecordSize)
    requires Encodable(p, size)
    ensures Absorb(EMPTY, EndpointItem(p.endpoint), size) == Some(EMPTY.(endpoint := p.endpoint.Canon()))
  {
    var e, v := p.endpoint, EndpointItem(p.endpoint).value;
    if e.host != [] {
      assert v[..2] == Be16(e.port) && v[2..] == e.host;
    } else {
      var n := |e.ip.Octets()|;
      assert v[..n] == e.ip.Octets() && v[n..] == Be16(e.port);
    }
  }

  lemma AbsorbOptional(p: Peer, k: nat, size: RecordSize)
    requires Encodable(p, size) && (k == 1 || k == 4 || k == 5)
    ensures var g := Group(p, k, size);
            if g == [] then Partial(p, k) == Partial(p, k - 1)
            else Absorb(Partial(p, k - 1), g[0], size) == Some(Partial(p, k))
  {
    if k == 1 {
      AbsorbEndpoint(p, size);
    } else if k == 4 {
    } else {
    }
  }

  lemma {:induction false} FoldUpto(p: Peer, k: nat, size: RecordSize)
    requires Encodable(p, size) && k <= 5
    ensures Fold(Upto(p, k, size), size) == Some(Partial(p, k))
  {
    if k > 0 {
      FoldUpto(p, k - 1, size);
      var pre, out := Upto(p, k - 1, size), Partial(p, k - 1);
      if k == 2 || k == 3 {
        FoldPrefixes(pre, out, p.allowedIPs, k == 2, size);
        assert [] + Only(p.allowedIPs, true) == Only(p.allowedIPs, true);
      } else {
        AbsorbOptional(p, k, size);
        FoldOptional(pre, out, Group(p, k, size), Partial(p, k), size);
      }
    }
  }

  /** Round trip: decoding an encoded value gives it back, grouped by family. */
  lemma DecodeOfEncode(p: Peer, size: RecordSize)
    requires Encode(p, size).Some?
    ensures Decode(Encode(p, size).value, size) == Some(Canon(p))
  {
    UptoAscending(p, 5, size);
    ParseOfSeal(MAGIC_PEER, ItemsOf(p, size), size);
    FoldUpto(p, 5, size);
  }

  // ----- the budget

  function GroupCost(p: Peer, k: nat): nat
    requires 1 <= k <= 5
  {
    if k == 1 then EndpointCost(p.endpoint)
    else if k == 2 then 7 * |Only(p.allowedIPs, true)|
    else if k == 3 then 19 * |Only(p.allowedIPs, false)|
    else if k == 4 then (if p.keepalive != 0 then 3 else 0)
    else if |p.psk| > 0 then 42 else 0
  }

  lemma GroupLength(p: Peer, k: nat, size: RecordSize)
    requires Encodable(p, size) && 1 <= k <= 5
    ensures |Flat(Group(p, k, size))| == GroupCost(p, k)
  {
    if k == 2 || k == 3 {
      PrefixItemsLength(p.allowedIPs, k == 2, if k == 2 then TAG_AIP4 else TAG_AIP6);
    } else if Group(p, k, size) != [] {
      FlatOne(Group(p, k, size)[0]);
    }
  }

  function CostUpto(p: Peer, k: nat): nat
    requires k <= 5
  {
    if k == 0 then 0 else CostUpto(p, k - 1) + GroupCost(p, k)
  }

  lemma {:induction false} UptoLength(p: Peer, k: nat, size: RecordSize)
    requires Encodable(p, size) && k <= 5
    ensures |Flat(Upto(p, k, size))| == CostUpto(p, k)
  {
    if k > 0 {
      UptoLength(p, k - 1, size);
      FlatAppend(Upto(p, k - 1, size), Group(p, k, size));
      GroupLength(p, k, size);
    }
  }

  /** Encoding succeeds exactly when the value is well formed and the budget is kept. */
  lemma EncodeSucceeds(p: Peer, size: RecordSize)
    ensures Encode(p, size).Some? <==> Encodable(p, size) && Budget(p) <= size
  {
    if Encodable(p, size) {
      UptoLength(p, 5, size);
      assert CostUpto(p, 1) == GroupCost(p, 1) + CostUpto(p, 0);
      assert CostUpto(p, 3) == CostUpto(p, 1) + GroupCost(p, 2) + GroupCost(p, 3);
      assert CostUpto(p, 5) == CostUpto(p, 3) + GroupCost(p, 4) + GroupCost(p, 5);
    }
  }
}
