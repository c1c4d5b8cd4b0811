/** The record codec as it runs: an appending writer, a scanning parser, in-place zeroing. */
module Codec {
  import opened Base
  import opened Net
  import opened Tlv
  import opened Families
  import I = InterfaceRecord
  import P = PeerRecord

  /** Accumulates a record; a value too long for its length byte latches the failure. */
  class Writer {
    var buf: bytes
    var failed: bool
    const magic: bytes
    ghost var items: seq<Item>

    ghost predicate Valid()
      reads this
    {
      |magic| == MAGIC_LEN && (!failed ==> buf == magic + [VERSION] + Flat(items))
    }

    constructor (magic: bytes)
      requires |magic| == MAGIC_LEN
      ensures Valid() && !failed && items == [] && this.magic == magic
    {
      this.magic := magic;
      buf, failed, items := magic + [VERSION], false, [];
    }

    method Put(tag: byte, value: bytes)
      requires Valid()
      modifies this
      ensures Valid()
      ensures failed <==> old(failed) || |value| > 255
      ensures !failed ==> items == old(items) + [Item(tag, value)]
    {
      if failed {
        return;
      }
      if |value| > 255 {
        failed := true;
        return;
      }
      FlatAppend(items, [Item(tag, value)]);
      FlatOne(Item(tag, value));
      buf := buf + [tag, |value|];
      buf := buf + value;
      items := items + [Item(tag, value)];
    }

    method Finish(size: RecordSize) returns (r: Option<bytes>)
      requires Valid()
      ensures r == if failed then None else Seal(magic, items, size)
    {
      if failed || |buf| > size {
        return None;
      }
      return Some(buf + Zeros(size - |buf|));
    }
  }

  // ----- encoding

  method EncodePrefixes(w: Writer, ps: seq<Prefix>, tag4: byte, tag6: byte) returns (ok: bool)
    requires w.Valid() && !w.failed
    modifies w
    ensures w.Valid() && !w.failed && (ok <==> AllValid(ps))
    ensures ok ==> w.items == old(w.items) + PrefixItems(ps, true, tag4) + PrefixItems(ps, false, tag6)
  {
    for i := 0 to |ps|
      invariant AllValid(ps[..i]) && w.Valid() && !w.failed && w.items == old(w.items)
    {
      if !ps[i].IsValid() {
        return false;
      }
      assert ps[..i + 1] == ps[..i] + [ps[i]];
    }
    assert ps[..|ps|] == ps;
    PutFamily(w, ps, true, tag4);
    PutFamily(w, ps, false, tag6);
    return true;
  }

  /** One of the two passes of EncodePrefixes. */
  method PutFamily(w: Writer, ps: seq<Prefix>, v4: bool, tag: byte)
    requires w.Valid() && !w.failed && AllValid(ps)
    modifies w
    ensures w.Valid() && !w.failed
    ensures w.items == old(w.items) + PrefixItems(ps, v4, tag)
  {
    for i := 0 to |ps|
      invariant w.Valid() && !w.failed
      invariant w.items == old(w.items) + PrefixItems(ps[..i], v4, tag)
    {
      assert ps[..i + 1][..i] == ps[..i];
      if ps[i].addr.V4? == v4 {
        w.Put(tag, ps[i].addr.Octets() + [ps[i].bits]);
      }
    }
    assert ps[..|ps|] == ps;
  }

  lemma Regroup(a: seq<Item>, b: seq<Item>, c: seq<Item>)
    ensures (a + b) + c == a + (b + c)
  {}

  method PutAddr(w: Writer, a: Addr, v4: bool, tag: byte)
    requires w.Valid() && !w.failed
    modifies w
    ensures w.Valid() && !w.failed
    ensures w.items == old(w.items) + if a.V4? == v4 then [Item(tag, a.Octets())] else []
  {
    if a.V4? == v4 {
      w.Put(tag, a.Octets());
    }
  }

  /** One of the two passes over the DNS servers; an invalid address ends either. */
  method PutAddrs(w: Writer, addrs: seq<Addr>, v4: bool, tag: byte) returns (ok: bool)
    requires w.Valid() && !w.failed
    modifies w
    ensures w.Valid() && !w.failed && (ok <==> AllAddrsValid(addrs))
    ensures ok ==> w.items == old(w.items) + AddrItems(addrs, v4, tag)
  {
    for i := 0 to |addrs|
      invariant AllAddrsValid(addrs[..i]) && w.Valid() && !w.failed
      invariant w.items == old(w.items) + AddrItems(addrs[..i], v4, tag)
    {
      if !addrs[i].IsValid() {
        return false;
      }
      ghost var step := if addrs[i].V4? == v4 then [Item(tag, addrs[i].Octets())] else [];
      Regroup(old(w.items), AddrItems(addrs[..i], v4, tag), step);
      AddrItemsTake(addrs, i, v4, tag);
      PutAddr(w, addrs[i], v4, tag);
    }
    assert addrs[..|addrs|] == addrs;
    return true;
  }

  method PutRefs(w: Writer, refs: seq<Bytes4>)
    requires w.Valid() && !w.failed
    modifies w
    ensures w.Valid() && !w.failed
    ensures w.items == old(w.items) + I.RefItems(refs)
  {
    for i := 0 to |refs|
      invariant w.Valid() && !w.failed
      invariant w.items == old(w.items) + I.RefItems(refs[..i])
    {
      assert refs[..i + 1][..i] == refs[..i];
      w.Put(I.TAG_PEER_REF, refs[i]);
    }
    assert refs[..|refs|] == refs;
  }

  /** The optional numeric tags are left out when they would carry zero. */
  method PutNonZero(w: Writer, tag: byte, v: u16)
    requires w.Valid() && !w.failed
    modifies w
    ensures w.Valid() && !w.failed
    ensures w.items == old(w.items) + if v != 0 then [Item(tag, Be16(v))] else []
  {
    if v != 0 {
      w.Put(tag, Be16(v));
    }
  }

  method EncodeInterface(i: I.Interface, size: RecordSize) returns (r: Option<bytes>)
    ensures r == I.Encode(i, size)
  {
    var w := new Writer(MAGIC_INTERFACE);
    var ok := EncodePrefixes(w, i.addrs, I.TAG_ADDR4, I.TAG_ADDR6);
    if !ok {
      return None;
    }
    ghost var s2 := w.items;
    PutNonZero(w, I.TAG_MTU, i.mtu);
    ok := PutAddrs(w, i.dns, true, I.TAG_DNS4);
    if !ok {
      return None;
    }
    ghost var s4 := w.items;
    ok := PutAddrs(w, i.dns, false, I.TAG_DNS6);
    if !ok {
      return None;
    }
    PutRefs(w, i.peerRefs);
    ghost var s6 := w.items;
    PutNonZero(w, I.TAG_LISTEN_PORT, i.listenPort);
    if i.hasMac {
      w.Put(I.TAG_MAC, i.mac);
    }
    InterfaceStages(i, s2, s4, s6, w.items);
    r := w.Finish(size);
  }

  lemma InterfaceStages(i: I.Interface, s2: seq<Item>, s4: seq<Item>, s6: seq<Item>, s8: seq<Item>)
    requires I.Encodable(i)
    requires s2 == [] + I.Group(i, I.TAG_ADDR4) + I.Group(i, I.TAG_ADDR6)
    requires s4 == s2 + I.Group(i, I.TAG_MTU) + I.Group(i, I.TAG_DNS4)
    requires s6 == s4 + I.Group(i, I.TAG_DNS6) + I.Group(i, I.TAG_PEER_REF)
    requires s8 == s6 + I.Group(i, I.TAG_LISTEN_PORT) + I.Group(i, I.TAG_MAC)
    ensures s8 == I.ItemsOf(i)
  {
    InterfaceStage(i, 1);
    InterfaceStage(i, 3);
    InterfaceStage(i, 5);
    InterfaceStage(i, 7);
  }

  lemma InterfaceStage(i: I.Interface, k: nat)
    requires I.Encodable(i) && 1 <= k <= 7
    ensures I.Upto(i, k + 1) == I.Upto(i, k - 1) + I.Group(i, I.TagAt(k)) + I.Group(i, I.TagAt(k + 1))
  {}

  method EncodePeer(p: P.Peer, size: RecordSize) returns (r: Option<bytes>)
    ensures r == P.Encode(p, size)
  {
    var w := new Writer(MAGIC_PEER);
    var ok := PutEndpoint(w, p.endpoint, size);
    if !ok {
      return None;
    }
    ok := EncodePrefixes(w, p.allowedIPs, P.TAG_AIP4, P.TAG_AIP6);
    if !ok {
      return None;
    }
    ghost var s3 := w.items;
    if p.keepalive != 0 {
      w.Put(P.TAG_KEEPALIVE, [p.keepalive]);
    }
    if |p.psk| > 0 {
      if |p.psk| != P.PSK_WRAPPED_LEN {
        return None;
      }
      w.Put(P.TAG_PSK_WRAPPED, p.psk);
    }
    PeerStages(p, s3, w.items, size);
    r := w.Finish(size);
  }

  /** A name wins over an address; with neither there is no record. */
  method PutEndpoint(w: Writer, e: P.Endpoint, size: RecordSize) returns (ok: bool)
    requires w.Valid() && !w.failed && w.items == []
    modifies w
    ensures w.Valid() && !w.failed && (ok <==> e.IsSet() && |e.host| <= P.MaxHostname(size))
    ensures ok ==> w.items == [P.EndpointItem(e)]
  {
    if e.host != [] {
      if |e.host| > P.MaxHostname(size) {
        return false;
      }
      w.Put(P.TAG_ENDPOINT_HOST, Be16(e.port) + e.host);
    } else if e.ip.V4? {
      w.Put(P.TAG_ENDPOINT4, e.ip.b4 + Be16(e.port));
    } else if e.ip.IsValid() {
      w.Put(P.TAG_ENDPOINT6, e.ip.b6 + Be16(e.port));
    } else {
      return false;
    }
    return true;
  }

  lemma PeerStages(p: P.Peer, s3: seq<Item>, s5: seq<Item>, size: RecordSize)
    requires P.Encodable(p, size)
    requires s3 == [P.EndpointItem(p.endpoint)] + P.Group(p, 2, size) + P.Group(p, 3, size)
    requires s5 == s3 + P.Group(p, 4, size) + P.Group(p, 5, size)
    ensures s5 == P.ItemsOf(p, size)
  {
    PeerStage(p, 1, size);
    PeerStage(p, 2, size);
    PeerStage(p, 3, size);
    PeerStage(p, 4, size);
    PeerStage(p, 5, size);
  }

  lemma PeerStage(p: P.Peer, k: nat, size: RecordSize)
    requires P.Encodable(p, size) && 1 <= k <= 5
    ensures P.Upto(p, k, size) == P.Upto(p, k - 1, size) + P.Group(p, k, size)
    ensures k == 1 ==> P.Upto(p, 1, size) == [P.EndpointItem(p.endpoint)]
  {}

  // ----- parsing

  function Prepend(items: seq<Item>, r: Option<seq<Item>>): Option<seq<Item>> {
    if r.None? then None else Some(items + r.value)
  }

  method ParseRecord(b: bytes, magic: bytes, size: RecordSize) returns (r: Option<seq<Item>>)
    requires |magic| == MAGIC_LEN
    ensures r == Parse(b, magic, size)
  {
    if |b| < HEADER_LEN || |b| > size || b[..MAGIC_LEN] != magic || b[MAGIC_LEN] != VERSION {
      return None;
    }
    var items, lastTag: byte, i := [], 0, HEADER_LEN;
    ghost var whole := ParseItems(b[HEADER_LEN..], 0);
    assert whole.Some? ==> [] + whole.value == whole.value;
    while i < |b|
      invariant HEADER_LEN <= i <= |b|
      invariant whole == Prepend(items, ParseItems(b[i..], lastTag))
    {
      var tag := b[i];
      if tag == 0 {
        var clean := OnlyPadding(b, i);
        assert items + [] == items;
        return if clean then Some(items) else None;
      }
      if tag < lastTag || i + 1 >= |b| {
        return None;
      }
      var n: nat := b[i + 1];
      if i + 2 + n > |b| {
        return None;
      }
      ParseStepAt(b, i, lastTag, items);
      items := items + [Item(tag, b[i + 2..i + 2 + n])];
      lastTag := tag;
      i := i + 2 + n;
    }
    assert b[i..] == [] && items + [] == items;
    return Some(items);
  }

  method OnlyPadding(b: bytes, i: nat) returns (clean: bool)
    requires i <= |b|
    ensures clean <==> AllZero(b[i..])
  {
    for j := i to |b|
      invariant forall k :: i <= k < j ==> b[k] == 0
    {
      if b[j] != 0 {
        assert b[i..][j - i] != 0;
        return false;
      }
    }
    return true;
  }

  lemma ParseStep(s: bytes, last: byte, items: seq<Item>)
    requires |s| >= 2 && s[0] != 0 && s[0] >= last && 2 + s[1] <= |s|
    ensures Prepend(items, ParseItems(s, last))
         == Prepend(items + [Item(s[0], s[2..2 + s[1]])], ParseItems(s[2 + s[1]..], s[0]))
  {
    var it, rest := Item(s[0], s[2..2 + s[1]]), ParseItems(s[2 + s[1]..], s[0]);
    if rest.Some? {
      assert items + ([it] + rest.value) == items + [it] + rest.value;
    }
  }

  lemma ParseStepAt(b: bytes, i: nat, last: byte, items: seq<Item>)
    requires i + 2 <= |b| && b[i] != 0 && b[i] >= last && i + 2 + b[i + 1] <= |b|
    ensures Prepend(items, ParseItems(b[i..], last))
         == Prepend(items + [Item(b[i], b[i + 2..i + 2 + b[i + 1]])], ParseItems(b[i + 2 + b[i + 1]..], b[i]))
  {
    ParseStep(b[i..], last, items);
    var n: nat := b[i + 1];
    assert b[i..][2 + n..] == b[i + 2 + n..];
    assert b[i..][2..2 + n] == b[i + 2..i + 2 + n];
  }

  // ----- decoding

  lemma {:induction false} InterfaceFoldFails(items: seq<Item>, n: nat)
    requires n <= |items| && I.Fold(items[..n]).None?
    ensures I.Fold(items).None?
    decreases |items|
  {
    if n < |items| {
      assert items[..|items| - 1][..n] == items[..n];
      InterfaceFoldFails(items[..|items| - 1], n);
    } else {
      assert items[..n] == items;
    }
  }

  method DecodeInterface(b: bytes, size: RecordSize) returns (r: Option<I.Interface>)
    ensures r == I.Decode(b, size)
  {
    var parsed := ParseRecord(b, MAGIC_INTERFACE, size);
    if parsed.None? {
      return None;
    }
    var items := parsed.value;
    var out, seen: set<byte> := I.EMPTY, {};
    for n := 0 to |items|
      invariant I.Fold(items[..n]) == Some(out)
      invariant I.TAG_MTU in seen <==> out.mtu != 0
      invariant I.TAG_LISTEN_PORT in seen <==> out.listenPort != 0
      invariant I.TAG_MAC in seen <==> out.hasMac
    {
      var it := items[n];
      var step := None;
      if I.TAG_MAC in seen {
        // nothing may follow the MAC
      } else if it.tag == I.TAG_ADDR4 || it.tag == I.TAG_ADDR6 {
        var p := PrefixFrom(it.value, if it.tag == I.TAG_ADDR4 then 4 else 16);
        if p.Some? {
          step := Some(out.(addrs := out.addrs + [p.value]));
        }
      } else if it.tag == I.TAG_MTU {
        if it.tag !in seen && |it.value| == 2 && FromBe16(it.value) != 0 {
          step := Some(out.(mtu := FromBe16(it.value)));
        }
        seen := seen + {it.tag};
      } else if it.tag == I.TAG_DNS4 || it.tag == I.TAG_DNS6 {
        if |it.value| == (if it.tag == I.TAG_DNS4 then 4 else 16) {
          step := Some(out.(dns := out.dns + [AddrFrom(it.value)]));
        }
      } else if it.tag == I.TAG_PEER_REF {
        if |it.value| == 4 {
          step := Some(out.(peerRefs := out.peerRefs + [it.value]));
        }
      } else if it.tag == I.TAG_LISTEN_PORT {
        if it.tag !in seen && |it.value| == 2 && FromBe16(it.value) != 0 {
          step := Some(out.(listenPort := FromBe16(it.value)));
        }
        seen := seen + {it.tag};
      } else if it.tag == I.TAG_MAC {
        if |it.value| == 32 {
          step := Some(out.(hasMac := true, mac := it.value));
        }
        seen := seen + {it.tag};
      }
      assert items[..n + 1][..n] == items[..n];
      assert I.Fold(items[..n + 1]) == step;
      if step.None? {
        InterfaceFoldFails(items, n + 1);
        return None;
      }
      if it.tag == I.TAG_MAC && n != |items| - 1 {
        assert items[..n + 2][..n + 1] == items[..n + 1];
        InterfaceFoldFails(items, n + 2);
        return None;
      }
      out := step.value;
    }
    assert items[..|items|] == items;
    return Some(out);
  }

  lemma {:induction false} PeerFoldFails(items: seq<Item>, n: nat, size: RecordSize)
    requires n <= |items| && P.Fold(items[..n], size).None?
    ensures P.Fold(items, size).None?
    decreases |items|
  {
    if n < |items| {
      assert items[..|items| - 1][..n] == items[..n];
      PeerFoldFails(items[..|items| - 1], n, size);
    } else {
      assert items[..n] == items;
    }
  }

  /** The endpoint a single endpoint item describes, before endpoints are counted. */
  method ReadEndpoint(it: Item, size: RecordSize) returns (r: Option<P.Endpoint>)
    requires P.Position(it.tag) == 1
    ensures forall out: P.Peer :: P.Absorb(out, it, size) ==
              if out.endpoint.IsSet() || r.None? then None else Some(out.(endpoint := r.value))
    ensures r.Some? ==> r.value.IsSet()
  {
    if it.tag == P.TAG_ENDPOINT4 {
      if |it.value| != 6 {
        return None;
      }
      return Some(P.Endpoint(AddrFrom(it.value[..4]), [], FromBe16(it.value[4..])));
    } else if it.tag == P.TAG_ENDPOINT6 {
      if |it.value| != 18 {
        return None;
      }
      return Some(P.Endpoint(AddrFrom(it.value[..16]), [], FromBe16(it.value[16..])));
    } else {
      if |it.value| < 3 || |it.value| > 2 + P.MaxHostname(size) {
        return None;
      }
      return Some(P.Endpoint(NoAddr, it.value[2..], FromBe16(it.value[..2])));
    }
  }

  method DecodePeer(b: bytes, size: RecordSize) returns (r: Option<P.Peer>)
    ensures r == P.Decode(b, size)
  {
    var parsed := ParseRecord(b, MAGIC_PEER, size);
    if parsed.None? {
      return None;
    }
    var items := parsed.value;
    var out, seen: set<byte>, endpoints := P.EMPTY, {}, 0;
    for n := 0 to |items|
      invariant 0 <= endpoints && (endpoints == 0 <==> !out.endpoint.IsSet())
      invariant P.Fold(items[..n], size) == if endpoints <= 1 then Some(out) else None
      invariant P.TAG_KEEPALIVE in seen <==> out.keepalive != 0
      invariant P.TAG_PSK_WRAPPED in seen <==> out.psk != []
    {
      var it := items[n];
      var step := None;
      assert items[..n + 1][..n] == items[..n];
      if P.Position(it.tag) == 1 {
        var e := ReadEndpoint(it, size);
        endpoints := endpoints + 1;
        if e.Some? {
          step := Some(out.(endpoint := e.value));
        }
      } else if it.tag == P.TAG_AIP4 || it.tag == P.TAG_AIP6 {
        var p := PrefixFrom(it.value, if it.tag == P.TAG_AIP4 then 4 else 16);
        if p.Some? {
          step := Some(out.(allowedIPs := out.allowedIPs + [p.value]));
        }
      } else if it.tag == P.TAG_KEEPALIVE {
        if it.tag !in seen && |it.value| == 1 && it.value[0] != 0 {
          step := Some(out.(keepalive := it.value[0]));
        }
        seen := seen + {it.tag};
      } else if it.tag == P.TAG_PSK_WRAPPED {
        if it.tag !in seen && |it.value| == P.PSK_WRAPPED_LEN {
          step := Some(out.(psk := it.value));
        }
        seen := seen + {it.tag};
      }
      assert P.Fold(items[..n + 1], size) == if endpoints <= 1 then step else None;
      if step.None? {
        PeerFoldFails(items, n + 1, size);
        return None;
      }
      out := step.value;
    }
    assert items[..|items|] == items;
    if endpoints != 1 {
      return None;
    }
    return Some(out);
  }

  // ----- the MAC value, blanked in place

  lemma {:induction false} FlatPrefix(items: seq<Item>, n: nat)
    requires n < |items|
    ensures Flat(items) == Flat(items[..n]) + Wire(items[n]) + Flat(items[n + 1..])
  {
    FlatAppend(items[..n], items[n..]);
    assert items == items[..n] + items[n..];
    assert items[n..][1..] == items[n + 1..];
  }

  lemma {:induction false} BlankAt(items: seq<Item>, n: nat)
    requires n <= |items| && forall k :: 0 <= k < n ==> items[k].tag != I.TAG_MAC
    ensures n == |items| ==> I.BlankFirstMac(items) == items
    ensures n < |items| && items[n].tag == I.TAG_MAC ==>
      I.BlankFirstMac(items) == items[..n] + [Item(I.TAG_MAC, Zeros(|items[n].value|))] + items[n + 1..]
  {
    if n > 0 {
      BlankAt(items[1..], n - 1);
      assert items[..n] == [items[0]] + items[1..][..n - 1];
      assert n < |items| ==> items[1..][n..] == items[n + 1..];
    }
  }

  lemma RecordSplit(a: bytes, it: Item, c: bytes, pad: nat)
    ensures MAGIC_INTERFACE + [VERSION] + (a + Wire(it) + c) + Zeros(pad)
         == (MAGIC_INTERFACE + [VERSION] + a + [it.tag, |it.value|]) + it.value + (c + Zeros(pad))
  {}

  /** Replacing one item by another of the same length changes only its bytes. */
  lemma SealReplaced(items: seq<Item>, n: nat, it: Item, rec: bytes, size: RecordSize)
    requires n < |items| && |it.value| == |items[n].value| && it.tag == items[n].tag
    requires Seal(MAGIC_INTERFACE, items, size) == Some(rec)
    ensures var off := HEADER_LEN + |Flat(items[..n])|;
            && off + 2 + |it.value| <= |rec|
            && Seal(MAGIC_INTERFACE, items[..n] + [it] + items[n + 1..], size)
               == Some(rec[..off + 2] + it.value + rec[off + 2 + |it.value|..])
  {
    var a, c := items[..n], items[n + 1..];
    FlatPrefix(items, n);
    FlatAppend(a + [it], c);
    FlatAppend(a, [it]);
    FlatOne(it);
    var off := HEADER_LEN + |Flat(a)|;
    var head := MAGIC_INTERFACE + [VERSION] + Flat(a) + [it.tag, |it.value|];
    var tail := Flat(c) + Zeros(size - HEADER_LEN - |Flat(items)|);
    RecordSplit(Flat(a), items[n], Flat(c), size - HEADER_LEN - |Flat(items)|);
    RecordSplit(Flat(a), it, Flat(c), size - HEADER_LEN - |Flat(items)|);
    Sections(head, items[n].value, tail);
  }

  lemma Sections(head: bytes, mid: bytes, tail: bytes)
    ensures (head + mid + tail)[..|head|] == head
    ensures (head + mid + tail)[|head| + |mid|..] == tail
  {}

  lemma FlatTake(items: seq<Item>, n: nat)
    requires n < |items|
    ensures |Flat(items[..n + 1])| == |Flat(items[..n])| + 2 + |items[n].value|
  {
    FlatAppend(items[..n], [items[n]]);
    FlatOne(items[n]);
    assert items[..n + 1] == items[..n] + [items[n]];
  }

  method ZeroMac(rec: bytes, size: RecordSize) returns (r: Option<bytes>)
    requires |rec| == size
    ensures r == I.ZeroMac(rec, size)
  {
    var parsed := ParseRecord(rec, MAGIC_INTERFACE, size);
    if parsed.None? {
      return None;
    }
    var items := parsed.value;
    SealOfParse(rec, MAGIC_INTERFACE, size);
    assert rec + Zeros(0) == rec;
    var out := new byte[size](i requires 0 <= i < size => rec[i]);
    assert out[..] == rec;
    var off := HEADER_LEN;
    for n := 0 to |items|
      invariant off == HEADER_LEN + |Flat(items[..n])|
      invariant out[..] == rec
      invariant forall k :: 0 <= k < n ==> items[k].tag != I.TAG_MAC
    {
      var it := items[n];
      if it.tag == I.TAG_MAC {
        BlankAt(items, n);
        SealReplaced(items, n, Item(it.tag, Zeros(|it.value|)), rec, size);
        Blank(out, off + 2, |it.value|);
        return Some(out[..]);
      }
      FlatTake(items, n);
      off := off + 2 + |it.value|;
    }
    BlankAt(items, |items|);
    return Some(out[..]);
  }

  method Blank(a: array<byte>, off: nat, len: nat)
    requires off + len <= a.Length
    modifies a
    ensures a[..] == old(a[..])[..off] + Zeros(len) + old(a[..])[off + len..]
  {
    for j := off to off + len
      invariant a[..off] == old(a[..off]) && a[off + len..] == old(a[off + len..])
      invariant forall k :: off <= k < j ==> a[k] == 0
    {
      a[j] := 0;
    }
    assert a[off..off + len] == Zeros(len);
    assert a[..] == a[..off] + a[off..off + len] + a[off + len..];
  }
}
