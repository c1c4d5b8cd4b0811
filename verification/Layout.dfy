/** The two records as the format's tables read, byte by byte and without items, and the repository's own
    golden vectors. */
module Layout {
  import opened Base
  import opened Net
  import opened Tlv
  import opened Families
  import opened Kid
  import I = InterfaceRecord
  import P = PeerRecord

  // ----- one field after another

  /** The prefixes of one family, each as tag, length, address and prefix length. */
  function PrefixBytes(tag: byte, ps: seq<Prefix>, v4: bool): bytes
    requires AllValid(ps)
  {
    if ps == [] then []
    else
      (if ps[0].addr.V4? == v4
       then [tag, if v4 then 5 else 17] + ps[0].addr.Octets() + [ps[0].bits] else [])
      + PrefixBytes(tag, ps[1..], v4)
  }

  function AddrBytes(tag: byte, addrs: seq<Addr>, v4: bool): bytes
    requires AllAddrsValid(addrs)
  {
    if addrs == [] then []
    else
      (if addrs[0].V4? == v4 then [tag, if v4 then 4 else 16] + addrs[0].Octets() else [])
      + AddrBytes(tag, addrs[1..], v4)
  }

  function RefBytes(refs: seq<Bytes4>): bytes {
    if refs == [] then [] else [0x06, 4] + refs[0] + RefBytes(refs[1..])
  }

  /** Big-endian, and nothing at all for zero. */
  function NumberBytes(tag: byte, v: u16): bytes {
    if v == 0 then [] else [tag, 2, v / 256, v % 256]
  }

  /** A WG:if: record before its padding. */
  function InterfaceBytes(i: I.Interface): bytes
    requires I.Encodable(i)
  {
    [0x57, 0x47, 0x3A, 0x69, 0x66, 0x3A, 0x02]
    + PrefixBytes(0x01, i.addrs, true) + PrefixBytes(0x02, i.addrs, false)
    + NumberBytes(0x03, i.mtu)
    + AddrBytes(0x04, i.dns, true) + AddrBytes(0x05, i.dns, false)
    + RefBytes(i.peerRefs)
    + NumberBytes(0x07, i.listenPort)
    + (if i.hasMac then [0x7F, 32] + i.mac else [])
  }

  function EndpointBytes(e: P.Endpoint): bytes
    requires e.IsSet() && |e.host| <= 60
  {
    var port := [e.port / 256, e.port % 256];
    if e.host != [] then [0x12, 2 + |e.host|] + port + e.host
    else if e.ip.V4? then [0x10, 6] + e.ip.b4 + port
    else [0x11, 18] + e.ip.Octets() + port
  }

  /** A WG:pr: record before its padding. */
  function PeerBytes(p: P.Peer): bytes
    requires p.endpoint.IsSet() && |p.endpoint.host| <= 60 && AllValid(p.allowedIPs) && |p.psk| < 256
  {
    [0x57, 0x47, 0x3A, 0x70, 0x72, 0x3A, 0x02]
    + EndpointBytes(p.endpoint)
    + PrefixBytes(0x13, p.allowedIPs, true) + PrefixBytes(0x14, p.allowedIPs, false)
    + (if p.keepalive == 0 then [] else [0x15, 1, p.keepalive])
    + (if p.psk == [] then [] else [0x16, |p.psk|] + p.psk)
  }

  // ----- the item stream spells the same bytes

  lemma {:induction false} PrefixBytesSnoc(tag: byte, ps: seq<Prefix>, p: Prefix, v4: bool)
    requires AllValid(ps) && p.IsValid()
    ensures AllValid(ps + [p])
    ensures PrefixBytes(tag, ps + [p], v4) ==
            PrefixBytes(tag, ps, v4)
            + if p.addr.V4? == v4 then [tag, if v4 then 5 else 17] + p.addr.Octets() + [p.bits] else []
  {
    var more := ps + [p];
    if ps == [] {
      assert more[1..] == [];
    } else {
      PrefixBytesSnoc(tag, ps[1..], p, v4);
      assert more[1..] == ps[1..] + [p];
    }
  }

  lemma {:induction false} PrefixesSpelled(tag: byte, ps: seq<Prefix>, v4: bool)
    requires AllValid(ps)
    ensures Flat(PrefixItems(ps, v4, tag)) == PrefixBytes(tag, ps, v4)
  {
    if ps != [] {
      var init, p := ps[..|ps| - 1], ps[|ps| - 1];
      PrefixesSpelled(tag, init, v4);
      PrefixBytesSnoc(tag, init, p, v4);
      assert ps == init + [p];
      if p.addr.V4? == v4 {
        FlatAppend(PrefixItems(init, v4, tag), [PrefixItem(tag, p)]);
        FlatOne(PrefixItem(tag, p));
      }
    }
  }

  lemma {:induction false} AddrBytesSnoc(tag: byte, addrs: seq<Addr>, a: Addr, v4: bool)
    requires AllAddrsValid(addrs) && a.IsValid()
    ensures AllAddrsValid(addrs + [a])
    ensures AddrBytes(tag, addrs + [a], v4) ==
            AddrBytes(tag, addrs, v4) + if a.V4? == v4 then [tag, if v4 then 4 else 16] + a.Octets() else []
  {
    var more := addrs + [a];
    if addrs == [] {
      assert more[1..] == [];
    } else {
      AddrBytesSnoc(tag, addrs[1..], a, v4);
      assert more[1..] == addrs[1..] + [a];
    }
  }

  lemma {:induction false} AddrsSpelled(tag: byte, addrs: seq<Addr>, v4: bool)
    requires AllAddrsValid(addrs)
    ensures Flat(AddrItems(addrs, v4, tag)) == AddrBytes(tag, addrs, v4)
  {
    if addrs != [] {
      var init, a := addrs[..|addrs| - 1], addrs[|addrs| - 1];
      AddrsSpelled(tag, init, v4);
      AddrBytesSnoc(tag, init, a, v4);
      assert addrs == init + [a];
      if a.V4? == v4 {
        FlatAppend(AddrItems(init, v4, tag), [Item(tag, a.Octets())]);
        FlatOne(Item(tag, a.Octets()));
      }
    }
  }

  lemma {:induction false} RefBytesSnoc(refs: seq<Bytes4>, ref: Bytes4)
    ensures RefBytes(refs + [ref]) == RefBytes(refs) + ([0x06, 4] + ref)
  {
    var more := refs + [ref];
    if refs == [] {
      assert more[1..] == [];
    } else {
      RefBytesSnoc(refs[1..], ref);
      assert more[1..] == refs[1..] + [ref];
    }
  }

  lemma {:induction false} RefsSpelled(refs: seq<Bytes4>)
    ensures Flat(I.RefItems(refs)) == RefBytes(refs)
  {
    if refs != [] {
      var init, ref := refs[..|refs| - 1], refs[|refs| - 1];
      RefsSpelled(init);
      RefBytesSnoc(init, ref);
      assert refs == init + [ref];
      FlatAppend(I.RefItems(init), [Item(I.TAG_PEER_REF, ref)]);
      FlatOne(Item(I.TAG_PEER_REF, ref));
    }
  }

  /** The bytes of one group. */
  function GroupBytes(i: I.Interface, k: nat): bytes
    requires I.Encodable(i) && 1 <= k <= 8
  {
    if k == 1 then PrefixBytes(0x01, i.addrs, true)
    else if k == 2 then PrefixBytes(0x02, i.addrs, false)
    else if k == 3 then NumberBytes(0x03, i.mtu)
    else if k == 4 then AddrBytes(0x04, i.dns, true)
    else if k == 5 then AddrBytes(0x05, i.dns, false)
    else if k == 6 then RefBytes(i.peerRefs)
    else if k == 7 then NumberBytes(0x07, i.listenPort)
    else if i.hasMac then [0x7F, 32] + i.mac else []
  }

  lemma GroupSpelled(i: I.Interface, k: nat)
    requires I.Encodable(i) && 1 <= k <= 8
    ensures Flat(I.Group(i, I.TagAt(k))) == GroupBytes(i, k)
  {
    if k == 1 || k == 2 {
      PrefixesSpelled(I.TagAt(k), i.addrs, k == 1);
    } else if k == 4 || k == 5 {
      AddrsSpelled(I.TagAt(k), i.dns, k == 4);
    } else if k == 6 {
      RefsSpelled(i.peerRefs);
    } else if I.Group(i, I.TagAt(k)) != [] {
      FlatOne(I.Group(i, I.TagAt(k))[0]);
    }
  }

  function BytesUpto(i: I.Interface, k: nat): bytes
    requires I.Encodable(i) && k <= 8
  {
    if k == 0 then [] else BytesUpto(i, k - 1) + GroupBytes(i, k)
  }

  lemma {:induction false} UptoSpelled(i: I.Interface, k: nat)
    requires I.Encodable(i) && k <= 8
    ensures Flat(I.Upto(i, k)) == BytesUpto(i, k)
  {
    if k > 0 {
      UptoSpelled(i, k - 1);
      FlatAppend(I.Upto(i, k - 1), I.Group(i, I.TagAt(k)));
      GroupSpelled(i, k);
    }
  }

  lemma GroupBehind(head: bytes, i: I.Interface, k: nat)
    requires I.Encodable(i) && 1 <= k <= 8
    ensures head + BytesUpto(i, k) == head + BytesUpto(i, k - 1) + GroupBytes(i, k)
  {}

  lemma AllGroups(i: I.Interface)
    requires I.Encodable(i)
    ensures InterfaceBytes(i) == [0x57, 0x47, 0x3A, 0x69, 0x66, 0x3A, 0x02] + BytesUpto(i, 8)
  {
    var head := [0x57, 0x47, 0x3A, 0x69, 0x66, 0x3A, 0x02];
    assert head + BytesUpto(i, 0) == head;
    GroupBehind(head, i, 1);
    GroupBehind(head, i, 2);
    GroupBehind(head, i, 3);
    GroupBehind(head, i, 4);
    GroupBehind(head, i, 5);
    GroupBehind(head, i, 6);
    GroupBehind(head, i, 7);
    GroupBehind(head, i, 8);
  }

  /** An interface record is its fields in the order of the table, padded, if they fit. */
  lemma InterfaceLayout(i: I.Interface, size: RecordSize)
    ensures I.Encode(i, size) ==
      if I.Encodable(i) && |InterfaceBytes(i)| <= size
      then Some(InterfaceBytes(i) + Zeros(size - |InterfaceBytes(i)|)) else None
  {
    if I.Encodable(i) {
      UptoSpelled(i, 8);
      AllGroups(i);
      assert InterfaceBytes(i) == MAGIC_INTERFACE + [VERSION] + Flat(I.ItemsOf(i));
    }
  }

  function PeerGroupBytes(p: P.Peer, k: nat): bytes
    requires p.endpoint.IsSet() && |p.endpoint.host| <= 60 && AllValid(p.allowedIPs) && |p.psk| < 256 && 1 <= k <= 5
  {
    if k == 1 then EndpointBytes(p.endpoint)
    else if k == 2 then PrefixBytes(0x13, p.allowedIPs, true)
    else if k == 3 then PrefixBytes(0x14, p.allowedIPs, false)
    else if k == 4 then (if p.keepalive == 0 then [] else [0x15, 1, p.keepalive])
    else if p.psk == [] then [] else [0x16, |p.psk|] + p.psk
  }

  lemma PeerGroupSpelled(p: P.Peer, k: nat, size: RecordSize)
    requires P.Encodable(p, size) && 1 <= k <= 5
    ensures Flat(P.Group(p, k, size)) == PeerGroupBytes(p, k)
  {
    if k == 2 || k == 3 {
      PrefixesSpelled(if k == 2 then P.TAG_AIP4 else P.TAG_AIP6, p.allowedIPs, k == 2);
    } else if P.Group(p, k, size) != [] {
      FlatOne(P.Group(p, k, size)[0]);
    }
  }

  function PeerBytesUpto(p: P.Peer, k: nat): bytes
    requires p.endpoint.IsSet() && |p.endpoint.host| <= 60 && AllValid(p.allowedIPs) && |p.psk| < 256 && k <= 5
  {
    if k == 0 then [] else PeerBytesUpto(p, k - 1) + PeerGroupBytes(p, k)
  }

  lemma {:induction false} PeerUptoSpelled(p: P.Peer, k: nat, size: RecordSize)
    requires P.Encodable(p, size) && k <= 5
    ensures Flat(P.Upto(p, k, size)) == PeerBytesUpto(p, k)
  {
    if k > 0 {
      PeerUptoSpelled(p, k - 1, size);
      FlatAppend(P.Upto(p, k - 1, size), P.Group(p, k, size));
      PeerGroupSpelled(p, k, size);
    }
  }

  lemma PeerGroupBehind(head: bytes, p: P.Peer, k: nat)
    requires p.endpoint.IsSet() && |p.endpoint.host| <= 60 && AllValid(p.allowedIPs) && |p.psk| < 256 && 1 <= k <= 5
    ensures head + PeerBytesUpto(p, k) == head + PeerBytesUpto(p, k - 1) + PeerGroupBytes(p, k)
  {}

  lemma AllPeerGroups(p: P.Peer)
    requires p.endpoint.IsSet() && |p.endpoint.host| <= 60 && AllValid(p.allowedIPs) && |p.psk| < 256
    ensures PeerBytes(p) == [0x57, 0x47, 0x3A, 0x70, 0x72, 0x3A, 0x02] + PeerBytesUpto(p, 5)
  {
    var head := [0x57, 0x47, 0x3A, 0x70, 0x72, 0x3A, 0x02];
    assert head + PeerBytesUpto(p, 0) == head;
    PeerGroupBehind(head, p, 1);
    PeerGroupBehind(head, p, 2);
    PeerGroupBehind(head, p, 3);
    PeerGroupBehind(head, p, 4);
    PeerGroupBehind(head, p, 5);
  }

  /** An endpoint of either form, a host name within its cap, valid ranges, a wrapped key of 40 bytes if any. */
  predicate Formed(p: P.Peer, size: RecordSize) {
    && p.endpoint.IsSet() && |p.endpoint.host| <= (if size == 64 then 53 else 60)
    && AllValid(p.allowedIPs) && (|p.psk| == 0 || |p.psk| == 40)
  }

  /** A peer record is its fields in the order of the table, padded, if it is well formed and they fit. */
  lemma PeerLayout(p: P.Peer, size: RecordSize)
    ensures P.Encode(p, size) ==
      if Formed(p, size) && |PeerBytes(p)| <= size
      then Some(PeerBytes(p) + Zeros(size - |PeerBytes(p)|)) else None
  {
    if Formed(p, size) {
      PeerUptoSpelled(p, 5, size);
      AllPeerGroups(p);
      assert PeerBytes(p) == MAGIC_PEER + [VERSION] + Flat(P.ItemsOf(p, size));
    }
  }

  // ----- the repository's golden vectors

  function Counting(n: nat): (r: bytes)
    requires n <= 256
    ensures |r| == n
  {
    seq(n, k requires 0 <= k < n => k)
  }

  function Repeating(n: nat): (r: bytes)
    ensures |r| == n
  {
    seq(n, k requires 0 <= k < n => 0xA0 + k % 16)
  }

  lemma TwoPrefixes(tag: byte, p: Prefix, q: Prefix)
    requires p.IsValid() && q.IsValid() && p.addr.V4? && q.addr.V4?
    ensures AllValid([p]) && AllValid([p, q])
    ensures PrefixBytes(tag, [p], true) == [tag, 5] + p.addr.b4 + [p.bits] && PrefixBytes(tag, [p], false) == []
    ensures PrefixBytes(tag, [p, q], true) == ([tag, 5] + p.addr.b4 + [p.bits]) + ([tag, 5] + q.addr.b4 + [q.bits])
    ensures PrefixBytes(tag, [p, q], false) == []
  {
    assert [p, q][1..] == [q] && [q][1..] == [] && [p][1..] == [];
  }

  lemma VectorFields(i: I.Interface)
    requires i.addrs == [Prefix(V4([10, 0, 0, 7]), 32)] && i.dns == [V4([10, 0, 0, 1])]
    requires i.peerRefs == [[0xDE, 0xAD, 0xBE, 0xEF], [1, 2, 3, 4]] && i.mtu == 1380 && i.listenPort == 51820
    ensures I.Encodable(i) && NumberBytes(0x03, i.mtu) == [0x03, 2, 0x05, 0x64]
    ensures PrefixBytes(0x01, i.addrs, true) == [0x01, 5, 10, 0, 0, 7, 32] && PrefixBytes(0x02, i.addrs, false) == []
    ensures AddrBytes(0x04, i.dns, true) == [0x04, 4, 10, 0, 0, 1] && AddrBytes(0x05, i.dns, false) == []
    ensures RefBytes(i.peerRefs) == [0x06, 4, 0xDE, 0xAD, 0xBE, 0xEF, 0x06, 4, 1, 2, 3, 4]
    ensures NumberBytes(0x07, i.listenPort) == [0x07, 2, 0xCA, 0x6C]
  {
    TwoPrefixes(0x01, i.addrs[0], i.addrs[0]);
    TwoPrefixes(0x02, i.addrs[0], i.addrs[0]);
    assert i.dns[1..] == [];
    TwoRefs([0xDE, 0xAD, 0xBE, 0xEF], [1, 2, 3, 4]);
  }

  lemma TwoRefs(r: Bytes4, q: Bytes4)
    ensures RefBytes([r, q]) == [0x06, 4] + r + ([0x06, 4] + q)
  {
    assert [r, q][1..] == [q] && [q][1..] == [];
    assert [0x06, 4] + q + [] == [0x06, 4] + q;
    assert RefBytes([q]) == [0x06, 4] + q;
  }

  /** Two fields that are absent take no room. */
  lemma Absent(a: bytes, b: bytes, c: bytes, d: bytes, e: bytes, f: bytes, g: bytes)
    ensures a + b + [] + c + d + [] + e + f + g == a + b + c + d + e + f + g
  {
    assert a + b + [] == a + b;
    assert a + b + c + d + [] == a + b + c + d;
  }

  lemma InterfaceVectorBytes(i: I.Interface)
    requires i.addrs == [Prefix(V4([10, 0, 0, 7]), 32)] && i.dns == [V4([10, 0, 0, 1])]
    requires i.peerRefs == [[0xDE, 0xAD, 0xBE, 0xEF], [1, 2, 3, 4]] && i.mtu == 1380 && i.listenPort == 51820
    requires i.hasMac
    ensures I.Encodable(i)
    ensures InterfaceBytes(i) ==
      [0x57, 0x47, 0x3A, 0x69, 0x66, 0x3A, 0x02]
      + [0x01, 5, 10, 0, 0, 7, 32] + [0x03, 2, 0x05, 0x64] + [0x04, 4, 10, 0, 0, 1]
      + [0x06, 4, 0xDE, 0xAD, 0xBE, 0xEF, 0x06, 4, 1, 2, 3, 4]
      + [0x07, 2, 0xCA, 0x6C] + ([0x7F, 32] + i.mac)
  {
    VectorFields(i);
    Absent([0x57, 0x47, 0x3A, 0x69, 0x66, 0x3A, 0x02], [0x01, 5, 10, 0, 0, 7, 32], [0x03, 2, 0x05, 0x64],
           [0x04, 4, 10, 0, 0, 1], [0x06, 4, 0xDE, 0xAD, 0xBE, 0xEF, 0x06, 4, 1, 2, 3, 4], [0x07, 2, 0xCA, 0x6C],
           [0x7F, 32] + i.mac);
  }

  /** One address, an MTU, a name server, two references, a port and a MAC: every byte of the record. */
  lemma InterfaceVector(i: I.Interface)
    requires i == I.Interface([Prefix(V4([10, 0, 0, 7]), 32)], 1380, [V4([10, 0, 0, 1])],
               [[0xDE, 0xAD, 0xBE, 0xEF], [1, 2, 3, 4]], 51820, true, Counting(32))
    ensures I.Encode(i, 128) == Some(
      [0x57, 0x47, 0x3A, 0x69, 0x66, 0x3A, 0x02]
      + [0x01, 5, 10, 0, 0, 7, 32] + [0x03, 2, 0x05, 0x64] + [0x04, 4, 10, 0, 0, 1]
      + [0x06, 4, 0xDE, 0xAD, 0xBE, 0xEF, 0x06, 4, 1, 2, 3, 4]
      + [0x07, 2, 0xCA, 0x6C] + ([0x7F, 32] + Counting(32)) + Zeros(54))
  {
    InterfaceVectorBytes(i);
    InterfaceLayout(i, 128);
  }

  lemma PeerVectorBytes(p: P.Peer)
    requires p.endpoint == P.Endpoint(V4([203, 0, 113, 1]), [], 51820)
    requires p.allowedIPs == [Prefix(V4([10, 0, 0, 0]), 24), Prefix(V4([192, 168, 9, 0]), 24)]
    requires p.keepalive == 25 && |p.psk| == 40
    ensures Formed(p, 128)
    ensures PeerBytes(p) ==
      [0x57, 0x47, 0x3A, 0x70, 0x72, 0x3A, 0x02]
      + [0x10, 6, 203, 0, 113, 1, 0xCA, 0x6C]
      + ([0x13, 5, 10, 0, 0, 0, 24] + [0x13, 5, 192, 168, 9, 0, 24])
      + [0x15, 1, 25] + ([0x16, 40] + p.psk)
  {
    TwoPrefixes(0x13, p.allowedIPs[0], p.allowedIPs[1]);
    TwoPrefixes(0x14, p.allowedIPs[0], p.allowedIPs[1]);
    var upto := [0x57, 0x47, 0x3A, 0x70, 0x72, 0x3A, 0x02] + [0x10, 6, 203, 0, 113, 1, 0xCA, 0x6C]
                + ([0x13, 5, 10, 0, 0, 0, 24] + [0x13, 5, 192, 168, 9, 0, 24]);
    assert EndpointBytes(p.endpoint) == [0x10, 6, 203, 0, 113, 1, 0xCA, 0x6C];
    assert upto + [] == upto;
  }

  /** An address, two ranges, a keepalive and a wrapped key. */
  lemma PeerVector(p: P.Peer)
    requires p == P.Peer(P.Endpoint(V4([203, 0, 113, 1]), [], 51820),
               [Prefix(V4([10, 0, 0, 0]), 24), Prefix(V4([192, 168, 9, 0]), 24)], 25, Repeating(40))
    ensures P.Encode(p, 128) == Some(
      [0x57, 0x47, 0x3A, 0x70, 0x72, 0x3A, 0x02]
      + [0x10, 6, 203, 0, 113, 1, 0xCA, 0x6C]
      + ([0x13, 5, 10, 0, 0, 0, 24] + [0x13, 5, 192, 168, 9, 0, 24])
      + [0x15, 1, 25] + ([0x16, 40] + Repeating(40)) + Zeros(54))
  {
    PeerVectorBytes(p);
    PeerLayout(p, 128);
  }
}
