/** The WG:if: record as a value, as an item stream and as bytes. */
module InterfaceRecord {
  import opened Base
  import opened Net
  import opened Tlv
  import opened Families

  const TAG_ADDR4: byte := 0x01
  const TAG_ADDR6: byte := 0x02
  const TAG_MTU: byte := 0x03
  const TAG_DNS4: byte := 0x04
  const TAG_DNS6: byte := 0x05
  const TAG_PEER_REF: byte := 0x06
  const TAG_LISTEN_PORT: byte := 0x07
  const TAG_MAC: byte := 0x7F

  /** `mtu` and `listenPort` are 0 when absent; `mac` means nothing unless `hasMac`. */
  datatype Interface = Interface(
    addrs: seq<Prefix>, mtu: u16, dns: seq<Addr>, peerRefs: seq<Bytes4>,
    listenPort: u16, hasMac: bool, mac: Bytes32)

  const EMPTY := Interface([], 0, [], [], 0, false, Zeros(32))

  predicate Encodable(i: Interface) {
    AllValid(i.addrs) && AllAddrsValid(i.dns)
  }

  function RefItems(refs: seq<Bytes4>): (r: seq<Item>)
    ensures forall i :: 0 <= i < |r| ==> r[i].tag == TAG_PEER_REF
  {
    if refs == [] then []
    else RefItems(refs[..|refs| - 1]) + [Item(TAG_PEER_REF, refs[|refs| - 1])]
  }

  /** The items one tag contributes. */
  function Group(i: Interface, tag: byte): (r: seq<Item>)
    requires Encodable(i)
    ensures forall k :: 0 <= k < |r| ==> r[k].tag == tag
  {
    if tag == TAG_ADDR4 then PrefixItems(i.addrs, true, tag)
    else if tag == TAG_ADDR6 then PrefixItems(i.addrs, false, tag)
    else if tag == TAG_MTU then (if i.mtu != 0 then [Item(tag, Be16(i.mtu))] else [])
    else if tag == TAG_DNS4 then AddrItems(i.dns, true, tag)
    else if tag == TAG_DNS6 then AddrItems(i.dns, false, tag)
    else if tag == TAG_PEER_REF then RefItems(i.peerRefs)
    else if tag == TAG_LISTEN_PORT then (if i.listenPort != 0 then [Item(tag, Be16(i.listenPort))] else [])
    else if tag == TAG_MAC then (if i.hasMac then [Item(tag, i.mac)] else [])
    else []
  }

  /** The groups whose tags are at most the `k`-th one, in ascending order. */
  function Upto(i: Interface, k: nat): seq<Item>
    requires Encodable(i) && k <= 8
  {
    if k == 0 then [] else Upto(i, k - 1) + Group(i, TagAt(k))
  }

  function TagAt(k: nat): byte
    requires 1 <= k <= 8
  {
    if k == 8 then TAG_MAC else k
  }

  function ItemsOf(i: Interface): seq<Item>
    requires Encodable(i)
  {
    Upto(i, 8)
  }

  function Encode(i: Interface, size: RecordSize): (r: Option<bytes>)
    ensures r.Some? ==> |r.value| == size
  {
    if Encodable(i) then Seal(MAGIC_INTERFACE, ItemsOf(i), size) else None
  }

  /** One step of the decoder. A field that is already set marks its tag as seen. */
  function Absorb(out: Interface, it: Item): Option<Interface> {
    if out.hasMac then None
    else if it.tag == TAG_ADDR4 || it.tag == TAG_ADDR6 then
      match PrefixFrom(it.value, if it.tag == TAG_ADDR4 then 4 else 16)
      case None => None
      case Some(p) => Some(out.(addrs := out.addrs + [p]))
    else if it.tag == TAG_MTU then
      if out.mtu != 0 || |it.value| != 2 || FromBe16(it.value) == 0 then None
      else Some(out.(mtu := FromBe16(it.value)))
    else if it.tag == TAG_DNS4 || it.tag == TAG_DNS6 then
      if |it.value| != (if it.tag == TAG_DNS4 then 4 else 16) then None
      else Some(out.(dns := out.dns + [AddrFrom(it.value)]))
    else if it.tag == TAG_PEER_REF then
      if |it.value| != 4 then None else Some(out.(peerRefs := out.peerRefs + [it.value]))
    else if it.tag == TAG_LISTEN_PORT then
      if out.listenPort != 0 || |it.value| != 2 || FromBe16(it.value) == 0 then None
      else Some(out.(listenPort := FromBe16(it.value)))
    else if it.tag == TAG_MAC then
      if |it.value| != 32 then None else Some(out.(hasMac := true, mac := it.value))
    else None
  }

  function Fold(items: seq<Item>): Option<Interface> {
    if items == [] then Some(EMPTY)
    else
      match Fold(items[..|items| - 1])
      case None => None
      case Some(out) => Absorb(out, items[|items| - 1])
  }

  function Decode(b: bytes, size: RecordSize): Option<Interface> {
    match Parse(b, MAGIC_INTERFACE, size)
    case None => None
    case Some(items) => Fold(items)
  }

  /** The value a record can actually carry: families grouped, zones gone, no stray MAC. */
  function Canon(i: Interface): Interface {
    i.(addrs := Grouped(i.addrs), dns := GroupedAddrs(i.dns),
       mac := if i.hasMac then i.mac else Zeros(32))
  }

  /** The byte budget of a record, in closed form. */
  function Budget(i: Interface): nat {
    HEADER_LEN
    + 7 * |Only(i.addrs, true)| + 19 * |Only(i.addrs, false)|
    + (if i.mtu != 0 then 4 else 0)
    + 6 * |OnlyAddrs(i.dns, true)| + 18 * |OnlyAddrs(i.dns, false)|
    + 6 * |i.peerRefs|
    + (if i.listenPort != 0 then 4 else 0)
    + (if i.hasMac then 34 else 0)
  }

  // ----- the item stream of a value is well formed

  lemma {:induction false} UptoAscending(i: Interface, k: nat)
    requires Encodable(i) && k <= 8
    ensures Ascending(Upto(i, k), 0)
    ensures forall n :: 0 <= n < |Upto(i, k)| ==> k > 0 && Upto(i, k)[n].tag <= TagAt(k)
  {
    if k > 0 {
      UptoAscending(i, k - 1);
    }
  }

  lemma {:induction false} GroupWithin(i: Interface, j: nat, k: nat, x: Item)
    requires Encodable(i) && 1 <= j <= k <= 8 && x in Group(i, TagAt(j))
    ensures x in Upto(i, k)
  {
    if j < k {
      GroupWithin(i, j, k - 1, x);
    }
  }

  // ----- decoding then encoding

  /** Groups beyond the last tag read so far are still empty. */
  lemma NothingAbove(i: Interface, t: byte, j: nat)
    requires Encodable(i) && 1 <= j <= 8 && t < TagAt(j)
    requires forall x :: x in ItemsOf(i) ==> x.tag <= t
    ensures Group(i, TagAt(j)) == []
  {
    var g := Group(i, TagAt(j));
    if g != [] {
      GroupWithin(i, j, 8, g[0]);
    }
  }

  /** If only the `j`-th group grows, by `it`, and nothing follows it, the stream grows by `it`. */
  lemma {:induction false} UptoGrows(a: Interface, b: Interface, j: nat, k: nat, it: Item)
    requires Encodable(a) && Encodable(b) && 1 <= j <= 8 && k <= 8
    requires Group(b, TagAt(j)) == Group(a, TagAt(j)) + [it]
    requires forall n {:trigger TagAt(n)} :: 1 <= n <= 8 && n != j ==> Group(b, TagAt(n)) == Group(a, TagAt(n))
    requires forall n {:trigger TagAt(n)} :: j < n <= 8 ==> Group(a, TagAt(n)) == []
    ensures Upto(b, k) == if k < j then Upto(a, k) else Upto(a, k) + [it]
  {
    if k > 0 {
      UptoGrows(a, b, j, k - 1, it);
      if k > j {
        assert Group(a, TagAt(k)) == [];
      }
    }
  }

  function Position(tag: byte): (j: nat)
    requires 1 <= tag <= 7 || tag == TAG_MAC
    ensures 1 <= j <= 8 && TagAt(j) == tag
  {
    if tag == TAG_MAC then 8 else tag
  }

  lemma AbsorbGroups(out: Interface, it: Item, o: Interface)
    requires Encodable(out) && Absorb(out, it) == Some(o)
    ensures Encodable(o) && (1 <= it.tag <= 7 || it.tag == TAG_MAC)
    ensures Group(o, it.tag) == Group(out, it.tag) + [it]
    ensures forall n {:trigger TagAt(n)} :: 1 <= n <= 8 && TagAt(n) != it.tag ==>
        Group(o, TagAt(n)) == Group(out, TagAt(n))
  {
    assert o.addrs == out.addrs || o.addrs[..|o.addrs| - 1] == out.addrs;
    assert o.dns == out.dns || o.dns[..|o.dns| - 1] == out.dns;
    assert o.peerRefs == out.peerRefs || o.peerRefs[..|o.peerRefs| - 1] == out.peerRefs;
    if it.tag == TAG_MTU || it.tag == TAG_LISTEN_PORT {
      Be16FromBe16(it.value);
    }
  }

  lemma AbsorbItems(out: Interface, it: Item, o: Interface)
    requires Encodable(out) && Absorb(out, it) == Some(o)
    requires forall x :: x in ItemsOf(out) ==> x.tag <= it.tag
    ensures Encodable(o) && ItemsOf(o) == ItemsOf(out) + [it]
  {
    AbsorbGroups(out, it, o);
    var j := Position(it.tag);
    forall n {:trigger TagAt(n)} | j < n <= 8 ensures Group(out, TagAt(n)) == [] {
      NothingAbove(out, it.tag, n);
    }
    UptoGrows(out, o, j, 8, it);
  }

  lemma FoldItemsStep(init: seq<Item>, it: Item, out: Interface, o: Interface)
    requires Ascending(init + [it], 0)
    requires Encodable(out) && ItemsOf(out) == init && Absorb(out, it) == Some(o)
    ensures Encodable(o) && ItemsOf(o) == init + [it]
  {
    forall x | x in init ensures x.tag <= it.tag {
      var i :| 0 <= i < |init| && init[i] == x;
      assert (init + [it])[i] == x && (init + [it])[|init|] == it;
    }
    AbsorbItems(out, it, o);
  }

  lemma {:induction false} FoldItems(items: seq<Item>)
    requires Ascending(items, 0) && Fold(items).Some?
    ensures Encodable(Fold(items).value) && ItemsOf(Fold(items).value) == items
  {
    if items == [] {
      EmptyItems(8);
    } else {
      var init, it := items[..|items| - 1], items[|items| - 1];
      FoldItems(init);
      assert init + [it] == items;
      FoldItemsStep(init, it, Fold(init).value, Fold(items).value);
    }
  }

  lemma {:induction false} EmptyItems(k: nat)
    requires k <= 8
    ensures Encodable(EMPTY) && Upto(EMPTY, k) == []
  {
    if k > 0 {
      EmptyItems(k - 1);
    }
  }

  /** Distinguished encoding: an accepted record is the only encoding of what it says. */
  lemma EncodeOfDecode(b: bytes, size: RecordSize)
    requires Decode(b, size).Some?
    ensures Normalize(b, size).Some?
    ensures Encode(Decode(b, size).value, size) == Normalize(b, size)
  {
    SealOfParse(b, MAGIC_INTERFACE, size);
    FoldItems(Parse(b, MAGIC_INTERFACE, size).value);
  }

  // ----- encoding then decoding

  lemma FoldSnoc(pre: seq<Item>, g: seq<Item>, it: Item)
    ensures Fold(pre + (g + [it])) ==
            match Fold(pre + g) case None => None case Some(out) => Absorb(out, it)
  {
    var s := pre + (g + [it]);
    assert s[..|s| - 1] == pre + g;
  }

  lemma {:induction false} FoldPrefixes(pre: seq<Item>, out: Interface, ps: seq<Prefix>, v4: bool)
    requires Fold(pre) == Some(out) && !out.hasMac && AllValid(ps)
    ensures Fold(pre + PrefixItems(ps, v4, if v4 then TAG_ADDR4 else TAG_ADDR6))
         == Some(out.(addrs := out.addrs + Only(ps, v4)))
  {
    var tag := if v4 then TAG_ADDR4 else TAG_ADDR6;
    if ps == [] {
      assert pre + [] == pre && out.addrs + [] == out.addrs;
    } else {
      var init, p := ps[..|ps| - 1], ps[|ps| - 1];
      FoldPrefixes(pre, out, init, v4);
      if p.addr.V4? == v4 {
        FoldSnoc(pre, PrefixItems(init, v4, tag), PrefixItem(tag, p));
        PrefixFromItem(tag, p);
        assert out.addrs + Only(ps, v4) == out.addrs + Only(init, v4) + [p];
      }
    }
  }

  lemma AbsorbAddr(out: Interface, a: Addr, it: Item)
    requires a.IsValid() && !out.hasMac && it == Item(if a.V4? then TAG_DNS4 else TAG_DNS6, a.Octets())
    ensures Absorb(out, it) == Some(out.(dns := out.dns + [a.WithoutZone()]))
  {}

  lemma {:induction false} FoldAddrs(pre: seq<Item>, out: Interface, addrs: seq<Addr>, v4: bool)
    requires Fold(pre) == Some(out) && !out.hasMac && AllAddrsValid(addrs)
    ensures Fold(pre + AddrItems(addrs, v4, if v4 then TAG_DNS4 else TAG_DNS6))
         == Some(out.(dns := out.dns + OnlyAddrs(addrs, v4)))
  {
    var tag := if v4 then TAG_DNS4 else TAG_DNS6;
    if addrs == [] {
      assert pre + [] == pre && out.dns + [] == out.dns;
    } else {
      var init, a := addrs[..|addrs| - 1], addrs[|addrs| - 1];
      FoldAddrs(pre, out, init, v4);
      if a.V4? == v4 {
        var it, o := Item(tag, a.Octets()), out.(dns := out.dns + OnlyAddrs(init, v4));
        FoldSnoc(pre, AddrItems(init, v4, tag), it);
        AbsorbAddr(o, a, it);
        assert out.dns + OnlyAddrs(addrs, v4) == o.dns + [a.WithoutZone()];
      }
    }
  }

  lemma AbsorbRef(out: Interface, ref: Bytes4, it: Item)
    requires !out.hasMac && it == Item(TAG_PEER_REF, ref)
    ensures Absorb(out, it) == Some(out.(peerRefs := out.peerRefs + [ref]))
  {}

  lemma {:induction false} FoldRefs(pre: seq<Item>, out: Interface, refs: seq<Bytes4>)
    requires Fold(pre) == Some(out) && !out.hasMac
    ensures Fold(pre + RefItems(refs)) == Some(out.(peerRefs := out.peerRefs + refs))
  {
    if refs == [] {
      assert pre + [] == pre && out.peerRefs + [] == out.peerRefs;
    } else {
      var init, ref := refs[..|refs| - 1], refs[|refs| - 1];
      FoldRefs(pre, out, init);
      var it, o := Item(TAG_PEER_REF, ref), out.(peerRefs := out.peerRefs + init);
      FoldSnoc(pre, RefItems(init), it);
      AbsorbRef(o, ref, it);
      assert out.peerRefs + refs == o.peerRefs + [ref];
    }
  }

  /** A group of at most one item. */
  lemma FoldOptional(pre: seq<Item>, out: Interface, g: seq<Item>, next: Interface)
    requires Fold(pre) == Some(out) && |g| <= 1
    requires if g == [] then next == out else Absorb(out, g[0]) == Some(next)
    ensures Fold(pre + g) == Some(next)
  {
    if g == [] {
      assert pre + g == pre;
    } else {
      var s := pre + g;
      assert s[..|s| - 1] == pre && s[|s| - 1] == g[0];
    }
  }

  /** The value as far as the first `k` groups describe it. */
  function Partial(i: Interface, k: nat): Interface
    requires k <= 8
  {
    Interface(
      if k == 0 then [] else if k == 1 then Only(i.addrs, true) else Grouped(i.addrs),
      if k < 3 then 0 else i.mtu,
      if k < 4 then [] else if k == 4 then OnlyAddrs(i.dns, true) else GroupedAddrs(i.dns),
      if k < 6 then [] else i.peerRefs,
      if k < 7 then 0 else i.listenPort,
      k == 8 && i.hasMac,
      if k == 8 && i.hasMac then i.mac else Zeros(32))
  }

  lemma AbsorbOptional(i: Interface, k: nat)
    requires Encodable(i) && (k == 3 || k == 7 || k == 8)
    ensures var g := Group(i, TagAt(k));
            if g == [] then Partial(i, k) == Partial(i, k - 1)
            else Absorb(Partial(i, k - 1), g[0]) == Some(Partial(i, k))
  {
    if k == 3 {
    } else if k == 7 {
    } else {
    }
  }

  lemma PartialAddrs(i: Interface, k: nat)
    requires k == 1 || k == 2
    ensures var out := Partial(i, k - 1);
            Partial(i, k) == out.(addrs := out.addrs + Only(i.addrs, k == 1))
  {
    assert [] + Only(i.addrs, true) == Only(i.addrs, true);
  }

  lemma PartialDns(i: Interface, k: nat)
    requires k == 4 || k == 5
    ensures var out := Partial(i, k - 1);
            Partial(i, k) == out.(dns := out.dns + OnlyAddrs(i.dns, k == 4))
  {
    assert [] + OnlyAddrs(i.dns, true) == OnlyAddrs(i.dns, true);
  }

  lemma PartialRefs(i: Interface)
    ensures var out := Partial(i, 5);
            Partial(i, 6) == out.(peerRefs := out.peerRefs + i.peerRefs)
  {
    var five, six := Partial(i, 5), Partial(i, 6);
    assert five.peerRefs + i.peerRefs == i.peerRefs == six.peerRefs;
    assert six.addrs == five.addrs && six.dns == five.dns;
  }

  lemma {:induction false} FoldUpto(i: Interface, k: nat)
    requires Encodable(i) && k <= 8
    ensures Fold(Upto(i, k)) == Some(Partial(i, k))
  {
    if k > 0 {
      FoldUpto(i, k - 1);
      var pre, out := Upto(i, k - 1), Partial(i, k - 1);
      if k == 1 || k == 2 {
        FoldPrefixes(pre, out, i.addrs, k == 1);
        PartialAddrs(i, k);
      } else if k == 4 || k == 5 {
        FoldAddrs(pre, out, i.dns, k == 4);
        PartialDns(i, k);
      } else if k == 6 {
        FoldRefs(pre, out, i.peerRefs);
        PartialRefs(i);
      } else {
        AbsorbOptional(i, k);
        FoldOptional(pre, out, Group(i, TagAt(k)), Partial(i, k));
      }
    }
  }

  /** Round trip: decoding an encoded value gives it back, grouped by family. */
  lemma DecodeOfEncode(i: Interface, size: RecordSize)
    requires Encode(i, size).Some?
    ensures Decode(Encode(i, size).value, size) == Some(Canon(i))
  {
    UptoAscending(i, 8);
    ParseOfSeal(MAGIC_INTERFACE, ItemsOf(i), size);
    FoldUpto(i, 8);
  }

  /** Decoded values are already in the form a record can carry. */
  lemma DecodedIsCanon(b: bytes, size: RecordSize)
    requires Decode(b, size).Some?
    ensures Canon(Decode(b, size).value) == Decode(b, size).value
  {
    var items := Parse(b, MAGIC_INTERFACE, size).value;
    SealOfParse(b, MAGIC_INTERFACE, size);
    FoldItems(items);
    FoldUpto(Fold(items).value, 8);
  }

  // ----- the budget

  lemma {:induction false} RefItemsLength(refs: seq<Bytes4>)
    ensures |Flat(RefItems(refs))| == 6 * |refs|
  {
    if refs != [] {
      var init, it := refs[..|refs| - 1], Item(TAG_PEER_REF, refs[|refs| - 1]);
      RefItemsLength(init);
      FlatAppend(RefItems(init), [it]);
      FlatOne(it);
    }
  }

  function GroupCost(i: Interface, k: nat): nat
    requires 1 <= k <= 8
  {
    if k == 1 then 7 * |Only(i.addrs, true)|
    else if k == 2 then 19 * |Only(i.addrs, false)|
    else if k == 3 then (if i.mtu != 0 then 4 else 0)
    else if k == 4 then 6 * |OnlyAddrs(i.dns, true)|
    else if k == 5 then 18 * |OnlyAddrs(i.dns, false)|
    else if k == 6 then 6 * |i.peerRefs|
    else if k == 7 then (if i.listenPort != 0 then 4 else 0)
    else if i.hasMac then 34 else 0
  }

  lemma GroupLength(i: Interface, k: nat)
    requires Encodable(i) && 1 <= k <= 8
    ensures |Flat(Group(i, TagAt(k)))| == GroupCost(i, k)
  {
    if k == 1 || k == 2 {
      PrefixItemsLength(i.addrs, k == 1, TagAt(k));
    } else if k == 4 || k == 5 {
      AddrItemsLength(i.dns, k == 4, TagAt(k));
    } else if k == 6 {
      RefItemsLength(i.peerRefs);
    } else if Group(i, TagAt(k)) != [] {
      FlatOne(Group(i, TagAt(k))[0]);
    }
  }

  function CostUpto(i: Interface, k: nat): nat
    requires k <= 8
  {
    if k == 0 then 0 else CostUpto(i, k - 1) + GroupCost(i, k)
  }

  lemma {:induction false} UptoLength(i: Interface, k: nat)
    requires Encodable(i) && k <= 8
    ensures |Flat(Upto(i, k))| == CostUpto(i, k)
  {
    if k > 0 {
      UptoLength(i, k - 1);
      FlatAppend(Upto(i, k - 1), Group(i, TagAt(k)));
      GroupLength(i, k);
    }
  }

  /** Encoding succeeds exactly when every address is valid and the budget is kept. */
  lemma EncodeSucceeds(i: Interface, size: RecordSize)
    ensures Encode(i, size).Some? <==> Encodable(i) && Budget(i) <= size
  {
    if Encodable(i) {
      UptoLength(i, 8);
      assert CostUpto(i, 1) == GroupCost(i, 1) + CostUpto(i, 0);
      assert CostUpto(i, 2) == CostUpto(i, 1) + GroupCost(i, 2);
      assert CostUpto(i, 4) == CostUpto(i, 2) + GroupCost(i, 3) + GroupCost(i, 4);
      assert CostUpto(i, 6) == CostUpto(i, 4) + GroupCost(i, 5) + GroupCost(i, 6);
      assert CostUpto(i, 8) == CostUpto(i, 6) + GroupCost(i, 7) + GroupCost(i, 8);
    }
  }

  // ----- the MAC value

  /** The stream with the first MAC item's value blanked, as ZeroMAC leaves it. */
  function BlankFirstMac(items: seq<Item>): seq<Item> {
    if items == [] then []
    else if items[0].tag == TAG_MAC then [Item(TAG_MAC, Zeros(|items[0].value|))] + items[1..]
    else [items[0]] + BlankFirstMac(items[1..])
  }

  /** ZeroMAC: the record with the value bytes of its MAC tag replaced by zeros. */
  function ZeroMac(rec: bytes, size: RecordSize): Option<bytes> {
    match Parse(rec, MAGIC_INTERFACE, size)
    case None => None
    case Some(items) => Seal(MAGIC_INTERFACE, BlankFirstMac(items), size)
  }

  function Unsigned(i: Interface): Interface {
    i.(mac := Zeros(32))
  }

  lemma {:induction false} BlankLast(pre: seq<Item>, it: Item)
    requires forall x :: x in pre ==> x.tag != TAG_MAC
    ensures BlankFirstMac(pre) == pre
    ensures it.tag == TAG_MAC ==> BlankFirstMac(pre + [it]) == pre + [Item(TAG_MAC, Zeros(|it.value|))]
  {
    if pre == [] {
      assert pre + [it] == [it];
    } else {
      BlankLast(pre[1..], it);
      assert (pre + [it])[1..] == pre[1..] + [it];
    }
  }

  lemma {:induction false} UptoUnsigned(i: Interface, k: nat)
    requires Encodable(i) && k <= 7
    ensures Upto(Unsigned(i), k) == Upto(i, k)
  {
    if k > 0 {
      UptoUnsigned(i, k - 1);
    }
  }

  lemma LastGroup(i: Interface)
    requires Encodable(i)
    ensures ItemsOf(i) == if i.hasMac then Upto(i, 7) + [Item(TAG_MAC, i.mac)] else Upto(i, 7)
  {
    assert Upto(i, 7) + [] == Upto(i, 7);
  }

  lemma BlankItems(i: Interface)
    requires Encodable(i)
    ensures BlankFirstMac(ItemsOf(i)) == ItemsOf(Unsigned(i))
  {
    UptoUnsigned(i, 7);
    UptoAscending(i, 7);
    var pre := Upto(i, 7);
    BlankLast(pre, Item(TAG_MAC, i.mac));
    LastGroup(i);
    LastGroup(Unsigned(i));
  }

  /** Zeroing commutes with encoding: blanking a stored MAC gives the unsigned record's bytes. */
  lemma ZeroMacOfEncode(i: Interface, m: Bytes32, size: RecordSize)
    requires Encode(i, size).Some?
    ensures Encode(i.(mac := m), size).Some?
    ensures ZeroMac(Encode(i.(mac := m), size).value, size) == Encode(Unsigned(i), size)
    ensures Encode(Unsigned(i), size).Some?
  {
    var j := i.(mac := m);
    EncodeSucceeds(i, size);
    EncodeSucceeds(j, size);
    EncodeSucceeds(Unsigned(i), size);
    assert Unsigned(j) == Unsigned(i);
    UptoAscending(j, 8);
    ParseOfSeal(MAGIC_INTERFACE, ItemsOf(j), size);
    BlankItems(j);
  }

  /** On any accepted full-length record, ZeroMAC is decode, blank, encode. */
  lemma ZeroMacOfDecoded(rec: bytes, size: RecordSize)
    requires |rec| == size && Decode(rec, size).Some?
    ensures ZeroMac(rec, size) == Encode(Unsigned(Decode(rec, size).value), size)
    ensures ZeroMac(rec, size).Some?
  {
    var i := Decode(rec, size).value;
    EncodeOfDecode(rec, size);
    assert rec + Zeros(0) == rec;
    assert i.(mac := i.mac) == i;
    ZeroMacOfEncode(i, i.mac, size);
  }

  /** Two accepted records that differ at most in their MAC value, and only those, blank alike. */
  lemma ZeroMacInjective(r1: bytes, r2: bytes, size: RecordSize)
    requires |r1| == |r2| == size && Decode(r1, size).Some? && Decode(r2, size).Some?
    ensures ZeroMac(r1, size) == ZeroMac(r2, size)
       <==> Unsigned(Decode(r1, size).value) == Unsigned(Decode(r2, size).value)
  {
    var i1, i2 := Decode(r1, size).value, Decode(r2, size).value;
    ZeroMacOfDecoded(r1, size);
    ZeroMacOfDecoded(r2, size);
    DecodeOfEncode(Unsigned(i1), size);
    DecodeOfEncode(Unsigned(i2), size);
    DecodedIsCanon(r1, size);
    DecodedIsCanon(r2, size);
    assert Canon(Unsigned(i1)) == Unsigned(i1) && Canon(Unsigned(i2)) == Unsigned(i2);
  }
}
