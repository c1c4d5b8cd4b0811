/** Addresses and prefixes inside a record: one tag per family, IPv4 before IPv6. */
module Families {
  import opened Base
  import opened Net
  import opened Tlv

  predicate AllValid(ps: seq<Prefix>) {
    forall i :: 0 <= i < |ps| ==> ps[i].IsValid()
  }

  predicate AllAddrsValid(addrs: seq<Addr>) {
    forall i :: 0 <= i < |addrs| ==> addrs[i].IsValid()
  }

  /** The prefixes of one family, in their given order. */
  function Only(ps: seq<Prefix>, v4: bool): seq<Prefix> {
    if ps == [] then []
    else
      var rest, p := Only(ps[..|ps| - 1], v4), ps[|ps| - 1];
      if p.addr.V4? == v4 then rest + [p] else rest
  }

  /** The addresses of one family, in their given order, as a record can hold them. */
  function OnlyAddrs(addrs: seq<Addr>, v4: bool): seq<Addr> {
    if addrs == [] then []
    else
      var rest, a := OnlyAddrs(addrs[..|addrs| - 1], v4), addrs[|addrs| - 1];
      if a.V4? == v4 then rest + [a.WithoutZone()] else rest
  }

  /** What a list of prefixes becomes on its way through a record. */
  function Grouped(ps: seq<Prefix>): seq<Prefix> {
    Only(ps, true) + Only(ps, false)
  }

  function GroupedAddrs(addrs: seq<Addr>): seq<Addr> {
    OnlyAddrs(addrs, true) + OnlyAddrs(addrs, false)
  }

  function PrefixItem(tag: byte, p: Prefix): Item
    requires p.IsValid()
  {
    Item(tag, p.addr.Octets() + [p.bits])
  }

  function PrefixItems(ps: seq<Prefix>, v4: bool, tag: byte): (r: seq<Item>)
    requires AllValid(ps)
    ensures forall i :: 0 <= i < |r| ==> r[i].tag == tag
  {
    if ps == [] then []
    else
      var rest, p := PrefixItems(ps[..|ps| - 1], v4, tag), ps[|ps| - 1];
      if p.addr.V4? == v4 then rest + [PrefixItem(tag, p)] else rest
  }

  function AddrItems(addrs: seq<Addr>, v4: bool, tag: byte): (r: seq<Item>)
    requires AllAddrsValid(addrs)
    ensures forall i :: 0 <= i < |r| ==> r[i].tag == tag
  {
    if addrs == [] then []
    else
      var rest, a := AddrItems(addrs[..|addrs| - 1], v4, tag), addrs[|addrs| - 1];
      if a.V4? == v4 then rest + [Item(tag, a.Octets())] else rest
  }

  lemma AddrItemsTake(addrs: seq<Addr>, i: nat, v4: bool, tag: byte)
    requires i < |addrs| && AllAddrsValid(addrs[..i]) && addrs[i].IsValid()
    ensures AllAddrsValid(addrs[..i + 1])
    ensures AddrItems(addrs[..i + 1], v4, tag) ==
            AddrItems(addrs[..i], v4, tag) + if addrs[i].V4? == v4 then [Item(tag, addrs[i].Octets())] else []
  {
    var more := addrs[..i + 1];
    assert more == addrs[..i] + [addrs[i]];
    assert more[..|more| - 1] == addrs[..i];
  }

  /** prefixFrom together with the length check that guards it. */
  function PrefixFrom(value: bytes, addrLen: nat): (r: Option<Prefix>)
    requires addrLen == 4 || addrLen == 16
    ensures r.Some? ==> r.value.IsValid() && (r.value.addr.V4? <==> addrLen == 4)
    ensures r.Some? ==> value == r.value.addr.Octets() + [r.value.bits]
  {
    if |value| != addrLen + 1 then None
    else
      var p := Prefix(AddrFrom(value[..addrLen]), value[addrLen]);
      if p.IsValid() then Some(p) else None
  }

  lemma PrefixFromItem(tag: byte, p: Prefix)
    requires p.IsValid()
    ensures PrefixFrom(PrefixItem(tag, p).value, if p.addr.V4? then 4 else 16) == Some(p)
  {
    var n := if p.addr.V4? then 4 else 16;
    assert (p.addr.Octets() + [p.bits])[..n] == p.addr.Octets();
  }

  /** Bytes spent per prefix and per address, tag and length included. */
  lemma {:induction false} PrefixItemsLength(ps: seq<Prefix>, v4: bool, tag: byte)
    requires AllValid(ps)
    ensures |Flat(PrefixItems(ps, v4, tag))| == |Only(ps, v4)| * (if v4 then 7 else 19)
  {
    if ps != [] {
      var n := |ps| - 1;
      PrefixItemsLength(ps[..n], v4, tag);
      if ps[n].addr.V4? == v4 {
        FlatAppend(PrefixItems(ps[..n], v4, tag), [PrefixItem(tag, ps[n])]);
        FlatOne(PrefixItem(tag, ps[n]));
      }
    }
  }

  lemma {:induction false} AddrItemsLength(addrs: seq<Addr>, v4: bool, tag: byte)
    requires AllAddrsValid(addrs)
    ensures |Flat(AddrItems(addrs, v4, tag))| == |OnlyAddrs(addrs, v4)| * (if v4 then 6 else 18)
  {
    if addrs != [] {
      var n := |addrs| - 1;
      AddrItemsLength(addrs[..n], v4, tag);
      if addrs[n].V4? == v4 {
        FlatAppend(AddrItems(addrs[..n], v4, tag), [Item(tag, addrs[n].Octets())]);
        FlatOne(Item(tag, addrs[n].Octets()));
      }
    }
  }
}
