/** The tag-length-value stream of a record: its bytes, its parser, and why the two agree. */
module Tlv {
  import opened Base

  /** The two record lengths the firmware has ever had. */
  type RecordSize = n: nat | n == 64 || n == 128 witness 128

  const VERSION: byte := 0x02
  const MAGIC_LEN := 6
  const HEADER_LEN := 7

  const MAGIC_INTERFACE: bytes := [0x57, 0x47, 0x3A, 0x69, 0x66, 0x3A]  // "WG:if:"
  const MAGIC_PEER: bytes := [0x57, 0x47, 0x3A, 0x70, 0x72, 0x3A]       // "WG:pr:"

  type Value = s: bytes | |s| < 256

  datatype Item = Item(tag: byte, value: Value)

  function Wire(it: Item): (b: bytes)
    ensures |b| == 2 + |it.value|
  {
    [it.tag, |it.value|] + it.value
  }

  function Flat(items: seq<Item>): bytes {
    if items == [] then [] else Wire(items[0]) + Flat(items[1..])
  }

  /** What finish produces: header, items, zero padding up to the fixed length. */
  function Seal(magic: bytes, items: seq<Item>, size: RecordSize): (r: Option<bytes>)
    requires |magic| == MAGIC_LEN
    ensures r.Some? <==> HEADER_LEN + |Flat(items)| <= size
    ensures r.Some? ==> |r.value| == size
  {
    var body := magic + [VERSION] + Flat(items);
    if |body| > size then None else Some(body + Zeros(size - |body|))
  }

  /** Normalize: a stored record widened to the fixed length. */
  function Normalize(b: bytes, size: RecordSize): (r: Option<bytes>)
    ensures r.Some? <==> HEADER_LEN <= |b| <= size
    ensures r.Some? ==> |r.value| == size && b <= r.value && AllZero(r.value[|b|..])
  {
    if |b| > size || |b| < HEADER_LEN then None else Some(b + Zeros(size - |b|))
  }

  /** The item stream that a strict reader finds in `s`, given the previous tag. */
  function ParseItems(s: bytes, last: byte): Option<seq<Item>>
    decreases |s|
  {
    if s == [] then Some([])
    else if s[0] == 0 then (if AllZero(s) then Some([]) else None)
    else if s[0] < last || |s| < 2 || 2 + s[1] > |s| then None
    else
      match ParseItems(s[2 + s[1]..], s[0])
      case None => None
      case Some(rest) => Some([Item(s[0], s[2..2 + s[1]])] + rest)
  }

  function Parse(b: bytes, magic: bytes, size: RecordSize): Option<seq<Item>>
    requires |magic| == MAGIC_LEN
  {
    if |b| < HEADER_LEN || |b| > size || b[..MAGIC_LEN] != magic || b[MAGIC_LEN] != VERSION
    then None
    else ParseItems(b[HEADER_LEN..], 0)
  }

  /** No terminator among the tags, and each at least its predecessor. */
  predicate Ascending(items: seq<Item>, last: byte) {
    && (forall i :: 0 <= i < |items| ==> items[i].tag != 0 && last <= items[i].tag)
    && (forall i, j :: 0 <= i < j < |items| ==> items[i].tag <= items[j].tag)
  }

  lemma {:induction false} FlatAppend(a: seq<Item>, b: seq<Item>)
    ensures Flat(a + b) == Flat(a) + Flat(b)
  {
    if a == [] {
      assert a + b == b;
    } else {
      FlatAppend(a[1..], b);
      assert (a + b)[1..] == a[1..] + b;
    }
  }

  lemma FlatOne(it: Item)
    ensures Flat([it]) == Wire(it)
  {
    assert [it][1..] == [];
  }

  lemma FlatCons(it: Item, rest: seq<Item>)
    ensures Flat([it] + rest) == Wire(it) + Flat(rest)
  {
    assert ([it] + rest)[1..] == rest;
  }

  /** Reading back a well-formed stream, padded or exactly full, gives the stream. */
  lemma WireThen(it: Item, rest: bytes)
    ensures var s := Wire(it) + rest;
            && s[0] == it.tag && s[1] == |it.value| && s[2..2 + s[1]] == it.value
            && s[2 + s[1]..] == rest
  {}

  lemma {:induction false} ParseOfFlat(items: seq<Item>, pad: nat, last: byte)
    requires Ascending(items, last)
    ensures ParseItems(Flat(items) + Zeros(pad), last) == Some(items)
    decreases |items|
  {
    var s := Flat(items) + Zeros(pad);
    if items != [] {
      var it, rest := items[0], items[1..];
      ParseOfFlat(rest, pad, it.tag);
      assert s == Wire(it) + (Flat(rest) + Zeros(pad));
      WireThen(it, Flat(rest) + Zeros(pad));
      assert items == [it] + rest;
    }
  }

  /** `s` is the bytes `f` followed by nothing but padding. */
  predicate Padded(s: bytes, f: bytes) {
    f <= s && AllZero(s[|f|..])
  }

  lemma PaddedUnder(s: bytes, w: bytes, f: bytes)
    requires w <= s && Padded(s[|w|..], f)
    ensures Padded(s, w + f)
  {
    assert s[|w + f|..] == s[|w|..][|f|..];
  }

  lemma AscendingCons(it: Item, rest: seq<Item>, last: byte)
    requires it.tag != 0 && last <= it.tag && Ascending(rest, it.tag)
    ensures Ascending([it] + rest, last)
  {}

  lemma PaddedCons(s: bytes, it: Item, rest: seq<Item>)
    requires Wire(it) <= s && Padded(s[2 + |it.value|..], Flat(rest))
    ensures Padded(s, Flat([it] + rest))
  {
    FlatCons(it, rest);
    PaddedUnder(s, Wire(it), Flat(rest));
  }

  lemma FirstItem(s: bytes, last: byte) returns (it: Item, rest: seq<Item>)
    requires s != [] && s[0] != 0 && ParseItems(s, last).Some?
    ensures it.tag != 0 && last <= it.tag && Wire(it) <= s
    ensures ParseItems(s[2 + |it.value|..], it.tag) == Some(rest)
    ensures ParseItems(s, last) == Some([it] + rest)
  {
    var n: nat := s[1];
    it, rest := Item(s[0], s[2..2 + n]), ParseItems(s[2 + n..], s[0]).value;
    assert Wire(it) == s[..2 + n];
  }

  /** Whatever is accepted is exactly the stream it was read as, followed by zeros. */
  lemma {:induction false} FlatOfParse(s: bytes, last: byte)
    requires ParseItems(s, last).Some?
    ensures var items := ParseItems(s, last).value;
            Ascending(items, last) && Padded(s, Flat(items))
    decreases |s|
  {
    if s != [] && s[0] != 0 {
      var it, rest := FirstItem(s, last);
      FlatOfParse(s[2 + |it.value|..], it.tag);
      PaddedCons(s, it, rest);
      AscendingCons(it, rest, last);
    } else {
      assert s[0..] == s;
    }
  }

  lemma ParseOfSeal(magic: bytes, items: seq<Item>, size: RecordSize)
    requires |magic| == MAGIC_LEN && Ascending(items, 0)
    requires Seal(magic, items, size).Some?
    ensures Parse(Seal(magic, items, size).value, magic, size) == Some(items)
  {
    var r := Seal(magic, items, size).value;
    assert r[..MAGIC_LEN] == magic && r[MAGIC_LEN] == VERSION;
    assert r[HEADER_LEN..] == Flat(items) + Zeros(size - HEADER_LEN - |Flat(items)|);
    ParseOfFlat(items, size - HEADER_LEN - |Flat(items)|, 0);
  }

  /** One item stream, one record: sealing what was read gives the normalized bytes. */
  lemma SealOfParse(b: bytes, magic: bytes, size: RecordSize)
    requires |magic| == MAGIC_LEN && Parse(b, magic, size).Some?
    ensures var items := Parse(b, magic, size).value;
            Ascending(items, 0) && Seal(magic, items, size) == Normalize(b, size)
  {
    FlatOfParse(b[HEADER_LEN..], 0);
    var head, flat := magic + [VERSION], Flat(Parse(b, magic, size).value);
    assert head == b[..HEADER_LEN];
    PaddedUnder(b, head, flat);
    PadUnique(b, head + flat, size);
  }

  lemma PadUnique(b: bytes, f: bytes, size: nat)
    requires Padded(b, f) && |b| <= size
    ensures f + Zeros(size - |f|) == b + Zeros(size - |b|)
  {
    var l, r := f + Zeros(size - |f|), b + Zeros(size - |b|);
    forall i | 0 <= i < |l| ensures l[i] == r[i] {
      if |f| <= i < |b| {
        assert b[i] == b[|f|..][i - |f|];
      }
    }
  }
}
