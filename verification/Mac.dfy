/** The canonical message that one MAC covers: what it accepts, and that it forgets nothing. */
module Mac {
  import opened Base
  import opened Tlv
  import opened Kid
  import I = InterfaceRecord
  import Codec

  const DOMAIN: bytes :=
    [0x45, 0x4E, 0x43, 0x2D, 0x57, 0x47, 0x2D, 0x4D, 0x41, 0x43, 0x2D, 0x76, 0x32]  // "ENC-WG-MAC-v2"

  const DEVICE_MSG_LIMIT := 2048

  function PerPeer(size: RecordSize): nat { 32 + size }

  function FixedLen(size: RecordSize): nat { |DOMAIN| + 32 + size }

  function MaxPeers(size: RecordSize): nat {
    (DEVICE_MSG_LIMIT - FixedLen(size)) / PerPeer(size)
  }

  /** A peer's key and its stored record, both exactly as the device holds them. */
  datatype Record = Record(pub: Bytes32, descr: bytes)

  predicate FullLength(peers: seq<Record>, size: RecordSize) {
    forall i :: 0 <= i < |peers| ==> |peers[i].descr| == size
  }

  function DerivedRefs(c: Crypto, peers: seq<Record>): seq<Bytes4> {
    Map((p: Record) => MakeRef(c, p.pub), peers)
  }

  /** The peers are exactly the ones named: references distinct, and the same ones. */
  ghost predicate RefsMatch(c: Crypto, refs: seq<Bytes4>, peers: seq<Record>) {
    Distinct(DerivedRefs(c, peers)) && multiset(refs) == multiset(DerivedRefs(c, peers))
  }

  /** bytes.Compare(a, b) < 0 */
  predicate Less(a: bytes, b: bytes) {
    if b == [] then false
    else if a == [] then true
    else if a[0] != b[0] then a[0] < b[0]
    else Less(a[1..], b[1..])
  }

  function Insert(p: Record, s: seq<Record>): seq<Record> {
    if s == [] || Less(p.pub, s[0].pub) then [p] + s else [s[0]] + Insert(p, s[1..])
  }

  /** The library sort by public key; with distinct keys there is only one answer to give. */
  function Sort(peers: seq<Record>): seq<Record> {
    if peers == [] then [] else Insert(peers[0], Sort(peers[1..]))
  }

  function Blocks(peers: seq<Record>): bytes {
    if peers == [] then [] else peers[0].pub + peers[0].descr + Blocks(peers[1..])
  }

  ghost function Canonical(c: Crypto, ifPub: Bytes32, ifDescr: bytes, peers: seq<Record>,
      size: RecordSize): Option<bytes> {
    match I.Decode(ifDescr, size)
    case None => None
    case Some(rec) =>
      if !RefsMatch(c, rec.peerRefs, peers) || |peers| > MaxPeers(size) then None
      else
        match I.ZeroMac(ifDescr, size)
        case None => None
        case Some(zeroed) => Some(DOMAIN + ifPub + zeroed + Blocks(Sort(peers)))
  }

  // ----- the order on keys

  lemma {:induction false} LessTotal(a: bytes, b: bytes)
    requires |a| == |b| && a != b
    ensures Less(a, b) != Less(b, a)
  {
    if a[0] == b[0] {
      assert a == [a[0]] + a[1..] && b == [b[0]] + b[1..];
      LessTotal(a[1..], b[1..]);
    }
  }

  lemma {:induction false} LessIrreflexive(a: bytes)
    ensures !Less(a, a)
  {
    if a != [] {
      LessIrreflexive(a[1..]);
    }
  }

  lemma {:induction false} LessTransitive(a: bytes, b: bytes, d: bytes)
    requires Less(a, b) && Less(b, d)
    ensures Less(a, d)
  {
    if a != [] && a[0] == b[0] == d[0] {
      LessTransitive(a[1..], b[1..], d[1..]);
    }
  }

  /** Whatever comes before the first difference, the larger byte there decides. */
  lemma {:induction false} LessAtFirstDifference(a: bytes, b: bytes, n: nat)
    requires n < |a| && n < |b| && a[..n] == b[..n] && a[n] != b[n]
    ensures Less(a, b) <==> a[n] < b[n]
  {
    if n > 0 {
      assert a[0] == a[..n][0] && b[0] == b[..n][0];
      assert a[1..][..n - 1] == a[..n][1..] && b[1..][..n - 1] == b[..n][1..];
      LessAtFirstDifference(a[1..], b[1..], n - 1);
    }
  }

  /** At their first difference, byte `n`, `a` has the smaller one. */
  ghost predicate SmallerAt(a: bytes, b: bytes, n: nat) {
    n < |a| && n < |b| && a[..n] == b[..n] && a[n] < b[n]
  }

  ghost predicate Precedes(a: bytes, b: bytes) {
    exists n: nat :: SmallerAt(a, b, n)
  }

  lemma {:induction false} LessDiffers(a: bytes, b: bytes) returns (n: nat)
    requires |a| == |b| && Less(a, b)
    ensures SmallerAt(a, b, n)
  {
    if a[0] != b[0] {
      n := 0;
      LessAtFirstDifference(a, b, 0);
    } else {
      n := LessDiffers(a[1..], b[1..]);
      assert a == [a[0]] + a[1..] && b == [b[0]] + b[1..];
      assert a[..n + 1] == [a[0]] + a[1..][..n] && b[..n + 1] == [b[0]] + b[1..][..n];
      n := n + 1;
    }
  }

  // ----- sorting

  predicate Sorted(s: seq<Record>) {
    forall i, j :: 0 <= i < j < |s| ==> Less(s[i].pub, s[j].pub)
  }

  predicate DistinctKeys(s: seq<Record>) {
    forall i, j :: 0 <= i < j < |s| ==> s[i].pub != s[j].pub
  }

  lemma {:induction false} InsertSpec(p: Record, s: seq<Record>)
    ensures multiset(Insert(p, s)) == multiset(s) + multiset{p}
  {
    if s != [] && !Less(p.pub, s[0].pub) {
      InsertSpec(p, s[1..]);
      assert s == [s[0]] + s[1..];
    }
  }

  lemma {:induction false} InsertSorted(p: Record, s: seq<Record>)
    requires Sorted(s) && forall i :: 0 <= i < |s| ==> s[i].pub != p.pub
    ensures Sorted(Insert(p, s))
  {
    if s == [] {
    } else if Less(p.pub, s[0].pub) {
      forall j | 1 <= j < |s| ensures Less(p.pub, s[j].pub) {
        LessTransitive(p.pub, s[0].pub, s[j].pub);
      }
    } else {
      var r := Insert(p, s[1..]);
      InsertSorted(p, s[1..]);
      InsertSpec(p, s[1..]);
      LessTotal(p.pub, s[0].pub);
      forall j | 0 <= j < |r| ensures Less(s[0].pub, r[j].pub) {
        assert r[j] in multiset(r);
        assert r[j] == p || r[j] in s[1..];
      }
    }
  }

  lemma {:induction false} SortPermutes(peers: seq<Record>)
    ensures multiset(Sort(peers)) == multiset(peers)
  {
    if peers != [] {
      SortPermutes(peers[1..]);
      InsertSpec(peers[0], Sort(peers[1..]));
      assert peers == [peers[0]] + peers[1..];
    }
  }

  lemma {:induction false} SortSorts(peers: seq<Record>)
    requires DistinctKeys(peers)
    ensures Sorted(Sort(peers))
  {
    if peers != [] {
      SortSorts(peers[1..]);
      SortPermutes(peers[1..]);
      var s := Sort(peers[1..]);
      forall i | 0 <= i < |s| ensures s[i].pub != peers[0].pub {
        assert s[i] in multiset(s);
        assert s[i] in peers[1..];
      }
      InsertSorted(peers[0], s);
    }
  }

  lemma {:induction false} SortedUnique(a: seq<Record>, b: seq<Record>)
    requires Sorted(a) && Sorted(b) && multiset(a) == multiset(b)
    ensures a == b
  {
    if a == [] {
      assert |multiset(b)| == |b|;
    } else {
      SameLeast(a, b);
      assert a == [a[0]] + a[1..] && b == [b[0]] + b[1..];
      assert multiset(a[1..]) == multiset(a) - multiset{a[0]};
      SortedUnique(a[1..], b[1..]);
    }
  }

  lemma SameLeast(a: seq<Record>, b: seq<Record>)
    requires Sorted(a) && Sorted(b) && multiset(a) == multiset(b) && a != []
    ensures b != [] && a[0] == b[0]
  {
    assert a[0] in multiset(b);
    var i :| 0 <= i < |b| && b[i] == a[0];
    assert b[0] in multiset(a);
    var j :| 0 <= j < |a| && a[j] == b[0];
    if i > 0 {
      assert Less(b[0].pub, a[0].pub);
      LessIrreflexive(a[0].pub);
      LessIrreflexive(b[0].pub);
      if j > 0 {
        LessTransitive(a[0].pub, b[0].pub, a[0].pub);
      }
    }
  }

  // ----- blocks

  lemma {:induction false} BlocksLength(peers: seq<Record>, size: RecordSize)
    requires FullLength(peers, size)
    ensures |Blocks(peers)| == |peers| * PerPeer(size)
  {
    if peers != [] {
      BlocksLength(peers[1..], size);
    }
  }

  lemma {:induction false} BlocksInjective(a: seq<Record>, b: seq<Record>, size: RecordSize)
    requires FullLength(a, size) && FullLength(b, size) && Blocks(a) == Blocks(b)
    ensures a == b
  {
    if a != [] && b != [] {
      var x, y := Blocks(a), Blocks(b);
      assert x[..32] == a[0].pub && y[..32] == b[0].pub;
      assert x[32..32 + size] == a[0].descr && y[32..32 + size] == b[0].descr;
      assert x[32 + size..] == Blocks(a[1..]) && y[32 + size..] == Blocks(b[1..]);
      BlocksInjective(a[1..], b[1..], size);
      assert a == [a[0]] + a[1..] && b == [b[0]] + b[1..];
    }
  }

  // ----- what Canonical accepts

  lemma MatchedKeysDistinct(c: Crypto, refs: seq<Bytes4>, peers: seq<Record>)
    requires RefsMatch(c, refs, peers)
    ensures DistinctKeys(peers) && |refs| == |peers| && Distinct(refs)
  {
    var d := DerivedRefs(c, peers);
    PermutationOfDistinct(d, refs);
    forall i, j | 0 <= i < j < |peers| ensures peers[i].pub != peers[j].pub {
      assert d[i] != d[j];
    }
  }

  /** Acceptance, in full: distinct references, the record's a permutation of them, few enough. */
  lemma CanonicalAccepts(c: Crypto, ifPub: Bytes32, ifDescr: bytes, peers: seq<Record>, size: RecordSize)
    requires |ifDescr| == size
    ensures Canonical(c, ifPub, ifDescr, peers, size).Some?
       <==> && I.Decode(ifDescr, size).Some?
            && Distinct(DerivedRefs(c, peers))
            && multiset(I.Decode(ifDescr, size).value.peerRefs) == multiset(DerivedRefs(c, peers))
            && |peers| <= MaxPeers(size)
  {
    if I.Decode(ifDescr, size).Some? {
      I.ZeroMacOfDecoded(ifDescr, size);
    }
  }

  /** The message length in closed form; one more peer than MaxPeers would not fit the device. */
  lemma CanonicalFits(c: Crypto, ifPub: Bytes32, ifDescr: bytes, peers: seq<Record>, size: RecordSize)
    requires |ifDescr| == size && FullLength(peers, size)
    requires Canonical(c, ifPub, ifDescr, peers, size).Some?
    ensures |Canonical(c, ifPub, ifDescr, peers, size).value| == FixedLen(size) + |peers| * PerPeer(size)
    ensures FixedLen(size) + |peers| * PerPeer(size) <= DEVICE_MSG_LIMIT
    ensures FixedLen(size) + (MaxPeers(size) + 1) * PerPeer(size) > DEVICE_MSG_LIMIT
  {
    SortedFull(peers, size);
    BlocksLength(Sort(peers), size);
    assert MaxPeers(size) == if size == 128 then 11 else 20;
    assert |peers| * PerPeer(size) <= MaxPeers(size) * PerPeer(size);
  }

  lemma SortedFull(peers: seq<Record>, size: RecordSize)
    requires FullLength(peers, size)
    ensures FullLength(Sort(peers), size) && |Sort(peers)| == |peers|
  {
    var s := Sort(peers);
    SortPermutes(peers);
    assert |multiset(s)| == |s| && |multiset(peers)| == |peers|;
    forall i | 0 <= i < |s| ensures |s[i].descr| == size {
      assert s[i] in multiset(s);
      assert s[i] in peers;
    }
  }

  lemma DerivedRefsPermute(c: Crypto, a: seq<Record>, b: seq<Record>)
    requires multiset(a) == multiset(b) && Distinct(DerivedRefs(c, a))
    ensures Distinct(DerivedRefs(c, b)) && multiset(DerivedRefs(c, a)) == multiset(DerivedRefs(c, b))
  {
    var da, db := DerivedRefs(c, a), DerivedRefs(c, b);
    forall i, j | 0 <= i < j < |a| ensures a[i] != a[j] {
      assert da[i] != da[j];
    }
    PermutationOfDistinct(a, b);
    forall i, j | 0 <= i < j < |b| ensures db[i] != db[j] {
      assert b[i] in a && b[j] in a;
      var k :| 0 <= k < |a| && a[k] == b[i];
      var l :| 0 <= l < |a| && a[l] == b[j];
      assert da[k] == db[i] && da[l] == db[j];
    }
    forall x ensures x in da <==> x in db {
      if x in da {
        var k :| 0 <= k < |a| && da[k] == x;
        assert a[k] in b;
        var l :| 0 <= l < |b| && b[l] == a[k];
        assert db[l] == x;
      }
      if x in db {
        var k :| 0 <= k < |b| && db[k] == x;
        assert b[k] in a;
        var l :| 0 <= l < |a| && a[l] == b[k];
        assert da[l] == x;
      }
    }
    DistinctMultiset(da, db);
  }

  /** The order in which peers are supplied leaves no trace in the message. */
  lemma CanonicalOrderFree(c: Crypto, ifPub: Bytes32, ifDescr: bytes, a: seq<Record>, b: seq<Record>, size: RecordSize)
    requires multiset(a) == multiset(b)
    requires Canonical(c, ifPub, ifDescr, a, size).Some?
    ensures Canonical(c, ifPub, ifDescr, b, size) == Canonical(c, ifPub, ifDescr, a, size)
  {
    DerivedRefsPermute(c, a, b);
    assert |multiset(a)| == |a| && |multiset(b)| == |b|;
    var refs := I.Decode(ifDescr, size).value.peerRefs;
    MatchedKeysDistinct(c, refs, a);
    MatchedKeysDistinct(c, refs, b);
    SortSorts(a);
    SortSorts(b);
    SortPermutes(a);
    SortPermutes(b);
    SortedUnique(Sort(a), Sort(b));
  }

  // ----- the message, byte by byte

  /** The message as it lies in memory: the domain, the interface key and its record, and then each peer's key
      followed by its record, every key below the next one at the first byte in which they differ. */
  ghost predicate LaidOut(msg: bytes, ifPub: Bytes32, zeroed: bytes, s: seq<Record>, size: RecordSize) {
    && |zeroed| == size && FullLength(s, size) && |msg| == 45 + size + |s| * (32 + size)
    && (forall k :: 0 <= k < 13 ==> msg[k] == "ENC-WG-MAC-v2"[k] as int)
    && msg[13..45] == ifPub && msg[45..45 + size] == zeroed
    && (forall i :: 0 <= i < |s| ==> BlockAt(msg, 45 + size + i * (32 + size), s[i]))
    && (forall i, j :: 0 <= i < j < |s| ==> Precedes(s[i].pub, s[j].pub))
  }

  predicate BlockAt(msg: bytes, at: int, p: Record) {
    && 0 <= at && at + 32 + |p.descr| <= |msg|
    && msg[at..at + 32] == p.pub && msg[at + 32..at + 32 + |p.descr|] == p.descr
  }

  lemma {:induction false} BlockInBlocks(peers: seq<Record>, i: nat, size: RecordSize)
    requires FullLength(peers, size) && i < |peers|
    ensures BlockAt(Blocks(peers), i * (32 + size), peers[i])
  {
    BlocksLength(peers, size);
    var b, rest := Blocks(peers), Blocks(peers[1..]);
    if i > 0 {
      BlockInBlocks(peers[1..], i - 1, size);
      BlockBehind(peers[0].pub + peers[0].descr, rest, (i - 1) * (32 + size), peers[i]);
    }
  }

  lemma BlockBehind(head: bytes, msg: bytes, at: nat, p: Record)
    requires BlockAt(msg, at, p)
    ensures BlockAt(head + msg, |head| + at, p)
  {
    var m := head + msg;
    assert m[|head| + at..|head| + at + 32] == msg[at..at + 32];
    assert m[|head| + at + 32..|head| + at + 32 + |p.descr|] == msg[at + 32..at + 32 + |p.descr|];
  }

  lemma BlocksLaidOut(head: bytes, s: seq<Record>, size: RecordSize)
    requires FullLength(s, size)
    ensures |head + Blocks(s)| == |head| + |s| * (32 + size)
    ensures forall i :: 0 <= i < |s| ==> BlockAt(head + Blocks(s), |head| + i * (32 + size), s[i])
  {
    BlocksLength(s, size);
    forall i | 0 <= i < |s| ensures BlockAt(head + Blocks(s), |head| + i * (32 + size), s[i]) {
      BlockInBlocks(s, i, size);
      BlockBehind(head, Blocks(s), i * (32 + size), s[i]);
    }
  }

  lemma SortedApart(s: seq<Record>)
    requires Sorted(s)
    ensures forall i, j :: 0 <= i < j < |s| ==> Precedes(s[i].pub, s[j].pub)
  {
    forall i, j | 0 <= i < j < |s| ensures Precedes(s[i].pub, s[j].pub) {
      var n := LessDiffers(s[i].pub, s[j].pub);
    }
  }

  lemma SortedIsLaidOut(ifPub: Bytes32, zeroed: bytes, s: seq<Record>, size: RecordSize)
    requires |zeroed| == size && FullLength(s, size) && Sorted(s)
    ensures LaidOut(DOMAIN + ifPub + zeroed + Blocks(s), ifPub, zeroed, s, size)
  {
    MessageParts(ifPub, zeroed, Blocks(s));
    BlocksLaidOut(DOMAIN + ifPub + zeroed, s, size);
    SortedApart(s);
  }

  /** What a message says, told without sorting anything: the record with its MAC blanked, and the same peers
      in ascending order. */
  ghost predicate Spells(msg: bytes, ifPub: Bytes32, ifDescr: bytes, peers: seq<Record>, size: RecordSize) {
    && I.Decode(ifDescr, size).Some?
    && var unsigned := I.Encode(I.Unsigned(I.Decode(ifDescr, size).value), size);
       && unsigned.Some?
       && exists s :: multiset(s) == multiset(peers) && LaidOut(msg, ifPub, unsigned.value, s, size)
  }

  /** The accepted message described without the sort. */
  lemma CanonicalLayout(c: Crypto, ifPub: Bytes32, ifDescr: bytes, peers: seq<Record>, size: RecordSize)
    requires |ifDescr| == size && FullLength(peers, size)
    requires Canonical(c, ifPub, ifDescr, peers, size).Some?
    ensures Spells(Canonical(c, ifPub, ifDescr, peers, size).value, ifPub, ifDescr, peers, size)
  {
    I.ZeroMacOfDecoded(ifDescr, size);
    MatchedKeysDistinct(c, I.Decode(ifDescr, size).value.peerRefs, peers);
    var s := Sort(peers);
    SortPermutes(peers);
    SortSorts(peers);
    SortedFull(peers, size);
    SortedIsLaidOut(ifPub, I.ZeroMac(ifDescr, size).value, s, size);
  }

  // ----- that the message forgets nothing

  lemma MessageParts(pub: bytes, zeroed: bytes, rest: bytes)
    ensures var m := DOMAIN + pub + zeroed + rest;
            && m[13..13 + |pub|] == pub
            && m[13 + |pub|..13 + |pub| + |zeroed|] == zeroed
            && m[13 + |pub| + |zeroed|..] == rest
  {}

  /** Equal messages mean the same key, the same record up to the MAC value, the same peers. */
  lemma CanonicalInjective(c: Crypto, pub1: Bytes32, d1: bytes, a: seq<Record>,
                           pub2: Bytes32, d2: bytes, b: seq<Record>, size: RecordSize)
    requires |d1| == |d2| == size && FullLength(a, size) && FullLength(b, size)
    requires Canonical(c, pub1, d1, a, size).Some?
    requires Canonical(c, pub1, d1, a, size) == Canonical(c, pub2, d2, b, size)
    ensures pub1 == pub2
    ensures I.Unsigned(I.Decode(d1, size).value) == I.Unsigned(I.Decode(d2, size).value)
    ensures multiset(a) == multiset(b)
  {
    I.ZeroMacOfDecoded(d1, size);
    I.ZeroMacOfDecoded(d2, size);
    var z1, z2 := I.ZeroMac(d1, size).value, I.ZeroMac(d2, size).value;
    MessageParts(pub1, z1, Blocks(Sort(a)));
    MessageParts(pub2, z2, Blocks(Sort(b)));
    I.ZeroMacInjective(d1, d2, size);
    SortedFull(a, size);
    SortedFull(b, size);
    BlocksInjective(Sort(a), Sort(b), size);
    SortPermutes(a);
    SortPermutes(b);
  }

  /** The peers listed in the order the record refers to them: the failover order. */
  predicate InOrder(c: Crypto, refs: seq<Bytes4>, peers: seq<Record>) {
    DerivedRefs(c, peers) == refs
  }

  lemma OrderUnique(c: Crypto, refs: seq<Bytes4>, a: seq<Record>, b: seq<Record>)
    requires multiset(a) == multiset(b) && Distinct(refs)
    requires InOrder(c, refs, a) && InOrder(c, refs, b)
    ensures a == b
  {
    forall i | 0 <= i < |refs| ensures a[i] == b[i] {
      assert a[i] in multiset(b);
      var j :| 0 <= j < |b| && b[j] == a[i];
      assert refs[j] == MakeRef(c, b[j].pub) == MakeRef(c, a[i].pub) == refs[i];
    }
  }

  /** With both lists in failover order, equal messages mean equal lists. */
  lemma CanonicalFixesFailover(c: Crypto, pub1: Bytes32, d1: bytes, a: seq<Record>,
                               pub2: Bytes32, d2: bytes, b: seq<Record>, size: RecordSize)
    requires |d1| == |d2| == size && FullLength(a, size) && FullLength(b, size)
    requires Canonical(c, pub1, d1, a, size).Some?
    requires Canonical(c, pub1, d1, a, size) == Canonical(c, pub2, d2, b, size)
    requires InOrder(c, I.Decode(d1, size).value.peerRefs, a)
    requires InOrder(c, I.Decode(d2, size).value.peerRefs, b)
    ensures a == b
  {
    CanonicalInjective(c, pub1, d1, a, pub2, d2, b, size);
    var i1, i2 := I.Decode(d1, size).value, I.Decode(d2, size).value;
    assert i1.peerRefs == I.Unsigned(i1).peerRefs == i2.peerRefs;
    MatchedKeysDistinct(c, i1.peerRefs, a);
    OrderUnique(c, i1.peerRefs, a, b);
  }

  /** A message over a record without the MAC tag is never one over a record with it. */
  lemma TaglessNeverCoincides(c: Crypto, pub1: Bytes32, d1: bytes, a: seq<Record>,
                              pub2: Bytes32, d2: bytes, b: seq<Record>, size: RecordSize)
    requires |d1| == |d2| == size && FullLength(a, size) && FullLength(b, size)
    requires I.Decode(d1, size).Some? && I.Decode(d2, size).Some?
    requires I.Decode(d1, size).value.hasMac != I.Decode(d2, size).value.hasMac
    requires Canonical(c, pub1, d1, a, size).Some?
    ensures Canonical(c, pub1, d1, a, size) != Canonical(c, pub2, d2, b, size)
  {
    var i1, i2 := I.Decode(d1, size).value, I.Decode(d2, size).value;
    assert I.Unsigned(i1).hasMac != I.Unsigned(i2).hasMac;
    if Canonical(c, pub1, d1, a, size) == Canonical(c, pub2, d2, b, size) {
      CanonicalInjective(c, pub1, d1, a, pub2, d2, b, size);
    }
  }

  /** What is signed before the MAC is known is what is verified after it is stored. */
  lemma SignedIsVerified(c: Crypto, ifPub: Bytes32, i: I.Interface, m: Bytes32, peers: seq<Record>, size: RecordSize)
    requires I.Encode(I.Unsigned(i), size).Some?
    ensures I.Encode(i.(mac := m), size).Some?
    ensures Canonical(c, ifPub, I.Encode(I.Unsigned(i), size).value, peers, size)
         == Canonical(c, ifPub, I.Encode(i.(mac := m), size).value, peers, size)
  {
    var u := I.Unsigned(i);
    assert u.(mac := m) == i.(mac := m) && u.(mac := Zeros(32)) == u && I.Unsigned(u) == u;
    I.ZeroMacOfEncode(u, m, size);
    I.ZeroMacOfEncode(u, Zeros(32), size);
    I.DecodeOfEncode(u, size);
    I.DecodeOfEncode(i.(mac := m), size);
    assert I.Canon(u).peerRefs == I.Canon(i.(mac := m)).peerRefs;
  }

  // ----- as it runs

  /** The derived references as a map, None as soon as two peers share one. */
  method IndexRefs(c: Crypto, peers: seq<Record>) returns (byRef: Option<map<Bytes4, nat>>)
    ensures byRef.Some? <==> Distinct(DerivedRefs(c, peers))
    ensures byRef.Some? ==> forall x :: x in byRef.value <==> x in DerivedRefs(c, peers)
  {
    ghost var d := DerivedRefs(c, peers);
    var index: map<Bytes4, nat> := map[];
    for i := 0 to |peers|
      invariant forall x :: x in index <==> x in d[..i]
      invariant Distinct(d[..i])
    {
      var ref := MakeRef(c, peers[i].pub);
      assert ref == d[i];
      if ref in index {
        return None;
      }
      index := index[ref := i];
      assert d[..i + 1] == d[..i] + [d[i]];
    }
    assert d[..|peers|] == d;
    return Some(index);
  }

  /** Every reference takes one entry out of the map, and nothing is left over. */
  method Consume(refs: seq<Bytes4>, index: map<Bytes4, nat>) returns (ok: bool)
    ensures ok <==> Distinct(refs) && forall x :: x in refs <==> x in index
  {
    var byRef := index;
    for j := 0 to |refs|
      invariant forall x :: x in byRef <==> x in index && x !in refs[..j]
      invariant Distinct(refs[..j]) && forall x :: x in refs[..j] ==> x in index
    {
      var ref := refs[j];
      if ref !in byRef {
        return false;
      }
      byRef := byRef - {ref};
      assert refs[..j + 1] == refs[..j] + [ref];
    }
    assert refs[..|refs|] == refs;
    if |byRef| != 0 {
      var x :| x in byRef.Keys;
      return false;
    }
    assert forall x :: x !in byRef.Keys;
    return true;
  }

  /** matchRefs: a bijection between the references named and the peers supplied. */
  method MatchRefs(c: Crypto, refs: seq<Bytes4>, peers: seq<Record>) returns (ok: bool)
    ensures ok <==> RefsMatch(c, refs, peers)
  {
    MatchedAsSets(c, refs, peers);
    if |refs| != |peers| {
      return false;
    }
    var byRef := IndexRefs(c, peers);
    if byRef.None? {
      return false;
    }
    ok := Consume(refs, byRef.value);
  }

  lemma MatchedAsSets(c: Crypto, refs: seq<Bytes4>, peers: seq<Record>)
    ensures var d := DerivedRefs(c, peers);
            RefsMatch(c, refs, peers) <==>
              |refs| == |peers| && Distinct(d) && Distinct(refs) && forall x :: x in refs <==> x in d
  {
    var d := DerivedRefs(c, peers);
    if RefsMatch(c, refs, peers) {
      PermutationOfDistinct(d, refs);
    }
    if Distinct(d) && Distinct(refs) && forall x :: x in refs <==> x in d {
      DistinctMultiset(refs, d);
    }
  }

  method BuildCanonical(c: Crypto, ifPub: Bytes32, ifDescr: bytes, peers: seq<Record>, size: RecordSize)
    returns (r: Option<bytes>)
    requires |ifDescr| == size
    ensures r == Canonical(c, ifPub, ifDescr, peers, size)
    ensures r.Some? && FullLength(peers, size) ==> Spells(r.value, ifPub, ifDescr, peers, size)
  {
    var rec := Codec.DecodeInterface(ifDescr, size);
    if rec.None? {
      return None;
    }
    var ok := MatchRefs(c, rec.value.peerRefs, peers);
    if !ok || |peers| > MaxPeers(size) {
      return None;
    }
    var zeroed := Codec.ZeroMac(ifDescr, size);
    if zeroed.None? {
      return None;
    }
    var sorted := Sort(peers);
    var msg := DOMAIN + ifPub + zeroed.value;
    ghost var head := msg;
    for i := 0 to |sorted|
      invariant msg == head + Blocks(sorted[..i])
    {
      BlocksSnoc(sorted[..i], sorted[i]);
      assert sorted[..i + 1] == sorted[..i] + [sorted[i]];
      msg := msg + sorted[i].pub;
      msg := msg + sorted[i].descr;
    }
    assert sorted[..|sorted|] == sorted;
    if FullLength(peers, size) {
      CanonicalLayout(c, ifPub, ifDescr, peers, size);
    }
    return Some(msg);
  }

  lemma {:induction false} BlocksSnoc(a: seq<Record>, p: Record)
    ensures Blocks(a + [p]) == Blocks(a) + (p.pub + p.descr)
  {
    if a == [] {
      assert [p][1..] == [];
    } else {
      BlocksSnoc(a[1..], p);
      assert (a + [p])[1..] == a[1..] + [p];
    }
  }
}
