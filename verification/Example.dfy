/** Smallest configurations, at either record length: what the theorems ask for does exist, and so does what
    they warn about. */
module Example {
  import opened Base
  import opened Net
  import opened Tlv
  import opened Families
  import opened Kid
  import opened Repository
  import opened Provision
  import M = Mac
  import I = InterfaceRecord
  import P = PeerRecord

  function Digest(b: bytes): Bytes20 {
    if |b| >= 20 then b[..20] else Zeros(20)
  }

  function Toy(): Crypto {
    Crypto(b => Digest(b), (key, msg) => Zeros(32), (key, context, psk) => Zeros(40),
           (key, context, wrapped) => Zeros(32))
  }

  function Key(n: byte): Bytes32 {
    [n] + Zeros(31)
  }

  /** Another key with the reference of Key(2) and an identifier of its own. */
  function Twin(): Bytes32 {
    [2, 0, 0, 0, 1] + Zeros(27)
  }

  function IdOf(pub: Bytes32): string {
    KeyId(Toy(), pub)
  }

  lemma DistinctIds(a: Bytes32, b: Bytes32, i: nat)
    requires i < KID_LEN && a[i] != b[i]
    ensures IdOf(a) != IdOf(b) && IdOf(a) != ""
  {
    HexRoundTrip(Digest(a)[..KID_LEN]);
    HexRoundTrip(Digest(b)[..KID_LEN]);
    assert Digest(a)[..KID_LEN][i] == a[i] && Digest(b)[..KID_LEN][i] == b[i];
  }

  function Spec(pub: Bytes32): PeerSpec {
    PeerSpec(pub, "peer", P.Endpoint(V4([203, 0, 113, 1]), [], 51820), [Prefix(V4([0, 0, 0, 0]), 0)], 0)
  }

  /** One address, one peer, no key, written under an existing identity key. */
  function Wanted(id: Bytes32, pub: Bytes32): Params {
    Params([Prefix(V4([10, 0, 0, 7]), 32)], [], 1420, 51820, "identity", [Spec(pub)], IdOf(id), None, false)
  }

  function Refs(pub: Bytes32): seq<Bytes4> {
    [MakeRef(Toy(), pub)]
  }

  function PeerBytes(pub: Bytes32, size: RecordSize): bytes {
    var r := P.Encode(RecordOf(Spec(pub), []), size);
    if r.Some? then r.value else []
  }

  function InterfaceBytes(id: Bytes32, pub: Bytes32, size: RecordSize): bytes {
    var r := I.Encode(Requested(Wanted(id, pub), Refs(pub)), size);
    if r.Some? then r.value else []
  }

  function Placed1(pub: Bytes32, size: RecordSize): seq<TreePeer> {
    [TreePeer(IdOf(pub), "peer", pub, PeerBytes(pub, size), P.Canon(RecordOf(Spec(pub), [])))]
  }

  function Fresh(id: Bytes32): Entry {
    Entry(id, true, "identity", [])
  }

  /** A device on which the run can start: the identity's key is there without a record, the peer's is not. */
  predicate Start(base: Repo, id: Bytes32, pub: Bytes32) {
    IdOf(id) in base && base[IdOf(id)] == Fresh(id) && IdOf(pub) !in base && IdOf(id) != ""
  }

  function After(base: Repo, id: Bytes32, pub: Bytes32, size: RecordSize): Repo {
    base[IdOf(id) := Entry(id, true, "identity", InterfaceBytes(id, pub, size))]
        [IdOf(pub) := Entry(pub, false, "peer", PeerBytes(pub, size))]
  }

  lemma OnePrefix(p: Prefix)
    requires p.IsValid() && p.addr.V4?
    ensures Only([p], true) == [p] && Only([p], false) == []
  {
    assert [p][..0] == [];
  }

  lemma PeerFits(pub: Bytes32, size: RecordSize)
    ensures P.Encode(RecordOf(Spec(pub), []), size).Some?
  {
    var rec := RecordOf(Spec(pub), []);
    OnePrefix(Prefix(V4([0, 0, 0, 0]), 0));
    P.EncodeSucceeds(rec, size);
    assert rec.allowedIPs == [Prefix(V4([0, 0, 0, 0]), 0)] && rec.psk == [] && rec.endpoint.host == [];
    assert P.Budget(rec) <= 64;
  }

  lemma InterfaceFits(id: Bytes32, pub: Bytes32, size: RecordSize)
    ensures I.Encode(Requested(Wanted(id, pub), Refs(pub)), size).Some?
  {
    OnePrefix(Prefix(V4([10, 0, 0, 7]), 32));
    I.EncodeSucceeds(Requested(Wanted(id, pub), Refs(pub)), size);
  }

  lemma PeerIsStored(base: Repo, id: Bytes32, pub: Bytes32, size: RecordSize)
    requires Start(base, id, pub)
    ensures Stored(Toy(), size, After(base, id, pub, size), Placed1(pub, size)[0])
    ensures Chosen(Toy(), size, Wanted(id, pub), base, id, 0, Placed1(pub, size)[0])
  {
    PeerFits(pub, size);
    var raw := PeerBytes(pub, size);
    P.DecodeOfEncode(RecordOf(Spec(pub), []), size);
    assert raw + Zeros(0) == raw && raw[..MAGIC_LEN] == MAGIC_PEER;
  }

  lemma OneRef(pub: Bytes32, size: RecordSize)
    ensures RefsOf(Toy(), Placed1(pub, size)) == Refs(pub)
  {}

  lemma MessageExists(id: Bytes32, pub: Bytes32, size: RecordSize)
    ensures M.Canonical(Toy(), id, InterfaceBytes(id, pub, size), Records(Placed1(pub, size)), size).Some?
  {
    InterfaceFits(id, pub, size);
    I.DecodeOfEncode(Requested(Wanted(id, pub), Refs(pub)), size);
    OneRef(pub, size);
    M.CanonicalAccepts(Toy(), id, InterfaceBytes(id, pub, size), Records(Placed1(pub, size)), size);
  }

  lemma IsSealed(base: Repo, id: Bytes32, pub: Bytes32, size: RecordSize)
    requires Start(base, id, pub)
    ensures Sealed(Toy(), size, After(base, id, pub, size), IdOf(id), Requested(Wanted(id, pub), Refs(pub)), Zeros(32),
              Placed1(pub, size))
  {
    OneRef(pub, size);
    MessageExists(id, pub, size);
    InterfaceFits(id, pub, size);
    var rec := Requested(Wanted(id, pub), Refs(pub));
    assert I.Unsigned(rec) == rec && rec.(mac := Zeros(32)) == rec;
    assert After(base, id, pub, size)[IdOf(id)] == Entry(id, true, "identity", InterfaceBytes(id, pub, size));
  }

  lemma IsAcceptable(id: Bytes32, pub: Bytes32, size: RecordSize)
    ensures Acceptable(Wanted(id, pub), size)
  {
    PeerFits(pub, size);
    assert Wanted(id, pub).peers[0] == Spec(pub) && Probe(Wanted(id, pub)) == [];
  }

  lemma Keeps(base: Repo, id: Bytes32, pub: Bytes32, size: RecordSize)
    requires Start(base, id, pub)
    ensures Kept(Toy(), Wanted(id, pub), IdOf(id), base, After(base, id, pub, size))
  {
    InterfaceFits(id, pub, size);
    assert InterfaceBytes(id, pub, size)[3] == MAGIC_INTERFACE[3];
    assert Wanted(id, pub).peers[0].pub == pub;
  }

  /** What a successful run leaves on any such device. */
  lemma IsComplete(base: Repo, id: Bytes32, pub: Bytes32, size: RecordSize)
    requires Start(base, id, pub)
    ensures Complete(Toy(), size, Wanted(id, pub), base, After(base, id, pub, size), IdOf(id), Zeros(32),
              Placed1(pub, size))
  {
    IsAcceptable(id, pub, size);
    IsSealed(base, id, pub, size);
    PeerIsStored(base, id, pub, size);
    OneRef(pub, size);
    Keeps(base, id, pub, size);
    OnePeerComplete(Toy(), size, Wanted(id, pub), base, After(base, id, pub, size), IdOf(id), Zeros(32),
                    Placed1(pub, size), Refs(pub));
  }

  lemma OnePeerComplete(c: Crypto, size: RecordSize, p: Params, before: Repo, after: Repo, kid: string, sum: Bytes32,
                        placed: seq<TreePeer>, refs: seq<Bytes4>)
    requires Acceptable(p, size) && |p.peers| == |placed| == 1 && RefsOf(c, placed) == refs
    requires Kept(c, p, kid, before, after) && p.kid != "" && kid == p.kid && kid in before && kid in after
    requires Sealed(c, size, after, kid, Requested(p, refs), sum, placed) && after[kid].title == p.title
    requires Chosen(c, size, p, before, after[kid].pub, 0, placed[0]) && Stored(c, size, after, placed[0])
    ensures Complete(c, size, p, before, after, kid, sum, placed)
  {}

  /** And a run on it does succeed, as long as no call fails. */
  lemma IsRunnable(base: Repo, id: Bytes32, pub: Bytes32, size: RecordSize)
    requires Start(base, id, pub)
    ensures Acceptable(Wanted(id, pub), size) && Runnable(Toy(), size, Wanted(id, pub), base, IdOf(id))
  {
    IsAcceptable(id, pub, size);
    PeerFits(pub, size);
    InterfaceFits(id, pub, size);
    var p := Wanted(id, pub);
    assert p.peers[0] == Spec(pub);
    assert WantedRefs(Toy(), p) == Refs(pub);
    assert Placeable(Toy(), size, Spec(pub), p.psk, p.adopt, base, id);
  }

  // ----- a run that succeeds and loads

  /** Nothing but an identity key. */
  function Empty(): Repo {
    map[IdOf(Key(1)) := Fresh(Key(1))]
  }

  lemma EmptyIsStart()
    ensures Start(Empty(), Key(1), Key(2)) && IdOf(Key(1)) != IdOf(Key(2))
  {
    DistinctIds(Key(1), Key(2), 0);
  }

  lemma IsClear()
    ensures NotOwnPeer(Toy(), Wanted(Key(1), Key(2)), IdOf(Key(1)))
    ensures Clear(Toy(), Wanted(Key(1), Key(2)), Empty(), IdOf(Key(1)))
  {
    EmptyIsStart();
    var p := Wanted(Key(1), Key(2));
    assert p.peers[0].pub == Key(2);
    forall k | WillBePeer(Toy(), p, Empty(), IdOf(Key(1)), k) ensures k == IdOf(Key(2)) {}
  }

  lemma ExampleTreeLoads(size: RecordSize) returns (t: Tree)
    ensures Complete(Toy(), size, Wanted(Key(1), Key(2)), Empty(), After(Empty(), Key(1), Key(2), size), IdOf(Key(1)),
              Zeros(32), Placed1(Key(2), size))
    ensures Start(Empty(), Key(1), Key(2)) && NotOwnPeer(Toy(), Wanted(Key(1), Key(2)), IdOf(Key(1)))
    ensures LoadsHere(Toy(), size, After(Empty(), Key(1), Key(2), size), IdOf(Key(1)), t)
  {
    EmptyIsStart();
    IsComplete(Empty(), Key(1), Key(2), size);
    IsClear();
    var p, after, placed := Wanted(Key(1), Key(2)), After(Empty(), Key(1), Key(2), size), Placed1(Key(2), size);
    ProvisionedLoads(Toy(), size, p, Empty(), after, IdOf(Key(1)), Zeros(32), placed);
    t := SealedTree(after, IdOf(Key(1)), Requested(p, RefsOf(Toy(), placed)), Zeros(32), placed);
  }

  /** A provisioned repository exists, and its identity loads. */
  lemma ExampleLoads(size: RecordSize) returns (t: Tree)
    ensures Start(Empty(), Key(1), Key(2))
    ensures LoadsHere(Toy(), size, After(Empty(), Key(1), Key(2), size), IdOf(Key(1)), t)
    ensures t.iface.mtu == 1420 && t.iface.listenPort == 51820 && t.iface.addrs == [Prefix(V4([10, 0, 0, 7]), 32)]
    ensures |t.peers| == 1 && t.peers[0].pub == Key(2) && t.peers[0].rec.allowedIPs == [Prefix(V4([0, 0, 0, 0]), 0)]
  {
    t := ExampleTreeLoads(size);
    LoadedAsRequested(Toy(), size, Wanted(Key(1), Key(2)), Empty(), After(Empty(), Key(1), Key(2), size),
                      IdOf(Key(1)), Zeros(32), Placed1(Key(2), size), t);
    OnePrefix(Prefix(V4([10, 0, 0, 7]), 32));
    OnePrefix(Prefix(V4([0, 0, 0, 0]), 0));
  }

  // ----- a run that succeeds and stops everybody

  /** The device of the first run, and a second identity key on it. */
  function Shared(size: RecordSize): Repo {
    After(Empty(), Key(1), Key(2), size)[IdOf(Key(3)) := Fresh(Key(3))]
  }

  lemma SharedIsStart(size: RecordSize)
    ensures Start(Shared(size), Key(3), Twin()) && IdOf(Key(3)) != IdOf(Key(1)) && IdOf(Key(3)) != IdOf(Key(2))
    ensures IdOf(Twin()) != IdOf(Key(2)) && IdOf(Twin()) != IdOf(Key(3))
    ensures RefOfKid(IdOf(Twin())) == RefOfKid(IdOf(Key(2)))
  {
    DistinctIds(Key(3), Key(1), 0);
    DistinctIds(Key(3), Key(2), 0);
    DistinctIds(Twin(), Key(1), 0);
    DistinctIds(Twin(), Key(2), 4);
    DistinctIds(Twin(), Key(3), 0);
    RefOfKeyId(Toy(), Twin());
    RefOfKeyId(Toy(), Key(2));
    assert Digest(Twin())[..4] == Digest(Key(2))[..4];
  }

  lemma SharedLoads(size: RecordSize) returns (t: Tree)
    ensures LoadsHere(Toy(), size, Shared(size), IdOf(Key(1)), t)
  {
    t := ExampleLoads(size);
    SharedIsStart(size);
    KeyWithoutRecord(Toy(), size, After(Empty(), Key(1), Key(2), size), IdOf(Key(1)), t, IdOf(Key(3)), Fresh(Key(3)));
  }

  lemma KeyWithoutRecord(c: Crypto, size: RecordSize, before: Repo, kid: string, t: Tree, k: string, e: Entry)
    requires LoadsHere(c, size, before, kid, t) && k !in before && e.descr == []
    ensures LoadsHere(c, size, before[k := e], kid, t)
  {
    var after := before[k := e];
    forall j ensures IsPeerKid(after, j) <==> IsPeerKid(before, j) {
      assert j == k ==> after[j].descr == [];
    }
    forall i | 0 <= i < |t.peers| ensures t.peers[i].kid in before {
      assert IsPeerKid(before, t.peers[i].kid);
    }
    LoadsStable(c, size, before, after, kid, t);
  }

  lemma PeerBytesAreARecord(base: Repo, id: Bytes32, pub: Bytes32, size: RecordSize)
    requires Start(base, id, pub)
    ensures IsPeerKid(After(base, id, pub, size), IdOf(pub))
  {
    PeerIsStored(base, id, pub, size);
    StoredLoads(Toy(), size, After(base, id, pub, size), Placed1(pub, size)[0]);
  }

  /** A device on which identity 1 loads, and a run for identity 3 that can and does succeed, after which neither it nor
      any other identity loads: the peer it imported has the reference of identity 1's. */
  lemma ExampleCollides(size: RecordSize) returns (t: Tree)
    ensures LoadsHere(Toy(), size, Shared(size), IdOf(Key(1)), t)
    ensures Acceptable(Wanted(Key(3), Twin()), size)
    ensures Runnable(Toy(), size, Wanted(Key(3), Twin()), Shared(size), IdOf(Key(3)))
    ensures Complete(Toy(), size, Wanted(Key(3), Twin()), Shared(size), After(Shared(size), Key(3), Twin(), size),
              IdOf(Key(3)), Zeros(32), Placed1(Twin(), size))
    ensures forall k, u :: !LoadsHere(Toy(), size, After(Shared(size), Key(3), Twin(), size), k, u)
  {
    t := SharedLoads(size);
    SharedIsStart(size);
    IsComplete(Shared(size), Key(3), Twin(), size);
    IsRunnable(Shared(size), Key(3), Twin(), size);
    BothAreRecords(size);
    var after := After(Shared(size), Key(3), Twin(), size);
    CollisionStopsEveryone(Toy(), size, after, DeviceRing(after), IdOf(Twin()), IdOf(Key(2)));
  }

  lemma BothAreRecords(size: RecordSize)
    ensures var after := After(Shared(size), Key(3), Twin(), size);
            IsPeerKid(after, IdOf(Twin())) && IsPeerKid(after, IdOf(Key(2)))
  {
    SharedIsStart(size);
    PeerBytesAreARecord(Shared(size), Key(3), Twin(), size);
    EmptyIsStart();
    PeerBytesAreARecord(Empty(), Key(1), Key(2), size);
    assert After(Shared(size), Key(3), Twin(), size)[IdOf(Key(2))]
        == After(Empty(), Key(1), Key(2), size)[IdOf(Key(2))];
  }
}
