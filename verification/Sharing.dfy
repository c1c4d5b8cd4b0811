/** Three identities that share two peers on one device: what one owner's commands do to the others. */
module Sharing {
  import opened Base
  import opened Net
  import opened Tlv
  import opened Kid
  import opened Repository
  import opened Provision
  import opened Commands
  import opened Maintenance
  import opened Example
  import M = Mac
  import I = InterfaceRecord
  import P = PeerRecord

  type Hmac = (bytes, bytes) -> Bytes32

  /** Digests as in the smallest examples, under any MAC. */
  function Under(h: Hmac): Crypto {
    Crypto(b => Digest(b), h, (key, context, psk) => Zeros(40), (key, context, wrapped) => Zeros(32))
  }

  lemma SameIds(h: Hmac, pub: Bytes32)
    ensures KeyId(Under(h), pub) == IdOf(pub) && MakeRef(Under(h), pub) == Digest(pub)[..4]
    ensures RefOfKid(IdOf(pub)) == Some(Digest(pub)[..4])
  {
    RefOfKeyId(Under(h), pub);
  }

  function RefsFor(pubs: seq<Bytes32>): seq<Bytes4> {
    Map((p: Bytes32) => Digest(p)[..4], pubs)
  }

  /** One address and the given peers. */
  function Face(pubs: seq<Bytes32>): I.Interface {
    I.Interface([Prefix(V4([10, 0, 0, 7]), 32)], 0, [], RefsFor(pubs), 0, true, Zeros(32))
  }

  function PeerFor(pub: Bytes32, size: RecordSize): TreePeer {
    TreePeer(IdOf(pub), "peer", pub, PeerBytes(pub, size), P.Canon(RecordOf(Spec(pub), [])))
  }

  function PeersFor(pubs: seq<Bytes32>, size: RecordSize): seq<TreePeer> {
    Map((p: Bytes32) => PeerFor(p, size), pubs)
  }

  function FaceBytes(pubs: seq<Bytes32>, mac: Bytes32, size: RecordSize): bytes {
    var r := I.Encode(Face(pubs).(mac := mac), size);
    if r.Some? then r.value else []
  }

  ghost function Message(h: Hmac, id: Bytes32, pubs: seq<Bytes32>, size: RecordSize): bytes {
    var r := M.Canonical(Under(h), id, FaceBytes(pubs, Zeros(32), size), Records(PeersFor(pubs, size)), size);
    if r.Some? then r.value else []
  }

  ghost function Sum(h: Hmac, id: Bytes32, pubs: seq<Bytes32>, size: RecordSize): Bytes32 {
    h(id, Message(h, id, pubs, size))
  }

  ghost function IdentityEntry(h: Hmac, id: Bytes32, pubs: seq<Bytes32>, size: RecordSize): Entry {
    Entry(id, true, "identity", FaceBytes(pubs, Sum(h, id, pubs, size), size))
  }

  function PeerEntry(pub: Bytes32, size: RecordSize): Entry {
    Entry(pub, false, "peer", PeerBytes(pub, size))
  }

  lemma FaceFits(pubs: seq<Bytes32>, mac: Bytes32, size: RecordSize)
    requires |pubs| <= 2
    ensures I.Encode(Face(pubs).(mac := mac), size).Some?
  {
    OnePrefix(Prefix(V4([10, 0, 0, 7]), 32));
    I.EncodeSucceeds(Face(pubs).(mac := mac), size);
    assert I.Budget(Face(pubs).(mac := mac)) <= 64;
  }

  lemma SameRefs(h: Hmac, pubs: seq<Bytes32>, size: RecordSize)
    ensures RefsOf(Under(h), PeersFor(pubs, size)) == RefsFor(pubs)
  {
    forall i | 0 <= i < |pubs| ensures RefsOf(Under(h), PeersFor(pubs, size))[i] == RefsFor(pubs)[i] {
      SameIds(h, pubs[i]);
    }
  }

  lemma PeerIsStored(h: Hmac, repo: Repo, pub: Bytes32, size: RecordSize)
    requires IdOf(pub) in repo && repo[IdOf(pub)] == PeerEntry(pub, size)
    ensures Stored(Under(h), size, repo, PeerFor(pub, size))
  {
    SameIds(h, pub);
    PeerFits(pub, size);
    var raw := PeerBytes(pub, size);
    P.DecodeOfEncode(RecordOf(Spec(pub), []), size);
    assert raw + Zeros(0) == raw && raw[..MAGIC_LEN] == MAGIC_PEER;
  }

  lemma HasMessage(h: Hmac, id: Bytes32, pubs: seq<Bytes32>, size: RecordSize)
    requires |pubs| <= 2 && Distinct(RefsFor(pubs))
    ensures I.Encode(Face(pubs), size) == Some(FaceBytes(pubs, Zeros(32), size))
    ensures M.Canonical(Under(h), id, FaceBytes(pubs, Zeros(32), size), Records(PeersFor(pubs, size)), size)
         == Some(Message(h, id, pubs, size))
  {
    FaceFits(pubs, Zeros(32), size);
    assert Face(pubs).(mac := Zeros(32)) == Face(pubs);
    SameRefs(h, pubs, size);
    SealMessage(Under(h), size, id, Face(pubs), PeersFor(pubs, size));
  }

  lemma IsSealed(h: Hmac, repo: Repo, id: Bytes32, pubs: seq<Bytes32>, size: RecordSize)
    requires |pubs| <= 2 && Distinct(RefsFor(pubs))
    requires IdOf(id) in repo && repo[IdOf(id)] == IdentityEntry(h, id, pubs, size)
    ensures Sealed(Under(h), size, repo, IdOf(id), Face(pubs), Sum(h, id, pubs, size), PeersFor(pubs, size))
  {
    HasMessage(h, id, pubs, size);
    SameRefs(h, pubs, size);
    FaceFits(pubs, Sum(h, id, pubs, size), size);
    assert I.Unsigned(Face(pubs)) == Face(pubs);
  }

  ghost function TreeFor(h: Hmac, id: Bytes32, pubs: seq<Bytes32>, size: RecordSize): Tree {
    var sum := Sum(h, id, pubs, size);
    Tree(IdOf(id), "identity", id, FaceBytes(pubs, sum, size), I.Canon(Face(pubs).(mac := sum)), PeersFor(pubs, size))
  }

  lemma IdentityLoads(h: Hmac, repo: Repo, id: Bytes32, pubs: seq<Bytes32>, size: RecordSize)
    requires 1 <= |pubs| <= 2 && Distinct(RefsFor(pubs)) && CollisionFree(repo)
    requires IdOf(id) in repo && repo[IdOf(id)] == IdentityEntry(h, id, pubs, size)
    requires forall i :: 0 <= i < |pubs| ==> IdOf(pubs[i]) in repo && repo[IdOf(pubs[i])] == PeerEntry(pubs[i], size)
    ensures LoadsHere(Under(h), size, repo, IdOf(id), TreeFor(h, id, pubs, size))
  {
    var peers, sum := PeersFor(pubs, size), Sum(h, id, pubs, size);
    SameIds(h, id);
    IsSealed(h, repo, id, pubs, size);
    forall i | 0 <= i < |peers| ensures Stored(Under(h), size, repo, peers[i]) {
      PeerIsStored(h, repo, pubs[i], size);
    }
    SealedLoads(Under(h), size, repo, IdOf(id), Face(pubs), sum, peers);
    assert SealedTree(repo, IdOf(id), Face(pubs), sum, peers) == TreeFor(h, id, pubs, size);
  }

  // ----- the device

  const A: Bytes32 := Key(1)
  const B: Bytes32 := Key(3)
  const C: Bytes32 := Key(5)
  const X: Bytes32 := Key(2)
  const Y: Bytes32 := Key(4)

  /** Identity A refers to peer X, B to X and Y, and C to Y; there is nothing else. */
  ghost predicate IsShared(h: Hmac, size: RecordSize, d: Repo) {
    && d.Keys == {IdOf(A), IdOf(B), IdOf(C), IdOf(X), IdOf(Y)}
    && d[IdOf(A)] == IdentityEntry(h, A, [X], size)
    && d[IdOf(B)] == IdentityEntry(h, B, [X, Y], size)
    && d[IdOf(C)] == IdentityEntry(h, C, [Y], size)
    && d[IdOf(X)] == PeerEntry(X, size)
    && d[IdOf(Y)] == PeerEntry(Y, size)
  }

  lemma KeysApart(m: byte, n: byte)
    requires m != n
    ensures IdOf(Key(m)) != IdOf(Key(n)) && Digest(Key(m))[..4] != Digest(Key(n))[..4]
  {
    DistinctIds(Key(m), Key(n), 0);
    assert Digest(Key(m))[..4][0] == m && Digest(Key(n))[..4][0] == n;
  }

  lemma AllApart()
    ensures IdOf(A) != IdOf(B) && IdOf(A) != IdOf(C) && IdOf(A) != IdOf(X) && IdOf(A) != IdOf(Y)
    ensures IdOf(B) != IdOf(C) && IdOf(B) != IdOf(X) && IdOf(B) != IdOf(Y)
    ensures IdOf(C) != IdOf(X) && IdOf(C) != IdOf(Y) && IdOf(X) != IdOf(Y)
  {
    KeysApart(1, 2);
    KeysApart(1, 3);
    KeysApart(1, 4);
    KeysApart(1, 5);
    KeysApart(2, 3);
    KeysApart(2, 4);
    KeysApart(2, 5);
    KeysApart(3, 4);
    KeysApart(3, 5);
    KeysApart(4, 5);
  }

  lemma FiveEntries(k1: string, k2: string, k3: string, k4: string, k5: string, e1: Entry, e2: Entry, e3: Entry,
      e4: Entry, e5: Entry) returns (d: Repo)
    requires k1 != k2 && k1 != k3 && k1 != k4 && k1 != k5 && k2 != k3 && k2 != k4 && k2 != k5
    requires k3 != k4 && k3 != k5 && k4 != k5
    ensures d.Keys == {k1, k2, k3, k4, k5}
    ensures d[k1] == e1 && d[k2] == e2 && d[k3] == e3 && d[k4] == e4 && d[k5] == e5
  {
    d := map[k1 := e1, k2 := e2, k3 := e3, k4 := e4, k5 := e5];
  }

  lemma SharedExists(h: Hmac, size: RecordSize) returns (d: Repo)
    ensures IsShared(h, size, d)
  {
    AllApart();
    d := FiveEntries(IdOf(A), IdOf(B), IdOf(C), IdOf(X), IdOf(Y), IdentityEntry(h, A, [X], size),
                     IdentityEntry(h, B, [X, Y], size), IdentityEntry(h, C, [Y], size), PeerEntry(X, size),
                     PeerEntry(Y, size));
  }

  lemma NoPeerRecord(h: Hmac, id: Bytes32, pubs: seq<Bytes32>, size: RecordSize)
    requires |pubs| <= 2
    ensures !(MAGIC_PEER <= IdentityEntry(h, id, pubs, size).descr)
  {
    FaceFits(pubs, Sum(h, id, pubs, size), size);
    assert IdentityEntry(h, id, pubs, size).descr[3] == MAGIC_INTERFACE[3];
  }

  lemma IsPeerEntry(h: Hmac, d: Repo, pub: Bytes32, size: RecordSize)
    requires IdOf(pub) in d && d[IdOf(pub)] == PeerEntry(pub, size)
    ensures IsPeerKid(d, IdOf(pub))
  {
    PeerIsStored(h, d, pub, size);
    StoredLoads(Under(h), size, d, PeerFor(pub, size));
  }

  lemma SharedPeers(h: Hmac, size: RecordSize, d: Repo)
    requires IsShared(h, size, d)
    ensures forall k :: IsPeerKid(d, k) <==> k == IdOf(X) || k == IdOf(Y)
  {
    NoPeerRecord(h, A, [X], size);
    NoPeerRecord(h, B, [X, Y], size);
    NoPeerRecord(h, C, [Y], size);
    IsPeerEntry(h, d, X, size);
    IsPeerEntry(h, d, Y, size);
    PeersOfFive(d, IdOf(A), IdOf(B), IdOf(C), IdOf(X), IdOf(Y));
  }

  lemma PeersOfFive(d: Repo, k1: string, k2: string, k3: string, k4: string, k5: string)
    requires d.Keys == {k1, k2, k3, k4, k5} && IsPeerKid(d, k4) && IsPeerKid(d, k5)
    requires !(MAGIC_PEER <= d[k1].descr) && !(MAGIC_PEER <= d[k2].descr) && !(MAGIC_PEER <= d[k3].descr)
    ensures forall k :: IsPeerKid(d, k) <==> k == k4 || k == k5
  {
    forall k | IsPeerKid(d, k) ensures k == k4 || k == k5 {
      assert k in d.Keys;
    }
  }

  lemma SharedIsCollisionFree(h: Hmac, size: RecordSize, d: Repo)
    requires IsShared(h, size, d)
    ensures CollisionFree(d) && Distinct(RefsFor([X, Y]))
  {
    KeysApart(2, 4);
    TwoRefs(X, Y);
    SameIds(h, X);
    SameIds(h, Y);
    SharedPeers(h, size, d);
    TwoPeersApart(d, IdOf(X), IdOf(Y));
  }

  lemma TwoRefs(p: Bytes32, q: Bytes32)
    requires Digest(p)[..4] != Digest(q)[..4]
    ensures Distinct(RefsFor([p, q]))
  {}

  lemma TwoPeersApart(d: Repo, k: string, l: string)
    requires forall j :: IsPeerKid(d, j) <==> j == k || j == l
    requires RefOfKid(k) != RefOfKid(l)
    ensures CollisionFree(d)
  {}

  lemma ALoads(h: Hmac, size: RecordSize, d: Repo)
    requires IsShared(h, size, d)
    ensures LoadsHere(Under(h), size, d, IdOf(A), TreeFor(h, A, [X], size))
  {
    SharedIsCollisionFree(h, size, d);
    IdentityLoads(h, d, A, [X], size);
  }

  lemma BLoads(h: Hmac, size: RecordSize, d: Repo)
    requires IsShared(h, size, d)
    ensures LoadsHere(Under(h), size, d, IdOf(B), TreeFor(h, B, [X, Y], size))
  {
    SharedIsCollisionFree(h, size, d);
    BothEntries(d, X, Y, size);
    IdentityLoads(h, d, B, [X, Y], size);
  }

  lemma BothEntries(d: Repo, p: Bytes32, q: Bytes32, size: RecordSize)
    requires IdOf(p) in d && d[IdOf(p)] == PeerEntry(p, size) && IdOf(q) in d && d[IdOf(q)] == PeerEntry(q, size)
    ensures var pubs := [p, q];
            forall i :: 0 <= i < |pubs| ==> IdOf(pubs[i]) in d && d[IdOf(pubs[i])] == PeerEntry(pubs[i], size)
  {}

  lemma CLoads(h: Hmac, size: RecordSize, d: Repo)
    requires IsShared(h, size, d)
    ensures LoadsHere(Under(h), size, d, IdOf(C), TreeFor(h, C, [Y], size))
  {
    SharedIsCollisionFree(h, size, d);
    IdentityLoads(h, d, C, [Y], size);
  }

  // ----- a MAC under which exactly A's own message has A's MAC

  function Ones(): Bytes32 {
    seq(32, _ => 1)
  }

  function Sharp(m0: bytes): Hmac {
    (key, msg) => if msg == m0 then Zeros(32) else Ones()
  }

  lemma SameMessage(h: Hmac, g: Hmac, id: Bytes32, pubs: seq<Bytes32>, size: RecordSize)
    ensures Message(h, id, pubs, size) == Message(g, id, pubs, size)
  {
    var rs := Records(PeersFor(pubs, size));
    assert M.DerivedRefs(Under(h), rs) == M.DerivedRefs(Under(g), rs);
  }

  ghost function MessageOfA(size: RecordSize): bytes {
    Message((key, msg) => Zeros(32), A, [X], size)
  }

  ghost function Exact(size: RecordSize): Hmac {
    Sharp(MessageOfA(size))
  }

  lemma AIsSealedOver(size: RecordSize, d: Repo)
    requires IsShared(Exact(size), size, d)
    ensures var t := TreeFor(Exact(size), A, [X], size);
      && LoadsHere(Under(Exact(size)), size, d, IdOf(A), t)
      && MessageOf(Under(Exact(size)), size, t) == MessageOfA(size)
  {
    var h := Exact(size);
    ALoads(h, size, d);
    SameMessage(h, (key, msg) => Zeros(32), A, [X], size);
    HasMessage(h, A, [X], size);
    assert I.Unsigned(Face([X])) == Face([X]);
    M.SignedIsVerified(Under(h), A, Face([X]), Sum(h, A, [X], size), Records(PeersFor([X], size)), size);
  }

  lemma NothingCoincides(size: RecordSize, key: bytes, m: bytes)
    ensures !Coincidence(Under(Exact(size)), key, Some(MessageOfA(size)), Some(m))
  {
    assert Ones()[0] != Zeros(32)[0];
  }

  // ----- an add that stops everyone

  /** C adds a key with X's reference. The command can complete and does, and no identity loads after it. */
  lemma AddStopsEveryone(h: Hmac, size: RecordSize) returns (d: Repo, after: Repo, e: Edit, t': Tree)
    ensures IsShared(h, size, d)
    ensures Completed(Under(h), size, d, after, IdOf(C), Add(Spec(Twin()), None, false, false),
              TreeFor(h, C, [Y], size), e, t')
    ensures forall k, u :: !LoadsHere(Under(h), size, after, k, u)
  {
    d := SharedExists(h, size);
    CLoads(h, size, d);
    AddIsCompletable(h, size, d);
    var cmd := Add(Spec(Twin()), None, false, false);
    after, e, t' := CanComplete(Under(h), size, d, IdOf(C), cmd, TreeFor(h, C, [Y], size));
    ContestedByX(h, size, d);
    SharedIsCollisionFree(h, size, d);
    UncontestedIffCollisionFree(Under(h), d, after, cmd);
  }

  lemma TwinApart(h: Hmac)
    ensures IdOf(Twin()) != IdOf(A) && IdOf(Twin()) != IdOf(B) && IdOf(Twin()) != IdOf(C)
    ensures IdOf(Twin()) != IdOf(X) && IdOf(Twin()) != IdOf(Y)
    ensures Digest(Twin())[..4] == Digest(X)[..4] && KeyId(Under(h), Twin()) == IdOf(Twin())
  {
    DistinctIds(Twin(), A, 0);
    DistinctIds(Twin(), B, 0);
    DistinctIds(Twin(), C, 0);
    DistinctIds(Twin(), Y, 0);
    DistinctIds(Twin(), X, 4);
    SameIds(h, Twin());
  }

  lemma AddIsCompletable(h: Hmac, size: RecordSize, d: Repo)
    requires IsShared(h, size, d)
    ensures Completable(Under(h), size, d, TreeFor(h, C, [Y], size), Add(Spec(Twin()), None, false, false))
  {
    SameIds(h, Twin());
    AddFits(h, size);
    TwinIsPlaceable(h, size, d, C);
    NotListed(PeersFor([Y], size), Twin());
    RoomForTwo(size);
  }

  lemma TwinIsPlaceable(h: Hmac, size: RecordSize, d: Repo, id: Bytes32)
    requires IsShared(h, size, d)
    ensures Placeable(Under(h), size, Spec(Twin()), None, false, d, id)
  {
    TwinApart(h);
    PeerFits(Twin(), size);
    NotAmongFive(d, IdOf(Twin()), IdOf(A), IdOf(B), IdOf(C), IdOf(X), IdOf(Y));
    NewIsPlaceable(Under(h), size, Spec(Twin()), d, id);
  }

  lemma NotAmongFive(d: Repo, k: string, k1: string, k2: string, k3: string, k4: string, k5: string)
    requires d.Keys == {k1, k2, k3, k4, k5} && k != k1 && k != k2 && k != k3 && k != k4 && k != k5
    ensures k !in d
  {
    assert k !in d.Keys;
  }

  lemma NewIsPlaceable(c: Crypto, size: RecordSize, spec: PeerSpec, d: Repo, id: Bytes32)
    requires KeyId(c, spec.pub) !in d && P.Encode(RecordOf(spec, []), size).Some?
    ensures Placeable(c, size, spec, None, false, d, id)
  {}

  lemma NotListed(peers: seq<TreePeer>, pub: Bytes32)
    requires |peers| == 1 && peers[0].pub[0] != pub[0]
    ensures IndexOf(peers, pub) == |peers|
  {}

  lemma RoomForTwo(size: RecordSize)
    ensures 2 <= M.MaxPeers(size)
  {}

  lemma AddFits(h: Hmac, size: RecordSize)
    ensures var t := TreeFor(h, C, [Y], size);
      && t.iface.peerRefs == RefsFor([Y]) && Digest(Twin())[..4] !in t.iface.peerRefs
      && I.Encode(Edited(t.iface, t.iface.peerRefs + [Digest(Twin())[..4]]), size).Some?
  {
    var t := TreeFor(h, C, [Y], size);
    KeysApart(2, 4);
    TwinApart(h);
    assert RefsFor([Y]) == [Digest(Y)[..4]];
    OnePrefix(Prefix(V4([10, 0, 0, 7]), 32));
    var more := Edited(t.iface, t.iface.peerRefs + [Digest(Twin())[..4]]);
    assert t.iface.addrs == [Prefix(V4([10, 0, 0, 7]), 32)] && t.iface.dns == [];
    I.EncodeSucceeds(more, size);
    assert I.Budget(more) <= 64;
  }

  lemma ContestedByX(h: Hmac, size: RecordSize, d: Repo)
    requires IsShared(h, size, d)
    ensures !Uncontested(Under(h), d, Add(Spec(Twin()), None, false, false))
  {
    TwinApart(h);
    SameIds(h, X);
    SameIds(h, Twin());
    SharedPeers(h, size, d);
    assert IsPeerKid(d, IdOf(X)) && RefOfKid(IdOf(X)) == Some(MakeRef(Under(h), Twin()));
  }

  // ----- commands that unseal another identity, and one's own

  /** The same peer with a keepalive. */
  function Revised(): PeerSpec {
    Spec(X).(keepalive := 25)
  }

  lemma RevisedDiffers(size: RecordSize)
    ensures P.Encode(RecordOf(Revised(), []), size).Some?
    ensures P.Encode(RecordOf(Revised(), []), size) != Some(PeerBytes(X, size))
  {
    var rec, was := RecordOf(Revised(), []), RecordOf(Spec(X), []);
    PeerFits(X, size);
    OnePrefix(Prefix(V4([0, 0, 0, 0]), 0));
    P.EncodeSucceeds(rec, size);
    assert rec == was.(keepalive := 25);
    assert P.Budget(rec) <= 64;
    P.DecodeOfEncode(rec, size);
    P.DecodeOfEncode(was, size);
    assert P.Canon(rec).keepalive != P.Canon(was).keepalive;
  }

  lemma UpdateIsCompletable(h: Hmac, size: RecordSize, d: Repo, id: Bytes32, pubs: seq<Bytes32>)
    requires |pubs| > 0 && pubs[0] == X
    ensures Completable(Under(h), size, d, TreeFor(h, id, pubs, size), Update(Revised(), Keep))
    ensures var t := TreeFor(h, id, pubs, size);
            IndexOf(t.peers, X) == 0 && t.peers[0] == PeerFor(X, size)
            && UpdatedRecord(Under(h), size, Revised(), id, t.peers[0], Keep) == P.Encode(RecordOf(Revised(), []), size)
  {
    RevisedDiffers(size);
    assert PeerFor(X, size).rec.psk == [];
  }

  /** X's record is not what it was when an update has run its course on it, or half of it. */
  lemma XIsNotSpared(h: Hmac, size: RecordSize, d: Repo, id: Bytes32, pubs: seq<Bytes32>, e: Edit)
    requires |pubs| > 0 && pubs[0] == X
    requires Realizes(Under(h), size, d, TreeFor(h, id, pubs, size), Update(Revised(), Keep), e)
    ensures !Spared(Under(h), Update(Revised(), Keep), e, PeerFor(X, size))
  {
    SameIds(h, X);
    UpdateIsCompletable(h, size, d, id, pubs);
    RevisedDiffers(size);
  }

  /** B updates X. The command completes, and A, which refers to X too, no longer loads. */
  lemma UpdateUnsealsAnother(size: RecordSize) returns (d: Repo, after: Repo, e: Edit, t': Tree)
    ensures IsShared(Exact(size), size, d)
    ensures LoadsHere(Under(Exact(size)), size, d, IdOf(A), TreeFor(Exact(size), A, [X], size))
    ensures Completed(Under(Exact(size)), size, d, after, IdOf(B), Update(Revised(), Keep),
              TreeFor(Exact(size), B, [X, Y], size), e, t')
    ensures forall v :: !LoadsHere(Under(Exact(size)), size, after, IdOf(A), v)
  {
    var h := Exact(size);
    d := SharedExists(h, size);
    AIsSealedOver(size, d);
    BLoads(h, size, d);
    UpdateIsCompletable(h, size, d, B, [X, Y]);
    after, e, t' := CanComplete(Under(h), size, d, IdOf(B), Update(Revised(), Keep), TreeFor(h, B, [X, Y], size));
    XIsNotSpared(h, size, d, B, [X, Y], e);
    AIsUnsealed(size, d, after, Update(Revised(), Keep), e, t');
  }

  /** B removes X and its key. The command completes, and A no longer loads. */
  lemma DeleteUnsealsAnother(size: RecordSize) returns (d: Repo, after: Repo, e: Edit, t': Tree)
    ensures IsShared(Exact(size), size, d)
    ensures LoadsHere(Under(Exact(size)), size, d, IdOf(A), TreeFor(Exact(size), A, [X], size))
    ensures Completed(Under(Exact(size)), size, d, after, IdOf(B), Remove(X, true),
              TreeFor(Exact(size), B, [X, Y], size), e, t')
    ensures forall v :: !LoadsHere(Under(Exact(size)), size, after, IdOf(A), v)
  {
    var h := Exact(size);
    d := SharedExists(h, size);
    AIsSealedOver(size, d);
    BLoads(h, size, d);
    assert TreeFor(h, B, [X, Y], size).peers[0].pub == X;
    after, e, t' := CanComplete(Under(h), size, d, IdOf(B), Remove(X, true), TreeFor(h, B, [X, Y], size));
    SameIds(h, X);
    AIsUnsealed(size, d, after, Remove(X, true), e, t');
  }

  lemma AIsUnsealed(size: RecordSize, d: Repo, after: Repo, cmd: Command, e: Edit, t': Tree)
    requires IsShared(Exact(size), size, d)
    requires Completed(Under(Exact(size)), size, d, after, IdOf(B), cmd, TreeFor(Exact(size), B, [X, Y], size), e, t')
    requires !Spared(Under(Exact(size)), cmd, e, PeerFor(X, size))
    ensures forall v :: !LoadsHere(Under(Exact(size)), size, after, IdOf(A), v)
  {
    var h, t := Exact(size), TreeFor(Exact(size), A, [X], size);
    AIsSealedOver(size, d);
    AllApart();
    forall v | LoadsHere(Under(h), size, after, IdOf(A), v)
      ensures !Coincidence(Under(h), d[IdOf(A)].pub, Some(MessageOf(Under(h), size, t)),
                Some(MessageOf(Under(h), size, v)))
    {
      NothingCoincides(size, d[IdOf(A)].pub, MessageOf(Under(h), size, v));
    }
    OthersAfterCommand(Under(h), size, d, after, IdOf(B), cmd, TreeFor(h, B, [X, Y], size), e, t', IdOf(A), t);
    assert t.peers[0] == PeerFor(X, size);
  }

  /** A updates X and is stopped before the reseal: A itself no longer loads. */
  lemma HalfwayUnloads(size: RecordSize) returns (d: Repo, mid: Repo, e: Edit)
    ensures IsShared(Exact(size), size, d)
    ensures Halfway(Under(Exact(size)), size, d, mid, IdOf(A), Update(Revised(), Keep),
              TreeFor(Exact(size), A, [X], size), e)
    ensures forall v :: !LoadsHere(Under(Exact(size)), size, mid, IdOf(A), v)
  {
    var h, t := Exact(size), TreeFor(Exact(size), A, [X], size);
    d := SharedExists(h, size);
    AIsSealedOver(size, d);
    UpdateIsCompletable(h, size, d, A, [X]);
    var np;
    np, mid := UpdateEnters(Under(h), size, d, IdOf(A), Update(Revised(), Keep), t);
    e := Replaced(np);
    XIsNotSpared(h, size, d, A, [X], e);
    forall v | LoadsHere(Under(h), size, mid, IdOf(A), v)
      ensures !Coincidence(Under(h), d[IdOf(A)].pub, Some(MessageOf(Under(h), size, t)),
                Some(MessageOf(Under(h), size, v)))
    {
      NothingCoincides(size, d[IdOf(A)].pub, MessageOf(Under(h), size, v));
    }
    AfterHalfway(Under(h), size, d, mid, IdOf(A), Update(Revised(), Keep), t, e);
    assert t.peers[0] == PeerFor(X, size);
  }

  // ----- two keys with one reference that are never there together

  /** Deleting X and then adding its twin is clear throughout, although the two share a reference. */
  lemma ReplacedByTwin(h: Hmac, size: RecordSize, d: Repo)
    requires IsShared(h, size, d)
    ensures var cmds := [Remove(X, true), Add(Spec(Twin()), None, false, false)];
            ClearThroughout(Under(h), d, cmds) && !ClearInAnyOrder(Under(h), d, cmds)
  {
    var cmds := [Remove(X, true), Add(Spec(Twin()), None, false, false)];
    TwinApart(h);
    KeysApart(2, 4);
    SameIds(h, X);
    SameIds(h, Y);
    SameIds(h, Twin());
    SharedPeers(h, size, d);
    var first := cmds[..1];
    assert first == [Remove(X, true)] && first[..0] == [];
    assert cmds[..2] == cmds;
    forall k | PeerOver(Under(h), d, first, k) ensures k == IdOf(Y) {
      assert PeerOver(Under(h), d, first[..0], k) <==> IsPeerKid(d, k);
    }
    assert UncontestedAfter(Under(h), d, first, cmds[1]);
    assert ClearThroughout(Under(h), d, first);
    assert MayBePeer(Under(h), d, cmds, IdOf(X));
    assert cmds[1].Add? && CommandKey(Under(h), cmds[1]) == IdOf(Twin());
    assert MayBePeer(Under(h), d, cmds, IdOf(Twin()));
  }
}
