/** What a device's key repository holds, and what it means for an identity to load from it. */
module Repository {
  import opened Base
  import opened Tlv
  import opened Kid
  import opened Mac
  import I = InterfaceRecord
  import P = PeerRecord

  datatype Entry = Entry(pub: bytes, hasPrivate: bool, title: string, descr: bytes)

  type Repo = map<string, Entry>

  /** Public keys by identifier: read from the device, or handed over by somebody who has. */
  type Ring = map<string, bytes>

  function DeviceRing(repo: Repo): Ring {
    map k | k in repo :: repo[k].pub
  }

  /** The descr field holds no more than a record; the device enforces it. */
  predicate WithinCapacity(repo: Repo, size: RecordSize) {
    forall k :: k in repo ==> |repo[k].descr| <= size
  }

  /** A WG:pr: record under an identifier this client can make sense of. */
  predicate IsPeerKid(repo: Repo, k: string) {
    k in repo && MAGIC_PEER <= repo[k].descr && RefOfKid(k).Some?
  }

  ghost predicate CollisionFree(repo: Repo) {
    forall j, k :: IsPeerKid(repo, j) && IsPeerKid(repo, k) && RefOfKid(j) == RefOfKid(k) ==> j == k
  }

  datatype TreePeer = TreePeer(kid: string, title: string, pub: Bytes32, raw: bytes, rec: P.Peer)

  datatype Tree = Tree(
    ifKid: string, ifLabel: string, ifPub: Bytes32, ifRaw: bytes, iface: I.Interface, peers: seq<TreePeer>)

  function Records(peers: seq<TreePeer>): seq<Record> {
    Map((p: TreePeer) => Record(p.pub, p.raw), peers)
  }

  /** resolve: the key an identifier names, refused unless it hashes to that identifier. */
  function Resolve(c: Crypto, ring: Ring, kid: string): Option<Bytes32> {
    if kid in ring && |ring[kid]| == 32 && KeyId(c, ring[kid]) == kid then Some(ring[kid]) else None
  }

  function LoadPeer(c: Crypto, size: RecordSize, repo: Repo, ring: Ring, k: string): Option<TreePeer>
    requires k in repo
  {
    var e := repo[k];
    match Resolve(c, ring, k)
    case None => None
    case Some(pub) =>
      match Normalize(e.descr, size)
      case None => None
      case Some(raw) =>
        match P.Decode(raw, size)
        case None => None
        case Some(rec) => Some(TreePeer(k, e.title, pub, raw, rec))
  }

  /** mac.Verify: a MAC is there, and it is the one the device computes for this tree. */
  ghost predicate Verifies(c: Crypto, size: RecordSize, key: Entry, ifPub: Bytes32, ifRaw: bytes, peers: seq<Record>) {
    && I.Decode(ifRaw, size).Some?
    && I.Decode(ifRaw, size).value.hasMac
    && Canonical(c, ifPub, ifRaw, peers, size).Some?
    && key.hasPrivate
    && c.hmac(key.pub, Canonical(c, ifPub, ifRaw, peers, size).value) == I.Decode(ifRaw, size).value.mac
  }

  /** The interface half of a loaded tree. */
  predicate InterfaceLoads(c: Crypto, size: RecordSize, repo: Repo, ring: Ring, kid: string, t: Tree) {
    && kid in repo && MAGIC_INTERFACE <= repo[kid].descr
    && t.ifKid == kid && t.ifLabel == repo[kid].title
    && Normalize(repo[kid].descr, size) == Some(t.ifRaw)
    && I.Decode(t.ifRaw, size) == Some(t.iface)
    && t.iface.peerRefs != []
    && Resolve(c, ring, kid) == Some(t.ifPub)
  }

  /** Each peer is the record its reference names, in reference order. */
  predicate PeersLoad(c: Crypto, size: RecordSize, repo: Repo, ring: Ring, refs: seq<Bytes4>, peers: seq<TreePeer>) {
    && |peers| == |refs|
    && forall i :: 0 <= i < |peers| ==>
         && IsPeerKid(repo, peers[i].kid)
         && RefOfKid(peers[i].kid) == Some(refs[i])
         && LoadPeer(c, size, repo, ring, peers[i].kid) == Some(peers[i])
  }

  /** `t` is the authenticated tree that loading identity `kid` yields. */
  ghost predicate Loads(c: Crypto, size: RecordSize, repo: Repo, ring: Ring, kid: string, t: Tree) {
    && InterfaceLoads(c, size, repo, ring, kid, t)
    && CollisionFree(repo)
    && PeersLoad(c, size, repo, ring, t.iface.peerRefs, t.peers)
    && Verifies(c, size, repo[kid], t.ifPub, t.ifRaw, Records(t.peers))
  }

  /** Loading with the public keys read from the device itself. */
  ghost predicate LoadsHere(c: Crypto, size: RecordSize, repo: Repo, kid: string, t: Tree) {
    Loads(c, size, repo, DeviceRing(repo), kid, t)
  }

  // ----- a repository determines the tree

  lemma LoadsUnique(c: Crypto, size: RecordSize, repo: Repo, ring: Ring, kid: string, t: Tree, u: Tree)
    requires Loads(c, size, repo, ring, kid, t) && Loads(c, size, repo, ring, kid, u)
    ensures t == u
  {
    forall i | 0 <= i < |t.peers| ensures t.peers[i] == u.peers[i] {
      assert t.peers[i].kid == u.peers[i].kid;
    }
  }

  lemma LoadedPeer(c: Crypto, size: RecordSize, repo: Repo, ring: Ring, kid: string, t: Tree, i: nat)
    requires Loads(c, size, repo, ring, kid, t) && i < |t.peers|
    ensures MakeRef(c, t.peers[i].pub) == t.iface.peerRefs[i]
    ensures KeyId(c, t.peers[i].pub) == t.peers[i].kid != kid
    ensures |t.peers[i].raw| == size && P.Decode(t.peers[i].raw, size) == Some(t.peers[i].rec)
  {
    var p := t.peers[i];
    assert LoadPeer(c, size, repo, ring, p.kid) == Some(p);
    RefOfKeyId(c, p.pub);
    assert repo[kid].descr[3] != repo[p.kid].descr[3];
  }

  /** The i-th peer hashes to the i-th reference. */
  lemma LoadedOrder(c: Crypto, size: RecordSize, repo: Repo, ring: Ring, kid: string, t: Tree)
    requires Loads(c, size, repo, ring, kid, t)
    ensures InOrder(c, t.iface.peerRefs, Records(t.peers))
    ensures FullLength(Records(t.peers), size) && |t.ifRaw| == size
  {
    forall i | 0 <= i < |t.peers|
      ensures MakeRef(c, t.peers[i].pub) == t.iface.peerRefs[i] && |t.peers[i].raw| == size
    {
      LoadedPeer(c, size, repo, ring, kid, t, i);
    }
  }

  /** No peer appears twice in a loaded tree. */
  lemma LoadedDistinct(c: Crypto, size: RecordSize, repo: Repo, ring: Ring, kid: string, t: Tree)
    requires Loads(c, size, repo, ring, kid, t)
    ensures forall i, j :: 0 <= i < j < |t.peers| ==> t.peers[i].kid != t.peers[j].kid
  {
    var refs := t.iface.peerRefs;
    MatchedKeysDistinct(c, refs, Records(t.peers));
    forall i, j | 0 <= i < j < |t.peers| ensures t.peers[i].kid != t.peers[j].kid {
      assert refs[i] != refs[j];
    }
  }

  /** What a tree reads off: its own entry and its peers'. Nothing else can change it. */
  predicate SameFor(before: Repo, after: Repo, kid: string, t: Tree) {
    && kid in before && kid in after && after[kid] == before[kid]
    && forall i :: 0 <= i < |t.peers| ==>
         t.peers[i].kid in before && t.peers[i].kid in after && after[t.peers[i].kid] == before[t.peers[i].kid]
  }

  /** Records the tree does not refer to may come and go, as long as no two references collide. */
  lemma LoadsStable(c: Crypto, size: RecordSize, before: Repo, after: Repo, kid: string, t: Tree)
    requires LoadsHere(c, size, before, kid, t)
    requires SameFor(before, after, kid, t)
    ensures LoadsHere(c, size, after, kid, t) <==> CollisionFree(after)
  {
    var r1, r2 := DeviceRing(before), DeviceRing(after);
    assert Resolve(c, r1, kid) == Resolve(c, r2, kid);
    forall i | 0 <= i < |t.peers|
      ensures IsPeerKid(after, t.peers[i].kid)
      ensures LoadPeer(c, size, after, r2, t.peers[i].kid) == Some(t.peers[i])
    {
      SameEntryLoads(c, size, before, after, t.peers[i]);
    }
  }

  lemma SameEntryLoads(c: Crypto, size: RecordSize, before: Repo, after: Repo, p: TreePeer)
    requires IsPeerKid(before, p.kid) && p.kid in after && after[p.kid] == before[p.kid]
    requires LoadPeer(c, size, before, DeviceRing(before), p.kid) == Some(p)
    ensures IsPeerKid(after, p.kid) && LoadPeer(c, size, after, DeviceRing(after), p.kid) == Some(p)
  {
    assert Resolve(c, DeviceRing(before), p.kid) == Resolve(c, DeviceRing(after), p.kid);
  }

  /** One colliding pair of peer records, whoever they belong to, and no identity loads. */
  lemma CollisionStopsEveryone(c: Crypto, size: RecordSize, repo: Repo, ring: Ring, j: string, k: string)
    requires IsPeerKid(repo, j) && IsPeerKid(repo, k) && j != k && RefOfKid(j) == RefOfKid(k)
    ensures forall kid, t :: !Loads(c, size, repo, ring, kid, t)
  {
    assert !CollisionFree(repo);
  }

  /** Supplied keys cannot change the tree short of a second preimage of an identifier. */
  lemma RingInsensitive(c: Crypto, size: RecordSize, repo: Repo, r1: Ring, r2: Ring, kid: string, t: Tree, u: Tree)
    requires Loads(c, size, repo, r1, kid, t) && Loads(c, size, repo, r2, kid, u)
    requires forall k :: k in r1 && k in r2 && KeyId(c, r1[k]) == KeyId(c, r2[k]) ==> r1[k] == r2[k]
    ensures t == u
  {
    assert r1[kid] == r2[kid];
    forall i | 0 <= i < |t.peers| ensures t.peers[i] == u.peers[i] {
      var k := t.peers[i].kid;
      assert k == u.peers[i].kid;
      SameKeySamePeer(c, size, repo, r1, r2, k, t.peers[i], u.peers[i]);
    }
  }

  lemma SameKeySamePeer(c: Crypto, size: RecordSize, repo: Repo, r1: Ring, r2: Ring, k: string, p: TreePeer,
      q: TreePeer)
    requires k in repo && LoadPeer(c, size, repo, r1, k) == Some(p) && LoadPeer(c, size, repo, r2, k) == Some(q)
    requires k in r1 && k in r2 && KeyId(c, r1[k]) == KeyId(c, r2[k]) ==> r1[k] == r2[k]
    ensures p == q
  {}

  // ----- what writing a tree establishes

  function RefsOf(c: Crypto, peers: seq<TreePeer>): seq<Bytes4> {
    DerivedRefs(c, Records(peers))
  }

  /** A peer record is in place: the key it is filed under is its own, and it decodes. */
  predicate Stored(c: Crypto, size: RecordSize, repo: Repo, p: TreePeer) {
    && KeyId(c, p.pub) == p.kid && p.kid in repo
    && repo[p.kid].pub == p.pub && repo[p.kid].title == p.title
    && MAGIC_PEER <= repo[p.kid].descr
    && Normalize(repo[p.kid].descr, size) == Some(p.raw)
    && P.Decode(p.raw, size) == Some(p.rec)
  }

  /** The interface record under `kid` is `rec`, sealed over `peers` with that key's MAC. */
  ghost predicate Sealed(c: Crypto, size: RecordSize, repo: Repo, kid: string, rec: I.Interface, sum: Bytes32,
      peers: seq<TreePeer>) {
    && rec.hasMac && rec.peerRefs == RefsOf(c, peers)
    && kid in repo && |repo[kid].pub| == 32 && repo[kid].hasPrivate
    && I.Encode(I.Unsigned(rec), size).Some?
    && I.Encode(rec.(mac := sum), size) == Some(repo[kid].descr)
    && var msg := Canonical(c, repo[kid].pub, I.Encode(I.Unsigned(rec), size).value, Records(peers), size);
       msg.Some? && sum == c.hmac(repo[kid].pub, msg.value)
  }

  /** The tree that a sealed record describes. */
  function SealedTree(repo: Repo, kid: string, rec: I.Interface, sum: Bytes32, peers: seq<TreePeer>): Tree
    requires kid in repo && |repo[kid].pub| == 32
  {
    Tree(kid, repo[kid].title, repo[kid].pub, repo[kid].descr, I.Canon(rec.(mac := sum)), peers)
  }

  lemma SealedInterface(c: Crypto, size: RecordSize, repo: Repo, kid: string, rec: I.Interface, sum: Bytes32,
      peers: seq<TreePeer>)
    requires Sealed(c, size, repo, kid, rec, sum, peers) && peers != [] && KeyId(c, repo[kid].pub) == kid
    ensures InterfaceLoads(c, size, repo, DeviceRing(repo), kid, SealedTree(repo, kid, rec, sum, peers))
  {
    var d := repo[kid].descr;
    I.DecodeOfEncode(rec.(mac := sum), size);
    assert d + Zeros(0) == d;
    assert d[..MAGIC_LEN] == MAGIC_INTERFACE;
  }

  lemma SealedVerifies(c: Crypto, size: RecordSize, repo: Repo, kid: string, rec: I.Interface, sum: Bytes32,
      peers: seq<TreePeer>)
    requires Sealed(c, size, repo, kid, rec, sum, peers)
    ensures Verifies(c, size, repo[kid], repo[kid].pub, repo[kid].descr, Records(peers))
  {
    I.DecodeOfEncode(rec.(mac := sum), size);
    SignedIsVerified(c, repo[kid].pub, rec, sum, Records(peers), size);
  }

  lemma StoredLoads(c: Crypto, size: RecordSize, repo: Repo, p: TreePeer)
    requires Stored(c, size, repo, p)
    ensures IsPeerKid(repo, p.kid) && RefOfKid(p.kid) == Some(MakeRef(c, p.pub))
    ensures LoadPeer(c, size, repo, DeviceRing(repo), p.kid) == Some(p)
  {
    RefOfKeyId(c, p.pub);
    assert Resolve(c, DeviceRing(repo), p.kid) == Some(p.pub);
  }

  /** A sealed tree with its peers in place loads, exactly when no two references collide. */
  lemma SealedLoads(c: Crypto, size: RecordSize, repo: Repo, kid: string, rec: I.Interface, sum: Bytes32,
      peers: seq<TreePeer>)
    requires Sealed(c, size, repo, kid, rec, sum, peers) && peers != [] && KeyId(c, repo[kid].pub) == kid
    requires forall i :: 0 <= i < |peers| ==> Stored(c, size, repo, peers[i])
    ensures LoadsHere(c, size, repo, kid, SealedTree(repo, kid, rec, sum, peers)) <==> CollisionFree(repo)
  {
    SealedInterface(c, size, repo, kid, rec, sum, peers);
    SealedVerifies(c, size, repo, kid, rec, sum, peers);
    StoredListLoads(c, size, repo, peers);
  }

  lemma StoredListLoads(c: Crypto, size: RecordSize, repo: Repo, peers: seq<TreePeer>)
    requires forall i :: 0 <= i < |peers| ==> Stored(c, size, repo, peers[i])
    ensures PeersLoad(c, size, repo, DeviceRing(repo), RefsOf(c, peers), peers)
  {
    forall i | 0 <= i < |peers|
      ensures IsPeerKid(repo, peers[i].kid) && RefOfKid(peers[i].kid) == Some(RefsOf(c, peers)[i])
      ensures LoadPeer(c, size, repo, DeviceRing(repo), peers[i].kid) == Some(peers[i])
    {
      StoredLoads(c, size, repo, peers[i]);
    }
  }

  // ----- what a loaded tree owes to a signature

  /** One call of Sign that went through: the key it used and everything it was given. */
  datatype SignCall = SignCall(key: bytes, ifPub: Bytes32, ifDescr: bytes, peers: seq<Record>, sum: Bytes32)

  ghost predicate Signed(c: Crypto, size: RecordSize, s: SignCall) {
    && |s.ifDescr| == size && FullLength(s.peers, size)
    && Canonical(c, s.ifPub, s.ifDescr, s.peers, size).Some?
    && s.sum == c.hmac(s.key, Canonical(c, s.ifPub, s.ifDescr, s.peers, size).value)
  }

  /** A pair that verifies although no logged call produced it. */
  ghost predicate Forged(c: Crypto, size: RecordSize, log: set<SignCall>, key: bytes, msg: bytes, sum: Bytes32) {
    && c.hmac(key, msg) == sum
    && forall s :: s in log && s.key == key && s.sum == sum ==>
         Canonical(c, s.ifPub, s.ifDescr, s.peers, size) != Some(msg)
  }

  /** The call authenticated this very tree: same keys, same records, same failover order. */
  ghost predicate Covers(c: Crypto, size: RecordSize, s: SignCall, key: bytes, t: Tree) {
    && s.key == key && s.sum == t.iface.mac && s.ifPub == t.ifPub
    && I.Decode(s.ifDescr, size).Some?
    && I.Unsigned(I.Decode(s.ifDescr, size).value) == I.Unsigned(t.iface)
    && multiset(s.peers) == multiset(Records(t.peers))
    && (InOrder(c, I.Decode(s.ifDescr, size).value.peerRefs, s.peers) ==> s.peers == Records(t.peers))
  }

  ghost function MessageOf(c: Crypto, size: RecordSize, t: Tree): bytes
    requires Canonical(c, t.ifPub, t.ifRaw, Records(t.peers), size).Some?
  {
    Canonical(c, t.ifPub, t.ifRaw, Records(t.peers), size).value
  }

  /** Some logged call authenticated the tree, or its message and MAC are a pair nothing produced. */
  ghost predicate Authentic(c: Crypto, size: RecordSize, log: set<SignCall>, key: bytes, t: Tree) {
    || (exists s :: s in log && Covers(c, size, s, key, t))
    || (Canonical(c, t.ifPub, t.ifRaw, Records(t.peers), size).Some?
        && Forged(c, size, log, key, MessageOf(c, size, t), t.iface.mac))
  }

  /** Whatever loads was signed, or is itself a forgery of the MAC. */
  lemma LoadedWasSigned(c: Crypto, size: RecordSize, repo: Repo, ring: Ring, kid: string, t: Tree, log: set<SignCall>)
    requires Loads(c, size, repo, ring, kid, t)
    requires forall s :: s in log ==> Signed(c, size, s)
    ensures Authentic(c, size, log, repo[kid].pub, t)
  {
    var key, msg := repo[kid].pub, MessageOf(c, size, t);
    if !Forged(c, size, log, key, msg, t.iface.mac) {
      var s :| s in log && s.key == key && s.sum == t.iface.mac
            && Canonical(c, s.ifPub, s.ifDescr, s.peers, size) == Some(msg);
      LoadedOrder(c, size, repo, ring, kid, t);
      CanonicalInjective(c, s.ifPub, s.ifDescr, s.peers, t.ifPub, t.ifRaw, Records(t.peers), size);
      if InOrder(c, I.Decode(s.ifDescr, size).value.peerRefs, s.peers) {
        CanonicalFixesFailover(c, s.ifPub, s.ifDescr, s.peers, t.ifPub, t.ifRaw, Records(t.peers), size);
      }
      assert Covers(c, size, s, key, t);
    }
  }

  /** Two different messages that happen to have the same MAC. */
  ghost predicate Coincidence(c: Crypto, key: bytes, m1: Option<bytes>, m2: Option<bytes>) {
    m1.Some? && m2.Some? && m1 != m2 && c.hmac(key, m1.value) == c.hmac(key, m2.value)
  }

  /** One key and one MAC value authenticate one tree: any two repositories in which an identity
      loads with them hold the same interface record and the same peers in the same order. */
  lemma OneMacOneTree(c: Crypto, size: RecordSize, repo1: Repo, ring1: Ring, t: Tree, repo2: Repo, ring2: Ring,
      u: Tree, kid: string)
    requires Loads(c, size, repo1, ring1, kid, t) && Loads(c, size, repo2, ring2, kid, u)
    requires repo1[kid].pub == repo2[kid].pub && t.iface.mac == u.iface.mac
    ensures || (t.ifPub == u.ifPub && t.ifRaw == u.ifRaw && Records(t.peers) == Records(u.peers))
            || Coincidence(c, repo1[kid].pub, Some(MessageOf(c, size, t)), Some(MessageOf(c, size, u)))
  {
    if MessageOf(c, size, t) == MessageOf(c, size, u) {
      LoadedOrder(c, size, repo1, ring1, kid, t);
      LoadedOrder(c, size, repo2, ring2, kid, u);
      CanonicalInjective(c, t.ifPub, t.ifRaw, Records(t.peers), u.ifPub, u.ifRaw, Records(u.peers), size);
      CanonicalFixesFailover(c, t.ifPub, t.ifRaw, Records(t.peers), u.ifPub, u.ifRaw, Records(u.peers), size);
      SameValueSameRecord(t.ifRaw, u.ifRaw, size);
    }
  }

  lemma SameValueSameRecord(r1: bytes, r2: bytes, size: RecordSize)
    requires |r1| == |r2| == size && I.Decode(r1, size).Some? && I.Decode(r2, size).Some?
    requires I.Unsigned(I.Decode(r1, size).value) == I.Unsigned(I.Decode(r2, size).value)
    requires I.Decode(r1, size).value.mac == I.Decode(r2, size).value.mac
    ensures r1 == r2
  {
    var i1, i2 := I.Decode(r1, size).value, I.Decode(r2, size).value;
    assert I.Unsigned(i1).(mac := i1.mac) == i1 && I.Unsigned(i2).(mac := i2.mac) == i2;
    I.EncodeOfDecode(r1, size);
    I.EncodeOfDecode(r2, size);
    assert r1 + Zeros(0) == r1 && r2 + Zeros(0) == r2;
  }

  /** The record a tree was sealed over is still what its key is stored with; the label may differ. */
  predicate StillThere(size: RecordSize, repo: Repo, p: TreePeer) {
    && p.kid in repo && repo[p.kid].pub == p.pub
    && MAGIC_PEER <= repo[p.kid].descr && Normalize(repo[p.kid].descr, size) == Some(p.raw)
  }

  /** Whatever is done to a referenced peer's key or record (changed, emptied, deleted, its place taken by
      another key with the same reference), every identity that refers to it is unsealed. */
  lemma ChangedPeerUnseals(c: Crypto, size: RecordSize, before: Repo, after: Repo, kid: string, t: Tree, i: nat,
      u: Tree)
    requires LoadsHere(c, size, before, kid, t) && i < |t.peers|
    requires kid in after && after[kid] == before[kid] && !StillThere(size, after, t.peers[i])
    requires LoadsHere(c, size, after, kid, u)
    ensures Coincidence(c, before[kid].pub, Some(MessageOf(c, size, t)), Some(MessageOf(c, size, u)))
  {
    OneMacOneTree(c, size, before, DeviceRing(before), t, after, DeviceRing(after), u, kid);
    if Records(t.peers) == Records(u.peers) {
      SameRecordsStillThere(c, size, before, after, kid, t, i, u);
    }
  }

  lemma SameRecordsStillThere(c: Crypto, size: RecordSize, before: Repo, after: Repo, kid: string, t: Tree, i: nat,
      u: Tree)
    requires LoadsHere(c, size, before, kid, t) && i < |t.peers| && LoadsHere(c, size, after, kid, u)
    requires Records(t.peers) == Records(u.peers)
    ensures StillThere(size, after, t.peers[i])
  {
    assert |u.peers| == |Records(u.peers)| == |t.peers|;
    assert Records(t.peers)[i] == Records(u.peers)[i];
    LoadedPeer(c, size, before, DeviceRing(before), kid, t, i);
    LoadedPeer(c, size, after, DeviceRing(after), kid, u, i);
    assert LoadPeer(c, size, after, DeviceRing(after), u.peers[i].kid) == Some(u.peers[i]);
  }

  /** Labels are not authenticated: the tree with the labels the repository has now. */
  function Relabelled(repo: Repo, peers: seq<TreePeer>): seq<TreePeer> {
    Map((p: TreePeer) => if p.kid in repo then p.(title := repo[p.kid].title) else p, peers)
  }

  lemma RelabelledLoads(c: Crypto, size: RecordSize, before: Repo, after: Repo, kid: string, t: Tree)
    requires LoadsHere(c, size, before, kid, t) && kid in after && after[kid] == before[kid]
    requires CollisionFree(after) && forall i :: 0 <= i < |t.peers| ==> StillThere(size, after, t.peers[i])
    ensures LoadsHere(c, size, after, kid, t.(peers := Relabelled(after, t.peers)))
  {
    var peers := Relabelled(after, t.peers);
    assert Resolve(c, DeviceRing(before), kid) == Resolve(c, DeviceRing(after), kid);
    forall i | 0 <= i < |peers|
      ensures IsPeerKid(after, peers[i].kid) && RefOfKid(peers[i].kid) == Some(t.iface.peerRefs[i])
      ensures LoadPeer(c, size, after, DeviceRing(after), peers[i].kid) == Some(peers[i])
    {
      RelabelledPeer(c, size, before, after, kid, t, i);
    }
    assert Records(peers) == Records(t.peers);
  }

  lemma RelabelledPeer(c: Crypto, size: RecordSize, before: Repo, after: Repo, kid: string, t: Tree, i: nat)
    requires LoadsHere(c, size, before, kid, t) && i < |t.peers| && StillThere(size, after, t.peers[i])
    ensures var p := t.peers[i].(title := after[t.peers[i].kid].title);
            && IsPeerKid(after, p.kid) && RefOfKid(p.kid) == Some(t.iface.peerRefs[i])
            && LoadPeer(c, size, after, DeviceRing(after), p.kid) == Some(p)
  {
    LoadedPeer(c, size, before, DeviceRing(before), kid, t, i);
    assert LoadPeer(c, size, before, DeviceRing(before), t.peers[i].kid) == Some(t.peers[i]);
    assert Resolve(c, DeviceRing(after), t.peers[i].kid) == Some(t.peers[i].pub);
  }

  /** Exactly what an identity's seal depends on: with its own entry unchanged it still loads if and only if
      every referenced record is still there and no references collide, short of two messages with one MAC. */
  lemma SealHolds(c: Crypto, size: RecordSize, before: Repo, after: Repo, kid: string, t: Tree)
    requires LoadsHere(c, size, before, kid, t) && kid in after && after[kid] == before[kid]
    requires forall u :: LoadsHere(c, size, after, kid, u) ==>
      !Coincidence(c, before[kid].pub, Some(MessageOf(c, size, t)), Some(MessageOf(c, size, u)))
    ensures (exists u :: LoadsHere(c, size, after, kid, u))
       <==> CollisionFree(after) && forall i :: 0 <= i < |t.peers| ==> StillThere(size, after, t.peers[i])
  {
    if CollisionFree(after) && forall i :: 0 <= i < |t.peers| ==> StillThere(size, after, t.peers[i]) {
      RelabelledLoads(c, size, before, after, kid, t);
    }
    if u :| LoadsHere(c, size, after, kid, u) {
      forall i | 0 <= i < |t.peers| ensures StillThere(size, after, t.peers[i]) {
        if !StillThere(size, after, t.peers[i]) {
          ChangedPeerUnseals(c, size, before, after, kid, t, i, u);
        }
      }
    }
  }
}
