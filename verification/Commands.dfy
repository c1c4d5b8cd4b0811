/** Maintaining a written configuration: peer add, remove and update, each followed by a reseal. */
module Commands {
  import opened Base
  import opened Tlv
  import opened Families
  import opened Kid
  import opened Repository
  import opened Device
  import opened Loader
  import opened Provision
  import M = Mac
  import I = InterfaceRecord
  import P = PeerRecord
  import Codec

  datatype PskAction = Keep | Drop | Replace(psk: bytes)

  datatype Command =
    | Add(spec: PeerSpec, psk: Option<bytes>, first: bool, adopt: bool)
    | Remove(pub: Bytes32, deleteKey: bool)
    | Update(spec: PeerSpec, action: PskAction)

  // ----- the peer list, edited

  datatype Edit = Prepended(p: TreePeer) | Appended(p: TreePeer) | Deleted(pub: Bytes32) | Replaced(p: TreePeer)

  /** Where a key is in the list, or its length when it is not. */
  function IndexOf(peers: seq<TreePeer>, pub: Bytes32): (i: nat)
    ensures i <= |peers| && (i < |peers| ==> peers[i].pub == pub)
    ensures forall j :: 0 <= j < i ==> peers[j].pub != pub
  {
    if peers == [] then 0 else if peers[0].pub == pub then 0 else 1 + IndexOf(peers[1..], pub)
  }

  function Without(peers: seq<TreePeer>, i: nat): seq<TreePeer>
    requires i < |peers|
  {
    peers[..i] + peers[i + 1..]
  }

  function Apply(peers: seq<TreePeer>, e: Edit): seq<TreePeer> {
    match e
    case Prepended(p) => [p] + peers
    case Appended(p) => peers + [p]
    case Deleted(pub) =>
      var i := IndexOf(peers, pub);
      if i < |peers| then Without(peers, i) else peers
    case Replaced(p) =>
      var i := IndexOf(peers, p.pub);
      if i < |peers| then peers[i := p] else peers
  }

  function ApplyAll(peers: seq<TreePeer>, edits: seq<Edit>): seq<TreePeer> {
    if edits == [] then peers else Apply(ApplyAll(peers, edits[..|edits| - 1]), edits[|edits| - 1])
  }

  /** The wrapped key an update leaves in the record. */
  function WrappedAfter(c: Crypto, ifPub: bytes, was: TreePeer, action: PskAction): bytes {
    match action
    case Keep => was.rec.psk
    case Drop => []
    case Replace(psk) => c.wrap(ifPub, PskContext(was.kid), psk)
  }

  function UpdatedRecord(c: Crypto, size: RecordSize, spec: PeerSpec, ifPub: bytes, was: TreePeer, action: PskAction)
    : Option<bytes>
  {
    P.Encode(RecordOf(spec, WrappedAfter(c, ifPub, was, action)), size)
  }

  /** The edit is the one this command asks for, given what was loaded. */
  predicate Realizes(c: Crypto, size: RecordSize, repo: Repo, t: Tree, cmd: Command, e: Edit) {
    match cmd
    case Add(spec, psk, first, adopt) =>
      && IndexOf(t.peers, spec.pub) == |t.peers|
      && (e.Prepended? || e.Appended?) && (e.Prepended? <==> first)
      && Entered(c, size, spec, psk, adopt, repo, t.ifPub, e.p)
    case Remove(pub, _) =>
      e == Deleted(pub) && IndexOf(t.peers, pub) < |t.peers| && |t.peers| > 1
    case Update(spec, action) =>
      var i := IndexOf(t.peers, spec.pub);
      && i < |t.peers| && e.Replaced?
      && e.p.pub == spec.pub && e.p.kid == t.peers[i].kid && e.p.title == spec.title
      && UpdatedRecord(c, size, spec, t.ifPub, t.peers[i], action) == Some(e.p.raw)
      && P.Decode(e.p.raw, size) == Some(e.p.rec) && RewrapFits(c, t.ifPub, t.peers[i], action)
  }

  // ----- what a command makes of the list, said without the edit

  /** The peer after an update: everything as given now, and the key kept, dropped or wrapped anew for this peer. */
  predicate Rewritten(c: Crypto, spec: PeerSpec, action: PskAction, ifPub: bytes, was: TreePeer, now: TreePeer) {
    && now.kid == was.kid && now.pub == was.pub && now.title == spec.title
    && now.rec.endpoint == spec.endpoint.Canon() && now.rec.allowedIPs == Grouped(spec.allowedIPs)
    && now.rec.keepalive == spec.keepalive
    && match action
       case Keep => now.rec.psk == was.rec.psk
       case Drop => now.rec.psk == []
       case Replace(psk) => |now.rec.psk| == 40 && now.rec.psk == c.wrap(ifPub, "ENC-WG-PSK-v2|" + was.kid, psk)
  }

  /** The new peer comes first or last as asked, and the others are behind or before it as they were. */
  predicate Added(c: Crypto, size: RecordSize, before: Repo, t: Tree, spec: PeerSpec, psk: Option<bytes>, first: bool,
      adopt: bool, peers: seq<TreePeer>) {
    && |peers| == |t.peers| + 1
    && (forall i :: 0 <= i < |t.peers| ==>
          t.peers[i].pub != spec.pub && t.peers[i] == peers[if first then i + 1 else i])
    && PeerAsRequested(c, size, spec, psk, adopt, before, t.ifPub, peers[if first then 0 else |t.peers|])
  }

  /** The peer with this key is gone, and it was not the only one. */
  predicate Gone(t: Tree, pub: Bytes32, peers: seq<TreePeer>) {
    1 <= |peers| && exists at :: 0 <= at < |t.peers| && t.peers[at].pub == pub && Passed(t.peers, at, peers)
  }

  /** `rest` is the list but for position `at`. */
  predicate Passed(peers: seq<TreePeer>, at: nat, rest: seq<TreePeer>) {
    && |rest| + 1 == |peers|
    && forall i :: 0 <= i < |rest| ==> rest[i] == peers[if i < at then i else i + 1]
  }

  /** The peer with this key is there and says what it was given; every other one is as it was. */
  predicate Revised(c: Crypto, t: Tree, spec: PeerSpec, action: PskAction, peers: seq<TreePeer>) {
    && |peers| == |t.peers| && (exists i :: 0 <= i < |t.peers| && t.peers[i].pub == spec.pub)
    && forall i :: 0 <= i < |peers| ==>
         if t.peers[i].pub == spec.pub then Rewritten(c, spec, action, t.ifPub, t.peers[i], peers[i])
         else peers[i] == t.peers[i]
  }

  predicate Delivered(c: Crypto, size: RecordSize, before: Repo, t: Tree, cmd: Command, peers: seq<TreePeer>) {
    match cmd
    case Add(spec, psk, first, adopt) => Added(c, size, before, t, spec, psk, first, adopt, peers)
    case Remove(pub, _) => Gone(t, pub, peers)
    case Update(spec, action) => Revised(c, t, spec, action, peers)
  }

  lemma AddDelivers(c: Crypto, size: RecordSize, before: Repo, t: Tree, cmd: Command, e: Edit)
    requires cmd.Add? && Realizes(c, size, before, t, cmd, e)
    ensures Added(c, size, before, t, cmd.spec, cmd.psk, cmd.first, cmd.adopt, Apply(t.peers, e))
  {
    EnteredMeans(c, size, cmd.spec, cmd.psk, cmd.adopt, before, t.ifPub, e.p);
    var peers := Apply(t.peers, e);
    assert peers[if cmd.first then 0 else |t.peers|] == e.p;
  }

  lemma RemoveDelivers(t: Tree, pub: Bytes32)
    requires IndexOf(t.peers, pub) < |t.peers| && |t.peers| > 1
    ensures Gone(t, pub, Apply(t.peers, Deleted(pub)))
  {
    assert Passed(t.peers, IndexOf(t.peers, pub), Apply(t.peers, Deleted(pub)));
  }

  lemma UpdateDelivers(c: Crypto, size: RecordSize, before: Repo, t: Tree, cmd: Command, e: Edit)
    requires cmd.Update? && Realizes(c, size, before, t, cmd, e)
    requires forall i, j :: 0 <= i < j < |t.peers| ==> t.peers[i].pub != t.peers[j].pub
    ensures Revised(c, t, cmd.spec, cmd.action, Apply(t.peers, e))
  {
    var i := IndexOf(t.peers, cmd.spec.pub);
    UpdatedMeans(c, size, cmd.spec, cmd.action, t.ifPub, t.peers[i], e.p);
  }

  lemma UpdatedMeans(c: Crypto, size: RecordSize, spec: PeerSpec, action: PskAction, ifPub: bytes, was: TreePeer,
      now: TreePeer)
    requires now.kid == was.kid && now.pub == was.pub && now.title == spec.title
    requires UpdatedRecord(c, size, spec, ifPub, was, action) == Some(now.raw)
    requires P.Decode(now.raw, size) == Some(now.rec) && RewrapFits(c, ifPub, was, action)
    ensures Rewritten(c, spec, action, ifPub, was, now)
  {
    P.DecodeOfEncode(RecordOf(spec, WrappedAfter(c, ifPub, was, action)), size);
  }

  /** Everything is as it was but for these two keys. */
  ghost predicate OnlyTheseTouched(before: Repo, after: Repo, kid: string, k: string) {
    forall j :: j != kid && j != k ==> (j in after <==> j in before) && (j in before ==> after[j] == before[j])
  }

  /** What becomes of the key a command is about. */
  predicate KeyTouched(before: Repo, after: Repo, k: string, cmd: Command) {
    match cmd
    case Add(spec, _, _, _) =>
      && k in after && after[k].pub == spec.pub
      && (if k in before then after[k] == before[k] else after[k].title == spec.title && !after[k].hasPrivate)
    case Remove(_, deleteKey) =>
      k in before && if deleteKey then k !in after else k in after && after[k] == before[k]
    case Update(spec, _) =>
      k in before && k in after && after[k] == before[k].(title := spec.title, descr := after[k].descr)
  }

  lemma OthersAreLeft(c: Crypto, before: Repo, after: Repo, kid: string, cmd: Command, e: Edit)
    requires RepoEdited(c, before, after, kid, cmd, e)
    ensures OnlyTheseTouched(before, after, kid, CommandKey(c, cmd))
  {
    forall j | j != kid && j != CommandKey(c, cmd)
      ensures (j in after <==> j in before) && (j in before ==> after[j] == before[j])
    {
      ElsewhereUntouched(c, before, cmd, e, j);
    }
  }

  lemma AddedKey(c: Crypto, size: RecordSize, before: Repo, after: Repo, kid: string, cmd: Command, t: Tree, e: Edit)
    requires cmd.Add? && RepoEdited(c, before, after, kid, cmd, e) && Realizes(c, size, before, t, cmd, e)
    ensures KeyTouched(before, after, CommandKey(c, cmd), cmd)
  {}

  lemma ChangedKey(c: Crypto, before: Repo, after: Repo, kid: string, cmd: Command, e: Edit)
    requires !cmd.Add? && RepoEdited(c, before, after, kid, cmd, e) && CommandKey(c, cmd) in before
    ensures KeyTouched(before, after, CommandKey(c, cmd), cmd)
  {}

  /** What a completed command leaves of the repository: the identity's key with another record, the key the command
      is about as it says, and everything else as it was. */
  lemma CompletedTouches(c: Crypto, size: RecordSize, before: Repo, after: Repo, kid: string, cmd: Command, t: Tree,
      e: Edit, t': Tree)
    requires Completed(c, size, before, after, kid, cmd, t, e, t')
    ensures var k := KeyId(c, if cmd.Remove? then cmd.pub else cmd.spec.pub);
            kid != k && OnlyTheseTouched(before, after, kid, k) && KeyTouched(before, after, k, cmd)
    ensures kid in before && kid in after && after[kid] == before[kid].(descr := after[kid].descr)
  {
    IdentityIsNoPeer(c, size, before, kid, t);
    OthersAreLeft(c, before, after, kid, cmd, e);
    if cmd.Add? {
      AddedKey(c, size, before, after, kid, cmd, t, e);
    } else {
      RemovedKey(c, size, before, kid, t, if cmd.Remove? then cmd.pub else cmd.spec.pub);
      ChangedKey(c, before, after, kid, cmd, e);
    }
  }

  /** The edit a command asks for delivers what the command promised. */
  lemma EditDelivers(c: Crypto, size: RecordSize, before: Repo, kid: string, t: Tree, cmd: Command, e: Edit)
    requires LoadsHere(c, size, before, kid, t) && Realizes(c, size, before, t, cmd, e)
    ensures Delivered(c, size, before, t, cmd, Apply(t.peers, e))
  {
    if cmd.Add? {
      AddDelivers(c, size, before, t, cmd, e);
    } else if cmd.Remove? {
      RemoveDelivers(t, cmd.pub);
    } else {
      LoadedPubsDistinct(c, size, before, kid, t);
      UpdateDelivers(c, size, before, t, cmd, e);
    }
  }

  lemma LoadedPubsDistinct(c: Crypto, size: RecordSize, repo: Repo, kid: string, t: Tree)
    requires LoadsHere(c, size, repo, kid, t)
    ensures forall i, j :: 0 <= i < j < |t.peers| ==> t.peers[i].pub != t.peers[j].pub
  {
    LoadedDistinct(c, size, repo, DeviceRing(repo), kid, t);
    forall i, j | 0 <= i < j < |t.peers| ensures t.peers[i].pub != t.peers[j].pub {
      LoadedPeer(c, size, repo, DeviceRing(repo), kid, t, i);
      LoadedPeer(c, size, repo, DeviceRing(repo), kid, t, j);
    }
  }

  // ----- reseal

  /** The interface record for a changed peer list: everything else as it was. */
  function Edited(i: I.Interface, refs: seq<Bytes4>): I.Interface {
    i.(peerRefs := refs, hasMac := true, mac := Zeros(32))
  }

  lemma LoadedStored(c: Crypto, size: RecordSize, repo: Repo, kid: string, t: Tree, i: nat)
    requires LoadsHere(c, size, repo, kid, t) && i < |t.peers|
    ensures Stored(c, size, repo, t.peers[i]) && t.peers[i].kid != kid
  {
    LoadedPeer(c, size, repo, DeviceRing(repo), kid, t, i);
    assert LoadPeer(c, size, repo, DeviceRing(repo), t.peers[i].kid) == Some(t.peers[i]);
  }

  /** `repo` is where an edit has left the device: the identity untouched, the peers in place. */
  predicate Ready(c: Crypto, size: RecordSize, repo: Repo, t: Tree, peers: seq<TreePeer>) {
    && t.ifKid in repo && repo[t.ifKid].pub == t.ifPub && KeyId(c, t.ifPub) == t.ifKid
    && peers != []
    && forall i :: 0 <= i < |peers| ==> Stored(c, size, repo, peers[i]) && peers[i].kid != t.ifKid
  }

  /** What the device then holds is the edited tree, and it loads unless references collide. */
  ghost predicate Resealed(c: Crypto, size: RecordSize, before: Repo, after: Repo, t: Tree, peers: seq<TreePeer>,
      t': Tree) {
    && t.ifKid in before && t.ifKid in after && after == before[t.ifKid := after[t.ifKid]]
    && !(MAGIC_PEER <= after[t.ifKid].descr)
    && after[t.ifKid] == before[t.ifKid].(title := t.ifLabel, descr := after[t.ifKid].descr)
    && I.Decode(after[t.ifKid].descr, size) == Some(t'.iface)
    && t'.ifKid == t.ifKid && t'.ifPub == t.ifPub && t'.ifLabel == t.ifLabel
    && t'.peers == peers
    && t'.iface == I.Canon(Edited(t.iface, RefsOf(c, peers)).(mac := t'.iface.mac))
    && (LoadsHere(c, size, after, t.ifKid, t') <==> CollisionFree(after))
  }

  lemma ReadyFull(c: Crypto, size: RecordSize, repo: Repo, t: Tree, peers: seq<TreePeer>)
    requires Ready(c, size, repo, t, peers)
    ensures M.FullLength(Records(peers), size)
  {
    forall i | 0 <= i < |peers| ensures |peers[i].raw| == size {
      assert Stored(c, size, repo, peers[i]);
    }
  }

  lemma StoredElsewhere(c: Crypto, size: RecordSize, before: Repo, after: Repo, t: Tree, peers: seq<TreePeer>)
    requires Ready(c, size, before, t, peers)
    requires t.ifKid in after && after == before[t.ifKid := after[t.ifKid]]
    ensures forall i :: 0 <= i < |peers| ==> Stored(c, size, after, peers[i])
  {
    forall i | 0 <= i < |peers| ensures Stored(c, size, after, peers[i]) {
      assert Stored(c, size, before, peers[i]) && peers[i].kid != t.ifKid;
    }
  }

  lemma SealedIsResealed(c: Crypto, size: RecordSize, before: Repo, after: Repo, t: Tree, peers: seq<TreePeer>,
      sum: Bytes32)
    requires Ready(c, size, before, t, peers)
    requires t.ifKid in after && after == before[t.ifKid := after[t.ifKid]]
    requires after[t.ifKid].pub == t.ifPub && after[t.ifKid].title == t.ifLabel
    requires after[t.ifKid].hasPrivate == before[t.ifKid].hasPrivate
    requires Sealed(c, size, after, t.ifKid, Edited(t.iface, RefsOf(c, peers)), sum, peers)
    ensures Resealed(c, size, before, after, t, peers,
      SealedTree(after, t.ifKid, Edited(t.iface, RefsOf(c, peers)), sum, peers))
  {
    StoredElsewhere(c, size, before, after, t, peers);
    var rec := Edited(t.iface, RefsOf(c, peers));
    SealedIsNoPeer(c, size, after, t.ifKid, rec, sum, peers);
    SealedLoads(c, size, after, t.ifKid, rec, sum, peers);
    assert I.Canon(rec.(mac := sum)).mac == sum;
    I.DecodeOfEncode(rec.(mac := sum), size);
  }

  lemma SealedIsNoPeer(c: Crypto, size: RecordSize, repo: Repo, kid: string, rec: I.Interface, sum: Bytes32,
      peers: seq<TreePeer>)
    requires Sealed(c, size, repo, kid, rec, sum, peers)
    ensures !(MAGIC_PEER <= repo[kid].descr)
  {
    assert repo[kid].descr[3] == MAGIC_INTERFACE[3];
  }

  /** Whether the interface record can be sealed over a peer list, given its private key. */
  predicate Sealable(c: Crypto, size: RecordSize, t: Tree, peers: seq<TreePeer>) {
    && Distinct(RefsOf(c, peers)) && |peers| <= M.MaxPeers(size)
    && I.Encode(Edited(t.iface, RefsOf(c, peers)), size).Some?
  }

  method Collect(c: Crypto, peers: seq<TreePeer>) returns (refs: seq<Bytes4>, records: seq<M.Record>)
    ensures refs == RefsOf(c, peers) && records == Records(peers)
  {
    refs, records := [], [];
    for i := 0 to |peers|
      invariant refs == RefsOf(c, peers[..i]) && records == Records(peers[..i])
    {
      refs := refs + [MakeRef(c, peers[i].pub)];
      records := records + [M.Record(peers[i].pub, peers[i].raw)];
    }
    assert peers[..|peers|] == peers;
  }

  /** Rewrite and re-authenticate the interface record for the current peer list. */
  method Reseal(dev: Hem, t: Tree, peers: seq<TreePeer>) returns (ok: bool, ghost t': Tree)
    requires dev.Valid() && Ready(dev.c, dev.size, dev.repo, t, peers)
    modifies dev
    ensures dev.Valid()
    ensures ok ==> Resealed(dev.c, dev.size, old(dev.repo), dev.repo, t, peers, t')
    ensures !ok ==> dev.repo == old(dev.repo) || Resealed(dev.c, dev.size, old(dev.repo), dev.repo, t, peers, t')
    ensures dev.steady ==> (ok <==> old(dev.repo)[t.ifKid].hasPrivate && Sealable(dev.c, dev.size, t, peers))
  {
    t' := t;
    var refs, records := Collect(dev.c, peers);
    ReadyFull(dev.c, dev.size, dev.repo, t, peers);
    var seal := SealInterface(dev, t.ifKid, t.ifLabel, t.ifPub, Edited(t.iface, refs), peers, records);
    if seal.NotWritten? {
      return false, t';
    }
    SealedIsResealed(dev.c, dev.size, old(dev.repo), dev.repo, t, peers, seal.sum);
    t' := SealedTree(dev.repo, t.ifKid, Edited(t.iface, RefsOf(dev.c, peers)), seal.sum, peers);
    return seal.verified, t';
  }

  // ----- when a command can complete

  /** Told from the repository and the tree that loads: what a command needs to run to its end. */
  predicate Completable(c: Crypto, size: RecordSize, repo: Repo, t: Tree, cmd: Command) {
    match cmd
    case Add(spec, psk, _, adopt) =>
      && IndexOf(t.peers, spec.pub) == |t.peers| && |t.peers| < M.MaxPeers(size)
      && MakeRef(c, spec.pub) !in t.iface.peerRefs
      && I.Encode(Edited(t.iface, t.iface.peerRefs + [MakeRef(c, spec.pub)]), size).Some?
      && Placeable(c, size, spec, psk, adopt, repo, t.ifPub)
    case Remove(pub, _) => IndexOf(t.peers, pub) < |t.peers| && |t.peers| > 1
    case Update(spec, action) =>
      var i := IndexOf(t.peers, spec.pub);
      && i < |t.peers| && RewrapFits(c, t.ifPub, t.peers[i], action)
      && UpdatedRecord(c, size, spec, t.ifPub, t.peers[i], action).Some?
  }

  ghost predicate CanRun(c: Crypto, size: RecordSize, repo: Repo, kid: string, cmd: Command) {
    exists t :: LoadsHere(c, size, repo, kid, t) && Completable(c, size, repo, t, cmd)
  }

  lemma CanRunOnly(c: Crypto, size: RecordSize, repo: Repo, kid: string, t: Tree, cmd: Command)
    requires LoadsHere(c, size, repo, kid, t)
    ensures CanRun(c, size, repo, kid, cmd) <==> Completable(c, size, repo, t, cmd)
  {
    if u :| LoadsHere(c, size, repo, kid, u) && Completable(c, size, repo, u, cmd) {
      LoadsUnique(c, size, repo, DeviceRing(repo), kid, t, u);
    }
  }

  /** Whether a record fits does not depend on the MAC in it, nor on the order of its references. */
  lemma SameBudget(i: I.Interface, j: I.Interface, size: RecordSize)
    requires j == i.(peerRefs := j.peerRefs, mac := j.mac) && |j.peerRefs| == |i.peerRefs|
    ensures I.Encode(i, size).Some? <==> I.Encode(j, size).Some?
  {
    I.EncodeSucceeds(i, size);
    I.EncodeSucceeds(j, size);
  }

  lemma SameRefsSealable(c: Crypto, size: RecordSize, t: Tree, peers: seq<TreePeer>, others: seq<TreePeer>)
    requires |peers| == |others| && forall i :: 0 <= i < |peers| ==> peers[i].pub == others[i].pub
    ensures Sealable(c, size, t, peers) <==> Sealable(c, size, t, others)
  {
    assert RefsOf(c, peers) == RefsOf(c, others);
  }

  /** A loaded tree can be sealed as it is. */
  lemma UpdateSealable(c: Crypto, size: RecordSize, repo: Repo, kid: string, t: Tree)
    requires LoadsHere(c, size, repo, kid, t)
    ensures Sealable(c, size, t, t.peers) && repo[kid].hasPrivate
  {
    LoadedIface(c, size, repo, kid, t);
    M.MatchedKeysDistinct(c, t.iface.peerRefs, Records(t.peers));
    I.EncodeOfDecode(t.ifRaw, size);
    SameBudget(t.iface, Edited(t.iface, t.iface.peerRefs), size);
  }

  lemma RefsWithout(c: Crypto, peers: seq<TreePeer>, i: nat)
    requires i < |peers| && Distinct(RefsOf(c, peers))
    ensures Distinct(RefsOf(c, Without(peers, i)))
  {
    var rest := Without(peers, i);
    forall m, n | 0 <= m < n < |rest| ensures RefsOf(c, rest)[m] != RefsOf(c, rest)[n] {
      var m', n' := if m < i then m else m + 1, if n < i then n else n + 1;
      assert rest[m] == peers[m'] && rest[n] == peers[n'];
      assert RefsOf(c, peers)[m'] != RefsOf(c, peers)[n'];
    }
  }

  lemma RemoveSealable(c: Crypto, size: RecordSize, repo: Repo, kid: string, t: Tree, i: nat)
    requires LoadsHere(c, size, repo, kid, t) && i < |t.peers|
    ensures Sealable(c, size, t, Without(t.peers, i)) && repo[kid].hasPrivate
  {
    UpdateSealable(c, size, repo, kid, t);
    RefsWithout(c, t.peers, i);
    I.EncodeSucceeds(Edited(t.iface, RefsOf(c, t.peers)), size);
    I.EncodeSucceeds(Edited(t.iface, RefsOf(c, Without(t.peers, i))), size);
  }

  lemma DistinctSnoc(refs: seq<Bytes4>, ref: Bytes4)
    requires Distinct(refs)
    ensures Distinct(refs + [ref]) <==> ref !in refs
    ensures Distinct([ref] + refs) <==> ref !in refs
  {
    if ref in refs {
      var i :| 0 <= i < |refs| && refs[i] == ref;
      assert (refs + [ref])[i] == (refs + [ref])[|refs|];
      assert ([ref] + refs)[0] == ([ref] + refs)[i + 1];
    }
  }

  lemma AddSealable(c: Crypto, size: RecordSize, repo: Repo, kid: string, t: Tree, pub: Bytes32, first: bool)
    requires LoadsHere(c, size, repo, kid, t)
    ensures repo[kid].hasPrivate
    ensures Sealable(c, size, t, Extended(c, t.peers, pub, first))
       <==> && |t.peers| < M.MaxPeers(size) && MakeRef(c, pub) !in t.iface.peerRefs
            && I.Encode(Edited(t.iface, t.iface.peerRefs + [MakeRef(c, pub)]), size).Some?
  {
    UpdateSealable(c, size, repo, kid, t);
    LoadedIface(c, size, repo, kid, t);
    ExtendedSealable(c, size, t, pub, first);
  }

  lemma ExtendedSealable(c: Crypto, size: RecordSize, t: Tree, pub: Bytes32, first: bool)
    requires t.iface.peerRefs == RefsOf(c, t.peers) && Distinct(RefsOf(c, t.peers))
    ensures Sealable(c, size, t, Extended(c, t.peers, pub, first))
       <==> && |t.peers| < M.MaxPeers(size) && MakeRef(c, pub) !in t.iface.peerRefs
            && I.Encode(Edited(t.iface, t.iface.peerRefs + [MakeRef(c, pub)]), size).Some?
  {
    var refs, ref, more := t.iface.peerRefs, MakeRef(c, pub), Extended(c, t.peers, pub, first);
    DistinctSnoc(refs, ref);
    assert RefsOf(c, more) == if first then [ref] + refs else refs + [ref];
    SameBudget(Edited(t.iface, RefsOf(c, more)), Edited(t.iface, refs + [ref]), size);
  }

  // ----- the commands

  function CommandKey(c: Crypto, cmd: Command): string {
    KeyId(c, if cmd.Remove? then cmd.pub else cmd.spec.pub)
  }

  /** The repository a command leaves, but for the identity's own record. */
  function RepoAfter(c: Crypto, before: Repo, cmd: Command, e: Edit): Repo {
    var k, raw := CommandKey(c, cmd), if e.Deleted? then [] else e.p.raw;
    match cmd
    case Add(spec, _, _, _) => if k in before then before else before[k := Entry(spec.pub, false, spec.title, raw)]
    case Remove(_, deleteKey) => if deleteKey then before - {k} else before
    case Update(spec, _) => if k in before then before[k := before[k].(title := spec.title, descr := raw)] else before
  }

  predicate PeerAfter(c: Crypto, before: Repo, cmd: Command, k: string) {
    match cmd
    case Add(_, _, _, _) => IsPeerKid(before, k) || k == CommandKey(c, cmd)
    case Remove(_, deleteKey) => IsPeerKid(before, k) && !(deleteKey && k == CommandKey(c, cmd))
    case Update(_, _) => IsPeerKid(before, k)
  }

  /** Checkable before the command: no other peer record has the reference of a key to be added. */
  ghost predicate Uncontested(c: Crypto, before: Repo, cmd: Command) {
    cmd.Add? ==>
      forall k :: IsPeerKid(before, k) && RefOfKid(k) == Some(MakeRef(c, cmd.spec.pub)) ==> k == CommandKey(c, cmd)
  }

  /** A completed command: the repository and the stored tree are the edited ones, and the tree loads exactly
      when a key it added is uncontested. */
  ghost predicate Completed(c: Crypto, size: RecordSize, before: Repo, after: Repo, kid: string, cmd: Command, t: Tree,
      e: Edit, t': Tree) {
    && LoadsHere(c, size, before, kid, t) && Realizes(c, size, before, t, cmd, e)
    && TreeEdited(c, kid, t, e, t')
    && RepoEdited(c, before, after, kid, cmd, e)
    && after[kid] == before[kid].(descr := after[kid].descr) && I.Decode(after[kid].descr, size) == Some(t'.iface)
    && (LoadsHere(c, size, after, kid, t') <==> Uncontested(c, before, cmd))
  }

  /** The edited list over an otherwise unchanged interface. */
  predicate TreeEdited(c: Crypto, kid: string, t: Tree, e: Edit, t': Tree) {
    && t'.peers == Apply(t.peers, e) && t'.peers != []
    && t'.ifKid == kid && t'.ifPub == t.ifPub && t'.ifLabel == t.ifLabel
    && t'.iface == I.Canon(Edited(t.iface, RefsOf(c, t'.peers)).(mac := t'.iface.mac))
  }

  /** Nothing in the repository is touched but the identity's record and the key the command is about. */
  ghost predicate RepoEdited(c: Crypto, before: Repo, after: Repo, kid: string, cmd: Command, e: Edit) {
    && kid in after && after == RepoAfter(c, before, cmd, e)[kid := after[kid]] && kid != CommandKey(c, cmd)
    && (forall k :: IsPeerKid(after, k) <==> PeerAfter(c, before, cmd, k))
  }

  /** A command that stopped between its own change and the reseal. */
  ghost predicate Halfway(c: Crypto, size: RecordSize, before: Repo, after: Repo, kid: string, cmd: Command, t: Tree,
      e: Edit) {
    && LoadsHere(c, size, before, kid, t) && Realizes(c, size, before, t, cmd, e)
    && after == RepoAfter(c, before, cmd, e) && kid != CommandKey(c, cmd)
    && (forall k :: IsPeerKid(after, k) <==> PeerAfter(c, before, cmd, k))
  }

  /** Whatever the peers' key is now stored with, the peer records there are follow from those there were. */
  lemma PeersAfterCommand(c: Crypto, before: Repo, cmd: Command, e: Edit, k: string)
    requires !cmd.Remove? ==> IsPeerKid(RepoAfter(c, before, cmd, e), CommandKey(c, cmd))
    requires cmd.Update? ==> IsPeerKid(before, CommandKey(c, cmd))
    ensures IsPeerKid(RepoAfter(c, before, cmd, e), k) <==> PeerAfter(c, before, cmd, k)
  {}

  lemma UncontestedIffCollisionFree(c: Crypto, before: Repo, after: Repo, cmd: Command)
    requires CollisionFree(before) && forall k :: IsPeerKid(after, k) <==> PeerAfter(c, before, cmd, k)
    ensures CollisionFree(after) <==> Uncontested(c, before, cmd)
  {
    if cmd.Add? {
      RefOfKeyId(c, cmd.spec.pub);
      assert IsPeerKid(after, CommandKey(c, cmd));
      assert forall k :: IsPeerKid(before, k) ==> IsPeerKid(after, k);
    }
  }

  /** A command's change, sealed, is a completed command. */
  lemma ResealCompletes(c: Crypto, size: RecordSize, before: Repo, after: Repo, kid: string, cmd: Command, t: Tree,
      e: Edit, t': Tree)
    requires Halfway(c, size, before, RepoAfter(c, before, cmd, e), kid, cmd, t, e) && Apply(t.peers, e) != []
    requires Resealed(c, size, RepoAfter(c, before, cmd, e), after, t, Apply(t.peers, e), t')
    ensures Completed(c, size, before, after, kid, cmd, t, e, t')
  {
    IdentityIsNoPeer(c, size, before, kid, t);
    ElsewhereUntouched(c, before, cmd, e, kid);
    ResealedPeers(c, before, RepoAfter(c, before, cmd, e), after, kid, cmd);
    UncontestedIffCollisionFree(c, before, after, cmd);
  }

  lemma IdentityIsNoPeer(c: Crypto, size: RecordSize, repo: Repo, kid: string, t: Tree)
    requires LoadsHere(c, size, repo, kid, t)
    ensures kid in repo && !IsPeerKid(repo, kid)
  {
    assert repo[kid].descr[3] == MAGIC_INTERFACE[3];
  }

  lemma ResealedPeers(c: Crypto, before: Repo, mid: Repo, after: Repo, kid: string, cmd: Command)
    requires forall k :: IsPeerKid(mid, k) <==> PeerAfter(c, before, cmd, k)
    requires kid in after && after == mid[kid := after[kid]] && !(MAGIC_PEER <= after[kid].descr)
    requires !IsPeerKid(before, kid) && kid != CommandKey(c, cmd)
    ensures forall k :: IsPeerKid(after, k) <==> PeerAfter(c, before, cmd, k)
  {
    forall k ensures IsPeerKid(after, k) <==> PeerAfter(c, before, cmd, k) {
      assert k != kid ==> (IsPeerKid(after, k) <==> IsPeerKid(mid, k));
    }
  }

  /** The reseal that finishes a command. */
  method SealEdit(dev: Hem, tree: Tree, peers: seq<TreePeer>, ghost before: Repo, ghost cmd: Command, ghost e: Edit)
    returns (ok: bool, ghost t': Tree)
    requires dev.Valid() && Ready(dev.c, dev.size, dev.repo, tree, peers) && peers == Apply(tree.peers, e)
    requires Halfway(dev.c, dev.size, before, dev.repo, tree.ifKid, cmd, tree, e)
    modifies dev
    ensures dev.Valid()
    ensures Completed(dev.c, dev.size, before, dev.repo, tree.ifKid, cmd, tree, e, t')
            || (!ok && dev.repo == old(dev.repo))
    ensures dev.steady ==> (ok <==> Sealable(dev.c, dev.size, tree, peers))
  {
    ElsewhereUntouched(dev.c, before, cmd, e, tree.ifKid);
    ok, t' := Reseal(dev, tree, peers);
    if Resealed(dev.c, dev.size, old(dev.repo), dev.repo, tree, peers, t') {
      ResealCompletes(dev.c, dev.size, before, dev.repo, tree.ifKid, cmd, tree, e, t');
    }
  }

  /** A loaded tree with one more record in place is ready to be resealed around it. */
  lemma ReadyWith(c: Crypto, size: RecordSize, before: Repo, mid: Repo, kid: string, t: Tree, p: TreePeer,
      peers: seq<TreePeer>)
    requires LoadsHere(c, size, before, kid, t) && Stored(c, size, mid, p) && p.kid != kid
    requires kid in mid && forall k :: k in before && k != p.kid ==> k in mid && mid[k] == before[k]
    requires peers != [] && forall q :: q in peers ==> q == p || (q in t.peers && q.kid != p.kid)
    ensures Ready(c, size, mid, t, peers)
  {
    forall i | 0 <= i < |peers| ensures Stored(c, size, mid, peers[i]) && peers[i].kid != kid {
      var q := peers[i];
      assert q in peers;
      if q != p {
        var j :| 0 <= j < |t.peers| && t.peers[j] == q;
        LoadedStored(c, size, before, kid, t, j);
      }
    }
  }

  lemma OwnKeyIsNoPeer(c: Crypto, size: RecordSize, repo: Repo, kid: string, t: Tree, p: TreePeer)
    requires LoadsHere(c, size, repo, kid, t) && Stored(c, size, repo, p)
    ensures p.kid != kid
  {
    assert repo[kid].descr[3] != repo[p.kid].descr[3];
  }

  /** The tree a command starts from. */
  method LoadTree(dev: Hem, kid: string, ghost cmd: Command) returns (r: Option<Tree>)
    requires dev.Valid()
    ensures r.Some? ==> LoadsHere(dev.c, dev.size, dev.repo, kid, r.value)
    ensures r.Some? ==>
      (CanRun(dev.c, dev.size, dev.repo, kid, cmd) <==> Completable(dev.c, dev.size, dev.repo, r.value, cmd))
    ensures dev.steady && r.None? ==> !CanRun(dev.c, dev.size, dev.repo, kid, cmd)
  {
    var loaded := LoadNamed(dev, None, kid);
    if loaded.Done? {
      CanRunOnly(dev.c, dev.size, dev.repo, kid, loaded.value, cmd);
      return Some(loaded.value);
    }
    if loaded.Rejected? && CanRun(dev.c, dev.size, dev.repo, kid, cmd) {
      RunsLoads(dev.c, dev.size, dev.repo, kid, cmd);
    }
    return None;
  }

  lemma RunsLoads(c: Crypto, size: RecordSize, repo: Repo, kid: string, cmd: Command)
    requires CanRun(c, size, repo, kid, cmd)
    ensures exists t :: Loads(c, size, repo, RingOf(repo, None), kid, t)
  {
    var t :| LoadsHere(c, size, repo, kid, t) && Completable(c, size, repo, t, cmd);
    assert Loads(c, size, repo, RingOf(repo, None), kid, t);
  }

  method PeerAdd(dev: Hem, kid: string, spec: PeerSpec, psk: Option<bytes>, first: bool, adopt: bool)
    returns (ok: bool, ghost t: Tree, ghost e: Edit, ghost t': Tree)
    requires dev.Valid()
    modifies dev
    ensures dev.Valid()
    ensures ok ==> Completed(dev.c, dev.size, old(dev.repo), dev.repo, kid, Add(spec, psk, first, adopt), t, e, t')
    ensures ok ==> Delivered(dev.c, dev.size, old(dev.repo), t, Add(spec, psk, first, adopt), t'.peers)
    ensures !ok ==>
      || dev.repo == old(dev.repo)
      || Halfway(dev.c, dev.size, old(dev.repo), dev.repo, kid, Add(spec, psk, first, adopt), t, e)
      || Completed(dev.c, dev.size, old(dev.repo), dev.repo, kid, Add(spec, psk, first, adopt), t, e, t')
    ensures dev.steady ==>
      (ok <==> CanRun(dev.c, dev.size, old(dev.repo), kid, Add(spec, psk, first, adopt)))
  {
    e := Deleted(spec.pub);
    var loaded := LoadTree(dev, kid, Add(spec, psk, first, adopt));
    if loaded.None? {
      t, t' := ArbitraryTree(), ArbitraryTree();
      return false, t, e, t';
    }
    var tree := loaded.value;
    t, t' := tree, tree;
    if IndexOf(tree.peers, spec.pub) < |tree.peers| || |tree.peers| + 1 > M.MaxPeers(dev.size) {
      return false, t, e, t';
    }
    var probe := tree.iface.(peerRefs := tree.iface.peerRefs + [MakeRef(dev.c, spec.pub)], hasMac := true);
    SameBudget(probe, Edited(tree.iface, probe.peerRefs), dev.size);
    var fits := Codec.EncodeInterface(probe, dev.size);
    if fits.None? {
      return false, t, e, t';
    }
    AddSealable(dev.c, dev.size, dev.repo, kid, tree, spec.pub, first);
    ok, e, t' := AddTree(dev, tree, spec, psk, first, adopt);
    if ok {
      EditDelivers(dev.c, dev.size, old(dev.repo), kid, tree, Add(spec, psk, first, adopt), e);
    }
  }

  method AddTree(dev: Hem, tree: Tree, spec: PeerSpec, psk: Option<bytes>, first: bool, adopt: bool)
    returns (ok: bool, ghost e: Edit, ghost t': Tree)
    requires dev.Valid() && LoadsHere(dev.c, dev.size, dev.repo, tree.ifKid, tree)
    requires IndexOf(tree.peers, spec.pub) == |tree.peers|
    modifies dev
    ensures dev.Valid()
    ensures var cmd := Add(spec, psk, first, adopt);
      || Completed(dev.c, dev.size, old(dev.repo), dev.repo, tree.ifKid, cmd, tree, e, t')
      || (!ok && (dev.repo == old(dev.repo)
                  || Halfway(dev.c, dev.size, old(dev.repo), dev.repo, tree.ifKid, cmd, tree, e)))
    ensures dev.steady ==>
      (ok <==> && Placeable(dev.c, dev.size, spec, psk, adopt, old(dev.repo), tree.ifPub)
               && Sealable(dev.c, dev.size, tree, Extended(dev.c, tree.peers, spec.pub, first)))
  {
    e, t' := Deleted(spec.pub), tree;
    var np := PlaceInTree(dev, tree, spec, psk, first, adopt);
    if np.None? {
      return false, e, t';
    }
    e := AddEdit(np.value, first);
    AddedSealable(dev.c, dev.size, tree, np.value, first);
    ok, t' := SealEdit(dev, tree, Apply(tree.peers, AddEdit(np.value, first)), old(dev.repo),
                       Add(spec, psk, first, adopt), e);
  }

  lemma AddedSealable(c: Crypto, size: RecordSize, t: Tree, p: TreePeer, first: bool)
    ensures Sealable(c, size, t, Apply(t.peers, AddEdit(p, first)))
       <==> Sealable(c, size, t, Extended(c, t.peers, p.pub, first))
  {
    SameRefsSealable(c, size, t, Apply(t.peers, AddEdit(p, first)), Extended(c, t.peers, p.pub, first));
  }

  function AddEdit(p: TreePeer, first: bool): Edit {
    if first then Prepended(p) else Appended(p)
  }

  /** The new peer's key and record, in the device, before the tree names it. */
  method PlaceInTree(dev: Hem, tree: Tree, spec: PeerSpec, psk: Option<bytes>, first: bool, adopt: bool)
    returns (r: Option<TreePeer>)
    requires dev.Valid() && LoadsHere(dev.c, dev.size, dev.repo, tree.ifKid, tree)
    requires IndexOf(tree.peers, spec.pub) == |tree.peers|
    modifies dev`repo
    ensures dev.Valid() && (r.None? ==> dev.repo == old(dev.repo))
    ensures r.Some? ==>
      && r.value.pub == spec.pub
      && Halfway(dev.c, dev.size, old(dev.repo), dev.repo, tree.ifKid, Add(spec, psk, first, adopt), tree,
                 AddEdit(r.value, first))
      && Ready(dev.c, dev.size, dev.repo, tree, Apply(tree.peers, AddEdit(r.value, first)))
    ensures dev.steady ==> (r.Some? <==> Placeable(dev.c, dev.size, spec, psk, adopt, old(dev.repo), tree.ifPub))
  {
    var placed, np := PlaceOne(dev, spec, psk, adopt, tree.ifKid);
    if !placed.Done? {
      return None;
    }
    var rec := Codec.DecodePeer(placed.value.0.descr, dev.size);
    assert rec == Some(np.rec);
    var kid := KeyId(dev.c, spec.pub);
    var p := TreePeer(kid, StoredTitle(dev.repo, kid), spec.pub, placed.value.0.descr, rec.value);
    assert p == np;
    AddHalfway(dev.c, dev.size, old(dev.repo), dev.repo, tree.ifKid, Add(spec, psk, first, adopt), tree,
               AddEdit(np, first), np);
    AddIsReady(dev.c, dev.size, old(dev.repo), dev.repo, tree.ifKid, tree, np, Apply(tree.peers, AddEdit(np, first)));
    return Some(p);
  }

  /** The list with a key in it whose record does not matter. */
  function Extended(c: Crypto, peers: seq<TreePeer>, pub: Bytes32, first: bool): seq<TreePeer> {
    var p := TreePeer(KeyId(c, pub), "", pub, [], P.EMPTY);
    if first then [p] + peers else peers + [p]
  }

  function StoredTitle(repo: Repo, kid: string): string {
    if kid in repo then repo[kid].title else ""
  }

  function ArbitraryTree(): Tree {
    Tree("", "", Zeros(32), [], I.EMPTY, [])
  }

  lemma NewPeerElsewhere(c: Crypto, size: RecordSize, before: Repo, mid: Repo, kid: string, t: Tree, np: TreePeer,
      j: nat)
    requires LoadsHere(c, size, before, kid, t) && Stored(c, size, mid, np) && j < |t.peers| && t.peers[j].pub != np.pub
    requires np.kid in before ==> mid == before
    ensures t.peers[j].kid != np.kid
  {
    LoadedStored(c, size, before, kid, t, j);
  }

  lemma InExtended(peers: seq<TreePeer>, np: TreePeer, more: seq<TreePeer>)
    requires more == [np] + peers || more == peers + [np]
    ensures more != [] && forall q :: q in more ==> q == np || q in peers
  {}

  lemma AddIsReady(c: Crypto, size: RecordSize, before: Repo, mid: Repo, kid: string, t: Tree, np: TreePeer,
      peers: seq<TreePeer>)
    requires LoadsHere(c, size, before, kid, t) && Stored(c, size, mid, np) && IndexOf(t.peers, np.pub) == |t.peers|
    requires np.kid in before ==> mid == before
    requires np.kid !in before ==> np.kid in mid && mid == before[np.kid := mid[np.kid]]
    requires peers == [np] + t.peers || peers == t.peers + [np]
    ensures Ready(c, size, mid, t, peers)
  {
    if np.kid in before {
      OwnKeyIsNoPeer(c, size, before, kid, t, np);
    }
    forall j | 0 <= j < |t.peers| ensures t.peers[j].kid != np.kid {
      NewPeerElsewhere(c, size, before, mid, kid, t, np, j);
    }
    LoadedKidsPresent(c, size, before, kid, t);
    InExtended(t.peers, np, peers);
    ReadyWith(c, size, before, mid, kid, t, np, peers);
  }

  lemma AddHalfway(c: Crypto, size: RecordSize, before: Repo, mid: Repo, kid: string, cmd: Command, t: Tree, e: Edit,
      np: TreePeer)
    requires cmd.Add? && LoadsHere(c, size, before, kid, t) && Realizes(c, size, before, t, cmd, e) && e.p == np
    requires Stored(c, size, mid, np) && (np.kid in before ==> mid == before)
    requires np.kid !in before ==> mid == before[np.kid := Entry(cmd.spec.pub, false, cmd.spec.title, np.raw)]
    ensures Halfway(c, size, before, mid, kid, cmd, t, e) && mid == RepoAfter(c, before, cmd, e)
  {
    StoredLoads(c, size, mid, np);
    if np.kid in before {
      OwnKeyIsNoPeer(c, size, before, kid, t, np);
    }
    forall k ensures IsPeerKid(mid, k) <==> PeerAfter(c, before, cmd, k) {
      PeersAfterCommand(c, before, cmd, e, k);
    }
  }

  // ----- remove

  lemma OthersHaveOtherKids(peers: seq<TreePeer>, i: nat)
    requires i < |peers| && |peers| > 1 && forall m, n :: 0 <= m < n < |peers| ==> peers[m].kid != peers[n].kid
    ensures forall n :: 0 <= n < |Without(peers, i)| ==> Without(peers, i)[n].kid != peers[i].kid
  {
    var rest := Without(peers, i);
    forall n | 0 <= n < |rest| ensures rest[n].kid != peers[i].kid {
      assert rest[n] == peers[if n < i then n else n + 1];
    }
  }

  lemma RemoveIsReady(c: Crypto, size: RecordSize, repo: Repo, kid: string, t: Tree, i: nat)
    requires LoadsHere(c, size, repo, kid, t) && i < |t.peers| && |t.peers| > 1
    ensures Ready(c, size, repo, t, Without(t.peers, i))
  {
    var rest := Without(t.peers, i);
    forall n | 0 <= n < |rest| ensures Stored(c, size, repo, rest[n]) && rest[n].kid != kid {
      LoadedStored(c, size, repo, kid, t, if n < i then n else n + 1);
    }
  }

  /** Dropping references and keys cannot make references collide. */
  lemma FewerPeersNoCollision(before: Repo, after: Repo)
    requires CollisionFree(before) && forall k :: IsPeerKid(after, k) ==> IsPeerKid(before, k)
    ensures CollisionFree(after)
  {}

  /** The peer that goes is filed under the key the command names. */
  lemma RemovedKey(c: Crypto, size: RecordSize, before: Repo, kid: string, t: Tree, pub: Bytes32)
    requires LoadsHere(c, size, before, kid, t) && IndexOf(t.peers, pub) < |t.peers|
    ensures var gone := t.peers[IndexOf(t.peers, pub)];
            gone.kid == KeyId(c, pub) && IsPeerKid(before, gone.kid) && gone.kid != kid
  {
    LoadedStored(c, size, before, kid, t, IndexOf(t.peers, pub));
    StoredLoads(c, size, before, t.peers[IndexOf(t.peers, pub)]);
  }

  /** A remove changes nothing before the reseal, and the rest of the list is ready for it. */
  lemma RemoveHalfway(c: Crypto, size: RecordSize, before: Repo, kid: string, t: Tree, pub: Bytes32)
    requires LoadsHere(c, size, before, kid, t) && IndexOf(t.peers, pub) < |t.peers| && |t.peers| > 1
    ensures t.peers[IndexOf(t.peers, pub)].kid == KeyId(c, pub)
    ensures Halfway(c, size, before, before, kid, Remove(pub, false), t, Deleted(pub))
    ensures Ready(c, size, before, t, Without(t.peers, IndexOf(t.peers, pub)))
    ensures Sealable(c, size, t, Without(t.peers, IndexOf(t.peers, pub)))
  {
    RemovedKey(c, size, before, kid, t, pub);
    RemoveIsHalfway(c, size, before, kid, t, pub);
    RemoveIsReady(c, size, before, kid, t, IndexOf(t.peers, pub));
    RemoveSealable(c, size, before, kid, t, IndexOf(t.peers, pub));
  }

  lemma RemoveIsHalfway(c: Crypto, size: RecordSize, before: Repo, kid: string, t: Tree, pub: Bytes32)
    requires LoadsHere(c, size, before, kid, t) && IndexOf(t.peers, pub) < |t.peers| && |t.peers| > 1
    requires KeyId(c, pub) != kid
    ensures Halfway(c, size, before, before, kid, Remove(pub, false), t, Deleted(pub))
  {}

  lemma DeletedKeyUnused(c: Crypto, size: RecordSize, before: Repo, mid: Repo, after: Repo, kid: string, t: Tree,
      i: nat, t': Tree)
    requires LoadsHere(c, size, before, kid, t) && i < |t.peers| && |t.peers| > 1 && t'.peers == Without(t.peers, i)
    requires LoadsHere(c, size, mid, kid, t') && after == mid - {t.peers[i].kid}
    ensures SameFor(mid, after, kid, t')
  {
    LoadedDistinct(c, size, before, DeviceRing(before), kid, t);
    OthersHaveOtherKids(t.peers, i);
    LoadedStored(c, size, before, kid, t, i);
    LoadedKidsPresent(c, size, mid, kid, t');
  }

  lemma LoadedKidsPresent(c: Crypto, size: RecordSize, repo: Repo, kid: string, t: Tree)
    requires LoadsHere(c, size, repo, kid, t)
    ensures kid in repo && forall n :: 0 <= n < |t.peers| ==> t.peers[n].kid in repo
  {
    forall n | 0 <= n < |t.peers| ensures t.peers[n].kid in repo {
      assert IsPeerKid(repo, t.peers[n].kid);
    }
  }

  /** The key of a peer that is no longer referenced can go without the tree noticing. */
  lemma DeleteCompletes(c: Crypto, size: RecordSize, before: Repo, mid: Repo, after: Repo, kid: string, pub: Bytes32,
      t: Tree, t': Tree)
    requires Completed(c, size, before, mid, kid, Remove(pub, false), t, Deleted(pub), t')
    requires after == mid - {KeyId(c, pub)}
    ensures Completed(c, size, before, after, kid, Remove(pub, true), t, Deleted(pub), t')
  {
    RemovedKey(c, size, before, kid, t, pub);
    DeletedStillLoads(c, size, before, mid, after, kid, t, IndexOf(t.peers, pub), t');
    DeletedRepo(before, mid, kid, KeyId(c, pub));
    DeletedPeers(c, before, mid, pub);
  }

  lemma DeletedRepo(before: Repo, mid: Repo, kid: string, k: string)
    requires kid in mid && mid == before[kid := mid[kid]] && k != kid
    ensures mid - {k} == (before - {k})[kid := mid[kid]]
  {}

  lemma DeletedPeers(c: Crypto, before: Repo, mid: Repo, pub: Bytes32)
    requires forall k :: IsPeerKid(mid, k) <==> PeerAfter(c, before, Remove(pub, false), k)
    ensures forall k :: IsPeerKid(mid - {KeyId(c, pub)}, k) <==> PeerAfter(c, before, Remove(pub, true), k)
  {
    forall k ensures IsPeerKid(mid - {KeyId(c, pub)}, k) <==> PeerAfter(c, before, Remove(pub, true), k) {
      assert IsPeerKid(mid - {KeyId(c, pub)}, k) <==> IsPeerKid(mid, k) && k != KeyId(c, pub);
    }
  }

  lemma DeletedStillLoads(c: Crypto, size: RecordSize, before: Repo, mid: Repo, after: Repo, kid: string, t: Tree,
      i: nat, t': Tree)
    requires LoadsHere(c, size, before, kid, t) && i < |t.peers| && |t.peers| > 1 && t'.peers == Without(t.peers, i)
    requires LoadsHere(c, size, mid, kid, t') && after == mid - {t.peers[i].kid}
    ensures LoadsHere(c, size, after, kid, t')
  {
    DeletedKeyUnused(c, size, before, mid, after, kid, t, i, t');
    FewerPeersNoCollision(mid, after);
    LoadsStable(c, size, mid, after, kid, t');
  }

  method PeerRemove(dev: Hem, kid: string, pub: Bytes32, deleteKey: bool)
    returns (ok: bool, ghost t: Tree, ghost e: Edit, ghost t': Tree)
    requires dev.Valid()
    modifies dev
    ensures dev.Valid()
    ensures ok ==> Completed(dev.c, dev.size, old(dev.repo), dev.repo, kid, Remove(pub, deleteKey), t, e, t')
    ensures ok ==> Delivered(dev.c, dev.size, old(dev.repo), t, Remove(pub, deleteKey), t'.peers)
    ensures !ok ==>
      || dev.repo == old(dev.repo)
      || Completed(dev.c, dev.size, old(dev.repo), dev.repo, kid, Remove(pub, false), t, e, t')
    ensures dev.steady ==> (ok <==> CanRun(dev.c, dev.size, old(dev.repo), kid, Remove(pub, deleteKey)))
  {
    e := Deleted(pub);
    var loaded := LoadTree(dev, kid, Remove(pub, deleteKey));
    if loaded.None? {
      t, t' := ArbitraryTree(), ArbitraryTree();
      return false, t, e, t';
    }
    var tree := loaded.value;
    t, t' := tree, tree;
    var idx := IndexOf(tree.peers, pub);
    if idx == |tree.peers| || |tree.peers| == 1 {
      return false, t, e, t';
    }
    ok, t' := RemoveTree(dev, tree, pub, deleteKey);
    if ok {
      EditDelivers(dev.c, dev.size, old(dev.repo), kid, tree, Remove(pub, deleteKey), e);
    }
  }

  method RemoveTree(dev: Hem, tree: Tree, pub: Bytes32, deleteKey: bool) returns (ok: bool, ghost t': Tree)
    requires dev.Valid() && LoadsHere(dev.c, dev.size, dev.repo, tree.ifKid, tree)
    requires IndexOf(tree.peers, pub) < |tree.peers| && |tree.peers| > 1
    modifies dev
    ensures dev.Valid()
    ensures ok ==>
      Completed(dev.c, dev.size, old(dev.repo), dev.repo, tree.ifKid, Remove(pub, deleteKey), tree, Deleted(pub), t')
    ensures !ok ==>
      || dev.repo == old(dev.repo)
      || Completed(dev.c, dev.size, old(dev.repo), dev.repo, tree.ifKid, Remove(pub, false), tree, Deleted(pub), t')
    ensures dev.steady ==> ok
  {
    var idx := IndexOf(tree.peers, pub);
    RemoveHalfway(dev.c, dev.size, dev.repo, tree.ifKid, tree, pub);
    ok, t' := SealEdit(dev, tree, Without(tree.peers, idx), dev.repo, Remove(pub, false), Deleted(pub));
    if ok && deleteKey {
      ghost var mid := dev.repo;
      ok := dev.DeleteKey(tree.peers[idx].kid);
      if ok {
        DeleteCompletes(dev.c, dev.size, old(dev.repo), mid, dev.repo, tree.ifKid, pub, tree, t');
      }
    }
  }

  // ----- update

  lemma InReplaced(peers: seq<TreePeer>, i: nat, np: TreePeer)
    requires i < |peers| && np.kid == peers[i].kid
    requires forall m, n :: 0 <= m < n < |peers| ==> peers[m].kid != peers[n].kid
    ensures forall q :: q in peers[i := np] ==> q == np || (q in peers && q.kid != np.kid)
  {
    forall q | q in peers[i := np] ensures q == np || (q in peers && q.kid != np.kid) {
      var n :| 0 <= n < |peers| && peers[i := np][n] == q;
      assert n != i ==> peers[n] == q && peers[n].kid != peers[i].kid;
    }
  }

  lemma UpdateIsReady(c: Crypto, size: RecordSize, before: Repo, mid: Repo, kid: string, t: Tree, i: nat, np: TreePeer)
    requires LoadsHere(c, size, before, kid, t) && i < |t.peers| && np.kid == t.peers[i].kid
    requires Stored(c, size, mid, np) && mid == before[np.kid := mid[np.kid]]
    ensures Ready(c, size, mid, t, t.peers[i := np])
  {
    LoadedStored(c, size, before, kid, t, i);
    LoadedDistinct(c, size, before, DeviceRing(before), kid, t);
    InReplaced(t.peers, i, np);
    ReadyWith(c, size, before, mid, kid, t, np, t.peers[i := np]);
  }

  lemma UpdateHalfway(c: Crypto, size: RecordSize, before: Repo, mid: Repo, kid: string, cmd: Command, t: Tree,
      np: TreePeer)
    requires cmd.Update? && LoadsHere(c, size, before, kid, t) && Realizes(c, size, before, t, cmd, Replaced(np))
    requires Stored(c, size, mid, np) && np.kid in before
    requires mid == before[np.kid := before[np.kid].(title := np.title, descr := np.raw)]
    ensures Halfway(c, size, before, mid, kid, cmd, t, Replaced(np)) && mid == RepoAfter(c, before, cmd, Replaced(np))
  {
    RemovedKey(c, size, before, kid, t, cmd.spec.pub);
    StoredLoads(c, size, mid, np);
    forall k ensures IsPeerKid(mid, k) <==> PeerAfter(c, before, cmd, k) {
      PeersAfterCommand(c, before, cmd, Replaced(np), k);
    }
  }

  predicate RewrapFits(c: Crypto, ifPub: bytes, was: TreePeer, action: PskAction) {
    action.Replace? ==> |WrappedAfter(c, ifPub, was, action)| == P.PSK_WRAPPED_LEN
  }

  method WrapForUpdate(dev: Hem, ifKid: string, was: TreePeer, action: PskAction) returns (r: Option<bytes>)
    requires ifKid in dev.repo
    ensures r.Some? ==> r.value == WrappedAfter(dev.c, dev.repo[ifKid].pub, was, action)
    ensures r.Some? ==> RewrapFits(dev.c, dev.repo[ifKid].pub, was, action)
    ensures dev.steady ==> (r.Some? <==> RewrapFits(dev.c, dev.repo[ifKid].pub, was, action))
  {
    match action
    case Keep => return Some(was.rec.psk);
    case Drop => return Some([]);
    case Replace(psk) => r := WrapPsk(dev, ifKid, was.kid, Some(psk));
  }

  /** The peer's record, rewritten in place under the same key. */
  method Rewrite(dev: Hem, ifKid: string, was: TreePeer, spec: PeerSpec, action: PskAction)
      returns (r: Option<TreePeer>)
    requires dev.Valid() && ifKid in dev.repo && Stored(dev.c, dev.size, dev.repo, was) && was.pub == spec.pub
    modifies dev`repo
    ensures dev.Valid() && (r.None? ==> dev.repo == old(dev.repo))
    ensures r.Some? ==>
      && r.value.kid == was.kid && r.value.pub == was.pub && r.value.title == spec.title
      && Stored(dev.c, dev.size, dev.repo, r.value)
      && dev.repo == old(dev.repo)[was.kid := old(dev.repo)[was.kid].(title := spec.title, descr := r.value.raw)]
      && UpdatedRecord(dev.c, dev.size, spec, old(dev.repo)[ifKid].pub, was, action) == Some(r.value.raw)
      && RewrapFits(dev.c, old(dev.repo)[ifKid].pub, was, action)
    ensures dev.steady ==> (r.Some? <==>
      && RewrapFits(dev.c, old(dev.repo)[ifKid].pub, was, action)
      && UpdatedRecord(dev.c, dev.size, spec, old(dev.repo)[ifKid].pub, was, action).Some?)
  {
    var wrapped := WrapForUpdate(dev, ifKid, was, action);
    if wrapped.None? {
      return None;
    }
    var rec := RecordOf(spec, wrapped.value);
    var enc := Codec.EncodePeer(rec, dev.size);
    if enc.None? {
      return None;
    }
    var written := dev.UpdateKey(was.kid, spec.title, enc.value);
    if !written {
      return None;
    }
    P.DecodeOfEncode(rec, dev.size);
    assert enc.value + Zeros(0) == enc.value && enc.value[..MAGIC_LEN] == MAGIC_PEER;
    return Some(TreePeer(was.kid, spec.title, was.pub, enc.value, P.Canon(rec)));
  }

  lemma UpdateRealizes(c: Crypto, size: RecordSize, repo: Repo, t: Tree, spec: PeerSpec, action: PskAction,
      np: TreePeer)
    requires IndexOf(t.peers, spec.pub) < |t.peers|
    requires var was := t.peers[IndexOf(t.peers, spec.pub)];
             && np.kid == was.kid && np.pub == was.pub && np.title == spec.title
             && UpdatedRecord(c, size, spec, t.ifPub, was, action) == Some(np.raw)
             && P.Decode(np.raw, size) == Some(np.rec) && RewrapFits(c, t.ifPub, was, action)
    ensures Realizes(c, size, repo, t, Update(spec, action), Replaced(np))
    ensures Apply(t.peers, Replaced(np)) == t.peers[IndexOf(t.peers, spec.pub) := np]
  {}

  method PeerUpdate(dev: Hem, kid: string, spec: PeerSpec, action: PskAction)
    returns (ok: bool, ghost t: Tree, ghost e: Edit, ghost t': Tree)
    requires dev.Valid()
    modifies dev
    ensures dev.Valid()
    ensures ok ==> Completed(dev.c, dev.size, old(dev.repo), dev.repo, kid, Update(spec, action), t, e, t')
    ensures ok ==> Delivered(dev.c, dev.size, old(dev.repo), t, Update(spec, action), t'.peers)
    ensures !ok ==>
      || dev.repo == old(dev.repo)
      || Halfway(dev.c, dev.size, old(dev.repo), dev.repo, kid, Update(spec, action), t, e)
      || Completed(dev.c, dev.size, old(dev.repo), dev.repo, kid, Update(spec, action), t, e, t')
    ensures dev.steady ==> (ok <==> CanRun(dev.c, dev.size, old(dev.repo), kid, Update(spec, action)))
  {
    e := Deleted(spec.pub);
    var loaded := LoadTree(dev, kid, Update(spec, action));
    if loaded.None? {
      t, t' := ArbitraryTree(), ArbitraryTree();
      return false, t, e, t';
    }
    t, t' := loaded.value, loaded.value;
    if IndexOf(loaded.value.peers, spec.pub) == |loaded.value.peers| {
      return false, t, e, t';
    }
    ok, e, t' := UpdateTree(dev, loaded.value, spec, action);
    if ok {
      EditDelivers(dev.c, dev.size, old(dev.repo), kid, t, Update(spec, action), e);
    }
  }

  method UpdateTree(dev: Hem, tree: Tree, spec: PeerSpec, action: PskAction) returns (ok: bool, ghost e: Edit,
      ghost t': Tree)
    requires dev.Valid() && LoadsHere(dev.c, dev.size, dev.repo, tree.ifKid, tree)
    requires IndexOf(tree.peers, spec.pub) < |tree.peers|
    modifies dev
    ensures dev.Valid()
    ensures ok ==> Completed(dev.c, dev.size, old(dev.repo), dev.repo, tree.ifKid, Update(spec, action), tree, e, t')
    ensures !ok ==>
      || dev.repo == old(dev.repo)
      || Halfway(dev.c, dev.size, old(dev.repo), dev.repo, tree.ifKid, Update(spec, action), tree, e)
      || Completed(dev.c, dev.size, old(dev.repo), dev.repo, tree.ifKid, Update(spec, action), tree, e, t')
    ensures dev.steady ==>
      (ok <==> Completable(dev.c, dev.size, old(dev.repo), tree, Update(spec, action)))
  {
    e, t' := Deleted(spec.pub), tree;
    var np := RewriteInTree(dev, tree, spec, action);
    if np.None? {
      return false, e, t';
    }
    e := Replaced(np.value);
    ok, t' := SealEdit(dev, tree, Apply(tree.peers, Replaced(np.value)), old(dev.repo), Update(spec, action), e);
  }

  /** The peer's new record, in the device, under the old seal. */
  method RewriteInTree(dev: Hem, tree: Tree, spec: PeerSpec, action: PskAction) returns (r: Option<TreePeer>)
    requires dev.Valid() && LoadsHere(dev.c, dev.size, dev.repo, tree.ifKid, tree)
    requires IndexOf(tree.peers, spec.pub) < |tree.peers|
    modifies dev`repo
    ensures dev.Valid() && (r.None? ==> dev.repo == old(dev.repo))
    ensures r.Some? ==>
      && Halfway(dev.c, dev.size, old(dev.repo), dev.repo, tree.ifKid, Update(spec, action), tree, Replaced(r.value))
      && Ready(dev.c, dev.size, dev.repo, tree, Apply(tree.peers, Replaced(r.value)))
      && Sealable(dev.c, dev.size, tree, Apply(tree.peers, Replaced(r.value)))
    ensures dev.steady ==>
      (r.Some? <==> Completable(dev.c, dev.size, old(dev.repo), tree, Update(spec, action)))
  {
    var idx := IndexOf(tree.peers, spec.pub);
    var was := tree.peers[idx];
    LoadedStored(dev.c, dev.size, dev.repo, tree.ifKid, tree, idx);
    StoredLoads(dev.c, dev.size, dev.repo, was);
    r := Rewrite(dev, tree.ifKid, was, spec, action);
    if r.Some? {
      UpdateMeans(dev.c, dev.size, old(dev.repo), dev.repo, tree, spec, action, r.value);
    }
  }

  lemma UpdateMeans(c: Crypto, size: RecordSize, before: Repo, mid: Repo, t: Tree, spec: PeerSpec, action: PskAction,
      np: TreePeer)
    requires LoadsHere(c, size, before, t.ifKid, t) && IndexOf(t.peers, spec.pub) < |t.peers|
    requires var was := t.peers[IndexOf(t.peers, spec.pub)];
             && np.kid == was.kid && np.pub == was.pub && np.title == spec.title && np.kid in before
             && UpdatedRecord(c, size, spec, t.ifPub, was, action) == Some(np.raw)
             && RewrapFits(c, t.ifPub, was, action)
    requires Stored(c, size, mid, np)
    requires mid == before[np.kid := before[np.kid].(title := np.title, descr := np.raw)]
    ensures Halfway(c, size, before, mid, t.ifKid, Update(spec, action), t, Replaced(np))
    ensures Ready(c, size, mid, t, Apply(t.peers, Replaced(np)))
    ensures Sealable(c, size, t, Apply(t.peers, Replaced(np)))
  {
    var idx := IndexOf(t.peers, spec.pub);
    StoredLoads(c, size, mid, np);
    UpdateRealizes(c, size, before, t, spec, action, np);
    UpdateIsReady(c, size, before, mid, t.ifKid, t, idx, np);
    UpdateHalfway(c, size, before, mid, t.ifKid, Update(spec, action), t, np);
    UpdateSealable(c, size, before, t.ifKid, t);
    SameRefsSealable(c, size, t, t.peers[idx := np], t.peers);
  }

  // ----- a command that can complete has a completion

  lemma SealsTo(c: Crypto, size: RecordSize, mid: Repo, t: Tree, peers: seq<TreePeer>) returns (after: Repo, t': Tree)
    requires Ready(c, size, mid, t, peers) && Sealable(c, size, t, peers)
    requires mid[t.ifKid].hasPrivate && mid[t.ifKid].title == t.ifLabel
    ensures Resealed(c, size, mid, after, t, peers, t')
  {
    var rec := Edited(t.iface, RefsOf(c, peers));
    SealMessage(c, size, t.ifPub, rec, peers);
    var msg := M.Canonical(c, t.ifPub, I.Encode(rec, size).value, Records(peers), size).value;
    var sum := c.hmac(t.ifPub, msg);
    I.ZeroMacOfEncode(rec, sum, size);
    assert I.Unsigned(rec) == rec;
    after := mid[t.ifKid := mid[t.ifKid].(descr := I.Encode(rec.(mac := sum), size).value)];
    SealedIsResealed(c, size, mid, after, t, peers, sum);
    t' := SealedTree(after, t.ifKid, rec, sum, peers);
  }

  lemma PlaceableEnters(c: Crypto, size: RecordSize, spec: PeerSpec, psk: Option<bytes>, adopt: bool, before: Repo,
      ifPub: bytes) returns (np: TreePeer, mid: Repo)
    requires Placeable(c, size, spec, psk, adopt, before, ifPub)
    ensures np.pub == spec.pub && Stored(c, size, mid, np)
    ensures Entered(c, size, spec, psk, adopt, before, ifPub, np)
    ensures np.kid in before ==> mid == before
    ensures np.kid !in before ==> mid == before[np.kid := Entry(spec.pub, false, spec.title, np.raw)]
  {
    var k, want := KeyId(c, spec.pub), WantedRecord(c, size, spec, psk, ifPub).value;
    P.DecodeOfEncode(RecordOf(spec, WrappedFor(c, ifPub, k, psk)), size);
    if k in before {
      var raw := Normalize(before[k].descr, size).value;
      np, mid := TreePeer(k, before[k].title, spec.pub, raw, P.Decode(raw, size).value), before;
    } else {
      np := TreePeer(k, spec.title, spec.pub, want, P.Decode(want, size).value);
      mid := before[k := Entry(spec.pub, false, spec.title, want)];
      assert want + Zeros(0) == want && want[..MAGIC_LEN] == MAGIC_PEER;
    }
  }

  lemma AddCanComplete(c: Crypto, size: RecordSize, before: Repo, kid: string, cmd: Command, t: Tree)
    returns (after: Repo, e: Edit, t': Tree)
    requires LoadsHere(c, size, before, kid, t) && cmd.Add? && Completable(c, size, before, t, cmd)
    ensures Completed(c, size, before, after, kid, cmd, t, e, t')
  {
    var np, mid := PlaceableEnters(c, size, cmd.spec, cmd.psk, cmd.adopt, before, t.ifPub);
    e := AddEdit(np, cmd.first);
    AddHalfway(c, size, before, mid, kid, cmd, t, e, np);
    AddIsReady(c, size, before, mid, kid, t, np, Apply(t.peers, e));
    AddSealable(c, size, before, kid, t, cmd.spec.pub, cmd.first);
    AddedSealable(c, size, t, np, cmd.first);
    after, t' := HalfwayCanComplete(c, size, before, kid, cmd, t, e);
  }

  lemma UpdateCanComplete(c: Crypto, size: RecordSize, before: Repo, kid: string, cmd: Command, t: Tree)
    returns (after: Repo, e: Edit, t': Tree)
    requires LoadsHere(c, size, before, kid, t) && cmd.Update? && Completable(c, size, before, t, cmd)
    ensures Completed(c, size, before, after, kid, cmd, t, e, t')
  {
    var np, mid := UpdateEnters(c, size, before, kid, cmd, t);
    e := Replaced(np);
    after, t' := HalfwayCanComplete(c, size, before, kid, cmd, t, e);
  }

  lemma UpdateEnters(c: Crypto, size: RecordSize, before: Repo, kid: string, cmd: Command, t: Tree)
    returns (np: TreePeer, mid: Repo)
    requires LoadsHere(c, size, before, kid, t) && cmd.Update? && Completable(c, size, before, t, cmd)
    ensures mid == RepoAfter(c, before, cmd, Replaced(np)) && Halfway(c, size, before, mid, kid, cmd, t, Replaced(np))
    ensures Ready(c, size, mid, t, Apply(t.peers, Replaced(np)))
    ensures Sealable(c, size, t, Apply(t.peers, Replaced(np)))
  {
    var was := t.peers[IndexOf(t.peers, cmd.spec.pub)];
    var rec := RecordOf(cmd.spec, WrappedAfter(c, t.ifPub, was, cmd.action));
    var raw := P.Encode(rec, size).value;
    P.DecodeOfEncode(rec, size);
    assert raw + Zeros(0) == raw && raw[..MAGIC_LEN] == MAGIC_PEER;
    LoadedStored(c, size, before, kid, t, IndexOf(t.peers, cmd.spec.pub));
    np := TreePeer(was.kid, cmd.spec.title, was.pub, raw, P.Canon(rec));
    mid := before[np.kid := before[np.kid].(title := np.title, descr := np.raw)];
    UpdateMeans(c, size, before, mid, t, cmd.spec, cmd.action, np);
  }

  lemma HalfwayCanComplete(c: Crypto, size: RecordSize, before: Repo, kid: string, cmd: Command, t: Tree, e: Edit)
    returns (after: Repo, t': Tree)
    requires Halfway(c, size, before, RepoAfter(c, before, cmd, e), kid, cmd, t, e)
    requires Ready(c, size, RepoAfter(c, before, cmd, e), t, Apply(t.peers, e))
    requires Sealable(c, size, t, Apply(t.peers, e))
    ensures Completed(c, size, before, after, kid, cmd, t, e, t')
  {
    ElsewhereUntouched(c, before, cmd, e, kid);
    after, t' := SealsTo(c, size, RepoAfter(c, before, cmd, e), t, Apply(t.peers, e));
    ResealCompletes(c, size, before, after, kid, cmd, t, e, t');
  }

  lemma RemoveCanComplete(c: Crypto, size: RecordSize, before: Repo, kid: string, cmd: Command, t: Tree)
    returns (after: Repo, e: Edit, t': Tree)
    requires LoadsHere(c, size, before, kid, t) && cmd.Remove? && Completable(c, size, before, t, cmd)
    ensures Completed(c, size, before, after, kid, cmd, t, e, t')
  {
    e := Deleted(cmd.pub);
    RemoveHalfway(c, size, before, kid, t, cmd.pub);
    after, t' := HalfwayCanComplete(c, size, before, kid, Remove(cmd.pub, false), t, e);
    if cmd.deleteKey {
      DeleteCompletes(c, size, before, after, after - {KeyId(c, cmd.pub)}, kid, cmd.pub, t, t');
      after := after - {KeyId(c, cmd.pub)};
    }
  }

  /** Every command that can complete has a completion: what the commands promise is not empty. */
  lemma CanComplete(c: Crypto, size: RecordSize, before: Repo, kid: string, cmd: Command, t: Tree)
    returns (after: Repo, e: Edit, t': Tree)
    requires LoadsHere(c, size, before, kid, t) && Completable(c, size, before, t, cmd)
    ensures Completed(c, size, before, after, kid, cmd, t, e, t')
  {
    match cmd
    case Add(_, _, _, _) => after, e, t' := AddCanComplete(c, size, before, kid, cmd, t);
    case Remove(_, _) => after, e, t' := RemoveCanComplete(c, size, before, kid, cmd, t);
    case Update(_, _) => after, e, t' := UpdateCanComplete(c, size, before, kid, cmd, t);
  }

  // ----- a command that stopped half way, and everybody else

  /** What a command does to a peer record somebody else may refer to: nothing, unless it deletes the key or
      writes other bytes under it. */
  predicate Spared(c: Crypto, cmd: Command, e: Edit, p: TreePeer) {
    p.kid == CommandKey(c, cmd) ==>
      match cmd
      case Add(_, _, _, _) => true
      case Remove(_, deleteKey) => !deleteKey
      case Update(_, _) => e.Replaced? && e.p.raw == p.raw
  }

  lemma ElsewhereUntouched(c: Crypto, before: Repo, cmd: Command, e: Edit, k: string)
    requires k != CommandKey(c, cmd)
    ensures var mid := RepoAfter(c, before, cmd, e);
            (k in mid <==> k in before) && (k in before ==> mid[k] == before[k])
  {}

  /** An entry that loaded as a peer is still there after the command's own change exactly if it was spared. */
  lemma StillThereIffSpared(c: Crypto, size: RecordSize, before: Repo, cmd: Command, e: Edit, p: TreePeer)
    requires StillThere(size, before, p)
    requires cmd.Update? ==> e.Replaced? && |e.p.raw| == size && MAGIC_PEER <= e.p.raw
    ensures StillThere(size, RepoAfter(c, before, cmd, e), p) <==> Spared(c, cmd, e, p)
  {
    if p.kid != CommandKey(c, cmd) {
      ElsewhereUntouched(c, before, cmd, e, p.kid);
    } else if cmd.Update? {
      assert e.p.raw + Zeros(0) == e.p.raw;
    }
  }

  lemma UpdatedRaw(c: Crypto, size: RecordSize, repo: Repo, t: Tree, cmd: Command, e: Edit)
    requires cmd.Update? && Realizes(c, size, repo, t, cmd, e)
    ensures e.Replaced? && |e.p.raw| == size && MAGIC_PEER <= e.p.raw
  {
    assert e.p.raw[..MAGIC_LEN] == MAGIC_PEER;
  }

  /** Nothing a tree is read off but its own record changes between these two. */
  predicate SamePeers(after: Repo, mid: Repo, t: Tree) {
    forall i :: 0 <= i < |t.peers| ==>
      (t.peers[i].kid in after <==> t.peers[i].kid in mid)
      && (t.peers[i].kid in mid ==> after[t.peers[i].kid] == mid[t.peers[i].kid])
  }

  /** For any identity whose own record is unchanged: it still loads exactly when an added key is uncontested
      and every peer it refers to was spared, short of two messages with one MAC. */
  lemma LoadsAfterChange(c: Crypto, size: RecordSize, before: Repo, after: Repo, cmd: Command, e: Edit, kid: string,
      t: Tree)
    requires LoadsHere(c, size, before, kid, t) && kid in after && after[kid] == before[kid]
    requires cmd.Update? ==> e.Replaced? && |e.p.raw| == size && MAGIC_PEER <= e.p.raw
    requires SamePeers(after, RepoAfter(c, before, cmd, e), t)
    requires forall k :: IsPeerKid(after, k) <==> PeerAfter(c, before, cmd, k)
    requires forall u :: LoadsHere(c, size, after, kid, u) ==>
      !Coincidence(c, before[kid].pub, Some(MessageOf(c, size, t)), Some(MessageOf(c, size, u)))
    ensures (exists u :: LoadsHere(c, size, after, kid, u))
       <==> Uncontested(c, before, cmd) && forall i :: 0 <= i < |t.peers| ==> Spared(c, cmd, e, t.peers[i])
  {
    UncontestedIffCollisionFree(c, before, after, cmd);
    SealHolds(c, size, before, after, kid, t);
    forall i | 0 <= i < |t.peers| ensures StillThere(size, after, t.peers[i]) <==> Spared(c, cmd, e, t.peers[i]) {
      LoadedStored(c, size, before, kid, t, i);
      StillThereIffSpared(c, size, before, cmd, e, t.peers[i]);
    }
  }

  /** The key a command is about is a peer's, or new. */
  lemma CommandKeyIsPeers(c: Crypto, before: Repo, after: Repo, kid: string, cmd: Command, e: Edit)
    requires RepoEdited(c, before, after, kid, cmd, e) && cmd.Add?
    ensures CommandKey(c, cmd) in before ==> IsPeerKid(before, CommandKey(c, cmd))
  {
    assert IsPeerKid(after, CommandKey(c, cmd));
  }

  lemma OtherEntries(c: Crypto, size: RecordSize, before: Repo, after: Repo, kid: string, cmd: Command, t: Tree,
      e: Edit, t': Tree, other: string, u: Tree)
    requires Completed(c, size, before, after, kid, cmd, t, e, t') && LoadsHere(c, size, before, other, u)
    ensures other != CommandKey(c, cmd) && forall i :: 0 <= i < |u.peers| ==> u.peers[i].kid != kid
  {
    IdentityIsNoPeer(c, size, before, other, u);
    IdentityIsNoPeer(c, size, before, kid, t);
    forall i | 0 <= i < |u.peers| ensures IsPeerKid(before, u.peers[i].kid) {}
    if cmd.Add? {
      CommandKeyIsPeers(c, before, after, kid, cmd, e);
    } else {
      RemovedKey(c, size, before, kid, t, if cmd.Remove? then cmd.pub else cmd.spec.pub);
    }
  }

  /** A command that stopped between its own change and the reseal. An add has left every identity loading, as
      long as the key is uncontested; an update has unsealed the identity, unless it wrote what was there. */
  lemma AfterHalfway(c: Crypto, size: RecordSize, before: Repo, after: Repo, kid: string, cmd: Command, t: Tree,
      e: Edit)
    requires Halfway(c, size, before, after, kid, cmd, t, e)
    requires forall u :: LoadsHere(c, size, after, kid, u) ==>
      !Coincidence(c, before[kid].pub, Some(MessageOf(c, size, t)), Some(MessageOf(c, size, u)))
    ensures (exists u :: LoadsHere(c, size, after, kid, u))
       <==> Uncontested(c, before, cmd) && forall i :: 0 <= i < |t.peers| ==> Spared(c, cmd, e, t.peers[i])
  {
    ElsewhereUntouched(c, before, cmd, e, kid);
    if cmd.Update? {
      UpdatedRaw(c, size, before, t, cmd, e);
    }
    LoadsAfterChange(c, size, before, after, cmd, e, kid, t);
  }

  /** What a completed command means for another identity, told from the state before it. */
  lemma OthersAfterCommand(c: Crypto, size: RecordSize, before: Repo, after: Repo, kid: string, cmd: Command, t: Tree,
      e: Edit, t': Tree, other: string, u: Tree)
    requires Completed(c, size, before, after, kid, cmd, t, e, t')
    requires other != kid && LoadsHere(c, size, before, other, u)
    requires forall v :: LoadsHere(c, size, after, other, v) ==>
      !Coincidence(c, before[other].pub, Some(MessageOf(c, size, u)), Some(MessageOf(c, size, v)))
    ensures (exists v :: LoadsHere(c, size, after, other, v))
       <==> Uncontested(c, before, cmd) && forall i :: 0 <= i < |u.peers| ==> Spared(c, cmd, e, u.peers[i])
  {
    OtherEntries(c, size, before, after, kid, cmd, t, e, t', other, u);
    ElsewhereUntouched(c, before, cmd, e, other);
    if cmd.Update? {
      UpdatedRaw(c, size, before, t, cmd, e);
    }
    LoadsAfterChange(c, size, before, after, cmd, e, other, u);
  }

  // ----- what a reseal leaves of the interface

  /** A loaded interface names its peers and carries a MAC. */
  lemma LoadedIface(c: Crypto, size: RecordSize, repo: Repo, kid: string, t: Tree)
    requires LoadsHere(c, size, repo, kid, t)
    ensures t.iface.peerRefs == RefsOf(c, t.peers) && t.iface.hasMac && t.peers != []
    ensures I.Unsigned(t.iface) == I.Unsigned(t.iface.(peerRefs := RefsOf(c, t.peers)))
  {
    LoadedOrder(c, size, repo, DeviceRing(repo), kid, t);
  }

  /** Regrouping a loaded record changes nothing, so a reseal touches only references and MAC. */
  lemma CanonOfEdited(c: Crypto, size: RecordSize, before: Repo, kid: string, t: Tree, t': Tree)
    requires LoadsHere(c, size, before, kid, t)
    requires t'.iface == I.Canon(Edited(t.iface, RefsOf(c, t'.peers)).(mac := t'.iface.mac))
    ensures I.Unsigned(t'.iface) == I.Unsigned(t.iface.(peerRefs := RefsOf(c, t'.peers)))
  {
    I.DecodedIsCanon(t.ifRaw, size);
    LoadedIface(c, size, before, kid, t);
  }
}
