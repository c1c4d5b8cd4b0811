/** Loading a configuration out of a device: search, resolve, authenticate. */
module Loader {
  import opened Base
  import opened Tlv
  import opened Kid
  import opened Repository
  import opened Device
  import M = Mac
  import Codec

  const SEARCH_PAGE := 50

  /** The token function either answers or fails; what matters here is that it may fail. */
  method Token(dev: Hem) returns (r: Option<string>)
    ensures r.Some? ==> r.value != ""
    ensures dev.steady ==> r.Some?
  {
    var ok: bool := *;
    return if ok || dev.steady then Some("token") else None;
  }

  /** Paging with one retry under a token: the whole listing, each entry once, however it is cut. */
  method Search(dev: Hem, magic: bytes) returns (r: Outcome<seq<KeyEntry>>)
    ensures r.Done? ==> IsListing(dev.repo, magic, r.value)
    ensures !r.Rejected? && (dev.steady ==> r.Done?)
  {
    var listing := dev.Enumerate(magic);
    var token, all, offset := "", [], 0;
    while true
      invariant offset <= |listing| && all == listing[..offset]
      decreases |listing| - offset, if token == "" then 1 else 0
    {
      var page := dev.SearchKeys(listing, token, offset, SEARCH_PAGE);
      if page.AuthRequired? {
        var tok := Token(dev);
        if tok.None? {
          return Fault;
        }
        token := tok.value;
        continue;
      }
      if page.SearchFailed? {
        return Fault;
      }
      assert offset < |listing| ==> listing[..offset + |page.page|] == listing[..offset] + page.page;
      all := all + page.page;
      offset := offset + |page.page|;
      if |page.page| == 0 || offset >= page.total {
        assert offset == |listing| && all == listing;
        return Done(all);
      }
    }
  }

  // ----- a trimmed record is as good as the stored one

  /** Widening a trimmed record gives the widened stored one, unless neither can be decoded. */
  lemma TrimNormalizes(t: bytes, stored: bytes, magic: bytes, size: RecordSize)
    requires TrimOf(t, stored) && magic <= stored && (magic == MAGIC_INTERFACE || magic == MAGIC_PEER)
    requires |stored| <= size
    ensures Normalize(t, size).Some? ==> Normalize(t, size) == Normalize(stored, size)
    ensures Normalize(t, size).None? && Normalize(stored, size).Some? ==>
              Parse(Normalize(stored, size).value, magic, size).None?
  {
    if Normalize(t, size).Some? {
      PadUnique(stored, t, size);
    } else if Normalize(stored, size).Some? {
      assert stored[6] == stored[|t|..][6 - |t|];
    }
  }

  // ----- keys

  /** Where public keys come from: the device, or a map somebody handed over. */
  function RingOf(repo: Repo, supplied: Option<Ring>): Ring {
    if supplied.Some? then supplied.value else DeviceRing(repo)
  }

  method ResolveKey(dev: Hem, supplied: Option<Ring>, kid: string) returns (r: Outcome<Bytes32>)
    ensures r.Done? ==> Resolve(dev.c, RingOf(dev.repo, supplied), kid) == Some(r.value)
    ensures r.Rejected? ==> Resolve(dev.c, RingOf(dev.repo, supplied), kid) == None
    ensures dev.steady ==> !r.Fault?
  {
    var raw: bytes;
    match supplied {
      case Some(keys) =>
        if kid !in keys {
          return Rejected;
        }
        raw := keys[kid];
      case None =>
        var look := dev.GetPubKey(kid);
        if !look.Found? {
          return if look.Missing? then Rejected else Fault;
        }
        raw := look.pub;
    }
    if |raw| != 32 || KeyId(dev.c, raw) != kid {
      return Rejected;
    }
    return Done(raw);
  }

  // ----- the MAC

  /** Sign: the MAC over the tree, and an entry in the device's log. */
  method Sign(dev: Hem, kid: string, ifPub: Bytes32, ifDescr: bytes, peers: seq<M.Record>) returns (r: Option<Bytes32>)
    requires dev.Valid() && |ifDescr| == dev.size && M.FullLength(peers, dev.size)
    modifies dev`log
    ensures dev.Valid()
    ensures r.Some? ==>
      && kid in dev.repo && dev.repo[kid].hasPrivate
      && M.Canonical(dev.c, ifPub, ifDescr, peers, dev.size).Some?
      && r.value == dev.c.hmac(dev.repo[kid].pub, M.Canonical(dev.c, ifPub, ifDescr, peers, dev.size).value)
      && dev.log == old(dev.log) + {SignCall(dev.repo[kid].pub, ifPub, ifDescr, peers, r.value)}
    ensures r.None? ==> dev.log == old(dev.log)
    ensures dev.steady && kid in dev.repo && dev.repo[kid].hasPrivate ==>
      (r.Some? <==> M.Canonical(dev.c, ifPub, ifDescr, peers, dev.size).Some?)
  {
    var msg := M.BuildCanonical(dev.c, ifPub, ifDescr, peers, dev.size);
    if msg.None? {
      return None;
    }
    r := dev.HmacHash(kid, msg.value);
    if r.Some? {
      dev.log := dev.log + {SignCall(dev.repo[kid].pub, ifPub, ifDescr, peers, r.value)};
    }
  }

  method Verify(dev: Hem, kid: string, ifPub: Bytes32, ifDescr: bytes, peers: seq<M.Record>) returns (r: Outcome<()>)
    requires |ifDescr| == dev.size
    ensures r.Done? ==> kid in dev.repo && Verifies(dev.c, dev.size, dev.repo[kid], ifPub, ifDescr, peers)
    ensures r.Rejected? ==> kid !in dev.repo || !Verifies(dev.c, dev.size, dev.repo[kid], ifPub, ifDescr, peers)
    ensures dev.steady ==> !r.Fault?
  {
    var rec := Codec.DecodeInterface(ifDescr, dev.size);
    if rec.None? || !rec.value.hasMac {
      return Rejected;
    }
    var msg := M.BuildCanonical(dev.c, ifPub, ifDescr, peers, dev.size);
    if msg.None? {
      return Rejected;
    }
    var check := dev.HmacVerify(kid, msg.value, rec.value.mac);
    match check
    case Accepted => return Done(());
    case Refused => return Rejected;
    case NoAnswer => return Fault;
  }

  // ----- loading

  /** The records by reference; a shared reference refuses every identity. */
  method IndexByRef(entries: seq<KeyEntry>, ghost repo: Repo) returns (r: Option<map<Bytes4, KeyEntry>>)
    requires IsListing(repo, MAGIC_PEER, entries)
    ensures r.Some? <==> CollisionFree(repo)
    ensures r.Some? ==> forall ref :: ref in r.value ==>
              r.value[ref] in entries && RefOfKid(r.value[ref].kid) == Some(ref)
    ensures r.Some? ==> forall k :: IsPeerKid(repo, k) ==> RefOfKid(k).value in r.value
  {
    var byRef: map<Bytes4, KeyEntry> := map[];
    for i := 0 to |entries|
      invariant forall ref :: ref in byRef ==> byRef[ref] in entries[..i] && RefOfKid(byRef[ref].kid) == Some(ref)
      invariant forall j :: 0 <= j < i && RefOfKid(entries[j].kid).Some? ==>
                  RefOfKid(entries[j].kid).value in byRef && byRef[RefOfKid(entries[j].kid).value] == entries[j]
    {
      var e := entries[i];
      var ref := RefOfKid(e.kid);
      if ref.Some? {
        if ref.value in byRef {
          ghost var prev := byRef[ref.value];
          ghost var j :| 0 <= j < i && entries[j] == prev;
          assert IsPeerKid(repo, prev.kid) && IsPeerKid(repo, e.kid);
          return None;
        }
        byRef := byRef[ref.value := e];
      }
    }
    ListedPeers(repo, entries, byRef);
    return Some(byRef);
  }

  lemma ListedPeers(repo: Repo, entries: seq<KeyEntry>, byRef: map<Bytes4, KeyEntry>)
    requires IsListing(repo, MAGIC_PEER, entries)
    requires forall j :: 0 <= j < |entries| && RefOfKid(entries[j].kid).Some? ==>
               RefOfKid(entries[j].kid).value in byRef && byRef[RefOfKid(entries[j].kid).value] == entries[j]
    ensures forall k :: IsPeerKid(repo, k) ==> RefOfKid(k).value in byRef && byRef[RefOfKid(k).value].kid == k
    ensures CollisionFree(repo)
  {
    forall k | IsPeerKid(repo, k) ensures RefOfKid(k).value in byRef && byRef[RefOfKid(k).value].kid == k {
      var j :| 0 <= j < |entries| && entries[j].kid == k;
    }
  }

  method LoadOnePeer(dev: Hem, supplied: Option<Ring>, e: KeyEntry) returns (r: Outcome<TreePeer>)
    requires dev.Valid() && Presents(dev.repo, MAGIC_PEER, e)
    ensures r.Done? ==> LoadPeer(dev.c, dev.size, dev.repo, RingOf(dev.repo, supplied), e.kid) == Some(r.value)
    ensures r.Rejected? ==> LoadPeer(dev.c, dev.size, dev.repo, RingOf(dev.repo, supplied), e.kid) == None
    ensures dev.steady ==> !r.Fault?
  {
    var pub := ResolveKey(dev, supplied, e.kid);
    if !pub.Done? {
      return if pub.Rejected? then Rejected else Fault;
    }
    TrimNormalizes(e.descr, dev.repo[e.kid].descr, MAGIC_PEER, dev.size);
    var raw := Normalize(e.descr, dev.size);
    if raw.None? {
      return Rejected;
    }
    var rec := Codec.DecodePeer(raw.value, dev.size);
    if rec.None? {
      return Rejected;
    }
    return Done(TreePeer(e.kid, e.title, pub.value, raw.value, rec.value));
  }

  /** The peers behind the references, in reference order. */
  method LoadPeerList(dev: Hem, supplied: Option<Ring>, refs: seq<Bytes4>, byRef: map<Bytes4, KeyEntry>)
    returns (r: Outcome<seq<TreePeer>>)
    requires dev.Valid() && CollisionFree(dev.repo)
    requires forall ref :: ref in byRef ==>
      Presents(dev.repo, MAGIC_PEER, byRef[ref]) && RefOfKid(byRef[ref].kid) == Some(ref)
    requires forall k :: IsPeerKid(dev.repo, k) ==> RefOfKid(k).value in byRef
    ensures r.Done? ==> PeersLoad(dev.c, dev.size, dev.repo, RingOf(dev.repo, supplied), refs, r.value)
    ensures r.Rejected? ==>
      forall peers :: !PeersLoad(dev.c, dev.size, dev.repo, RingOf(dev.repo, supplied), refs, peers)
    ensures dev.steady ==> !r.Fault?
  {
    var peers := [];
    for i := 0 to |refs|
      invariant PeersLoad(dev.c, dev.size, dev.repo, RingOf(dev.repo, supplied), refs[..i], peers)
    {
      if refs[i] !in byRef {
        assert forall k :: !(IsPeerKid(dev.repo, k) && RefOfKid(k) == Some(refs[i]));
        NoPeerAt(dev.c, dev.size, dev.repo, RingOf(dev.repo, supplied), refs, i);
        return Rejected;
      }
      var p := LoadOnePeer(dev, supplied, byRef[refs[i]]);
      if p.Fault? {
        return Fault;
      }
      if p.Rejected? {
        NoOtherPeer(dev.c, dev.size, dev.repo, RingOf(dev.repo, supplied), refs[i], byRef[refs[i]].kid);
        NoPeerAt(dev.c, dev.size, dev.repo, RingOf(dev.repo, supplied), refs, i);
        return Rejected;
      }
      PeersLoadMore(dev.c, dev.size, dev.repo, RingOf(dev.repo, supplied), refs, i, peers, p.value);
      peers := peers + [p.value];
    }
    assert refs[..|refs|] == refs;
    return Done(peers);
  }

  lemma PeersLoadMore(c: Crypto, size: RecordSize, repo: Repo, ring: Ring, refs: seq<Bytes4>, i: nat,
      peers: seq<TreePeer>, p: TreePeer)
    requires i < |refs| && PeersLoad(c, size, repo, ring, refs[..i], peers)
    requires IsPeerKid(repo, p.kid) && RefOfKid(p.kid) == Some(refs[i])
    requires LoadPeer(c, size, repo, ring, p.kid) == Some(p)
    ensures PeersLoad(c, size, repo, ring, refs[..i + 1], peers + [p])
  {
    var more := peers + [p];
    forall j | 0 <= j < |more|
      ensures IsPeerKid(repo, more[j].kid) && RefOfKid(more[j].kid) == Some(refs[..i + 1][j])
      ensures LoadPeer(c, size, repo, ring, more[j].kid) == Some(more[j])
    {
      if j < i {
        assert more[j] == peers[j] && refs[..i + 1][j] == refs[..i][j];
      }
    }
  }

  /** A reference that nothing loadable answers to is fatal to the whole list. */
  lemma NoPeerAt(c: Crypto, size: RecordSize, repo: Repo, ring: Ring, refs: seq<Bytes4>, i: nat)
    requires i < |refs|
    requires forall k :: IsPeerKid(repo, k) && RefOfKid(k) == Some(refs[i]) ==> LoadPeer(c, size, repo, ring, k).None?
    ensures forall peers :: !PeersLoad(c, size, repo, ring, refs, peers)
  {
    forall peers: seq<TreePeer> ensures !PeersLoad(c, size, repo, ring, refs, peers) {
      if |peers| == |refs| && IsPeerKid(repo, peers[i].kid) && RefOfKid(peers[i].kid) == Some(refs[i]) {
        assert LoadPeer(c, size, repo, ring, peers[i].kid).None?;
      }
    }
  }

  lemma NoOtherPeer(c: Crypto, size: RecordSize, repo: Repo, ring: Ring, ref: Bytes4, k: string)
    requires CollisionFree(repo) && IsPeerKid(repo, k) && RefOfKid(k) == Some(ref)
        && LoadPeer(c, size, repo, ring, k).None?
    ensures forall j :: IsPeerKid(repo, j) && RefOfKid(j) == Some(ref) ==> LoadPeer(c, size, repo, ring, j).None?
  {}

  /** loadFrom: the tree this identity loads to, or a refusal exactly when there is none. */
  method LoadFrom(dev: Hem, supplied: Option<Ring>, e: KeyEntry) returns (r: Outcome<Tree>)
    requires dev.Valid() && Presents(dev.repo, MAGIC_INTERFACE, e)
    ensures r.Done? ==> Loads(dev.c, dev.size, dev.repo, RingOf(dev.repo, supplied), e.kid, r.value)
    ensures r.Rejected? ==> forall t :: !Loads(dev.c, dev.size, dev.repo, RingOf(dev.repo, supplied), e.kid, t)
    ensures dev.steady ==> !r.Fault?
  {
    TrimNormalizes(e.descr, dev.repo[e.kid].descr, MAGIC_INTERFACE, dev.size);
    var ifRaw := Normalize(e.descr, dev.size);
    if ifRaw.None? {
      return Rejected;
    }
    var iface := Codec.DecodeInterface(ifRaw.value, dev.size);
    if iface.None? || iface.value.peerRefs == [] {
      return Rejected;
    }
    var ifPub := ResolveKey(dev, supplied, e.kid);
    if !ifPub.Done? {
      return if ifPub.Rejected? then Rejected else Fault;
    }
    var entries := Search(dev, MAGIC_PEER);
    if !entries.Done? {
      return Fault;
    }
    var byRef := IndexByRef(entries.value, dev.repo);
    if byRef.None? {
      return Rejected;
    }
    var peers := LoadPeerList(dev, supplied, iface.value.peerRefs, byRef.value);
    if !peers.Done? {
      return if peers.Rejected? then Rejected else Fault;
    }
    var records := Records(peers.value);
    var t := Tree(e.kid, e.title, ifPub.value, ifRaw.value, iface.value, peers.value);
    var tok := Token(dev);
    if tok.None? {
      return Fault;
    }
    var ok := Verify(dev, e.kid, ifPub.value, ifRaw.value, records);
    if !ok.Done? {
      if ok.Rejected? {
        PeersUnique(dev.c, dev.size, dev.repo, RingOf(dev.repo, supplied), iface.value.peerRefs, peers.value);
      }
      return if ok.Rejected? then Rejected else Fault;
    }
    return Done(t);
  }

  lemma PeersUnique(c: Crypto, size: RecordSize, repo: Repo, ring: Ring, refs: seq<Bytes4>, a: seq<TreePeer>)
    requires CollisionFree(repo) && PeersLoad(c, size, repo, ring, refs, a)
    ensures forall b :: PeersLoad(c, size, repo, ring, refs, b) ==> a == b
  {
    forall b: seq<TreePeer> | PeersLoad(c, size, repo, ring, refs, b) ensures a == b {
      forall i | 0 <= i < |a| ensures a[i] == b[i] {
        assert a[i].kid == b[i].kid;
      }
    }
  }

  /** LoadIdentity and LoadIdentityWithKeys: find the named record and load from it. */
  method LoadNamed(dev: Hem, supplied: Option<Ring>, kid: string) returns (r: Outcome<Tree>)
    requires dev.Valid()
    ensures r.Done? ==> Loads(dev.c, dev.size, dev.repo, RingOf(dev.repo, supplied), kid, r.value)
    ensures r.Rejected? ==> forall t :: !Loads(dev.c, dev.size, dev.repo, RingOf(dev.repo, supplied), kid, t)
    ensures r.Done? ==> Authentic(dev.c, dev.size, dev.log, dev.repo[kid].pub, r.value)
    ensures dev.steady ==> !r.Fault?
  {
    var entries := Search(dev, MAGIC_INTERFACE);
    if !entries.Done? {
      return Fault;
    }
    for i := 0 to |entries.value|
      invariant forall j :: 0 <= j < i ==> entries.value[j].kid != kid
    {
      if entries.value[i].kid == kid {
        r := LoadFrom(dev, supplied, entries.value[i]);
        if r.Done? {
          LoadedWasSigned(dev.c, dev.size, dev.repo, RingOf(dev.repo, supplied), kid, r.value, dev.log);
        }
        return;
      }
    }
    return Rejected;
  }
}
