/** Writing a configuration into a device, and what every way out of that leaves behind. */
module Provision {
  import opened Base
  import opened Net
  import opened Tlv
  import opened Families
  import opened Kid
  import opened Repository
  import opened Device
  import opened Loader
  import M = Mac
  import I = InterfaceRecord
  import P = PeerRecord
  import Codec

  datatype PeerSpec = PeerSpec(
    pub: Bytes32, title: string, endpoint: P.Endpoint, allowedIPs: seq<Prefix>, keepalive: byte)

  /** `kid` is empty when an identity key is to be created. */
  datatype Params = Params(
    addrs: seq<Prefix>, dns: seq<Addr>, mtu: int, listenPort: int, title: string,
    peers: seq<PeerSpec>, kid: string, psk: Option<bytes>, adopt: bool)

  function RecordOf(spec: PeerSpec, wrapped: bytes): P.Peer {
    P.Peer(spec.endpoint, spec.allowedIPs, spec.keepalive, wrapped)
  }

  predicate DistinctPubs(peers: seq<PeerSpec>) {
    forall i, j :: 0 <= i < j < |peers| ==> peers[i].pub != peers[j].pub
  }

  function Probe(p: Params): bytes {
    if p.psk.Some? then Zeros(P.PSK_WRAPPED_LEN) else []
  }

  predicate Acceptable(p: Params, size: RecordSize) {
    && p.addrs != [] && p.peers != [] && |p.peers| <= M.MaxPeers(size)
    && DistinctPubs(p.peers)
    && 0 <= p.mtu < 65536 && 0 <= p.listenPort < 65536
    && forall i :: 0 <= i < |p.peers| ==> P.Encode(RecordOf(p.peers[i], Probe(p)), size).Some?
  }

  method AllDistinct(peers: seq<PeerSpec>) returns (ok: bool)
    ensures ok <==> DistinctPubs(peers)
  {
    var seen: set<Bytes32> := {};
    for i := 0 to |peers|
      invariant forall j :: 0 <= j < i ==> peers[j].pub in seen
      invariant forall x :: x in seen ==> exists j :: 0 <= j < i && peers[j].pub == x
      invariant forall j, k :: 0 <= j < k < i ==> peers[j].pub != peers[k].pub
    {
      if peers[i].pub in seen {
        return false;
      }
      seen := seen + {peers[i].pub};
    }
    return true;
  }

  method Validate(p: Params, size: RecordSize) returns (ok: bool)
    ensures ok <==> Acceptable(p, size)
  {
    if p.addrs == [] || p.peers == [] || |p.peers| > M.MaxPeers(size) {
      return false;
    }
    var distinct := AllDistinct(p.peers);
    if !distinct {
      return false;
    }
    if p.mtu < 0 || p.mtu > 65535 || p.listenPort < 0 || p.listenPort > 65535 {
      return false;
    }
    for i := 0 to |p.peers|
      invariant forall j :: 0 <= j < i ==> P.Encode(RecordOf(p.peers[j], Probe(p)), size).Some?
    {
      var rec := Codec.EncodePeer(RecordOf(p.peers[i], Probe(p)), size);
      if rec.None? {
        return false;
      }
    }
    return true;
  }

  /** Everything about a peer that can be refused, in bytes: 7 for the header, 8 or 20 for an address and 4 more
      than the name for a host, 7 or 19 for a range, 3 for a keepalive, 42 for a wrapped key. */
  predicate Roomy(spec: PeerSpec, withKey: bool, size: RecordSize) {
    && spec.endpoint.IsSet() && |spec.endpoint.host| <= (if size == 64 then 53 else 60) && AllValid(spec.allowedIPs)
    && 7 + (if spec.endpoint.host != [] then 4 + |spec.endpoint.host| else if spec.endpoint.ip.V4? then 8 else 20)
       + 7 * |Only(spec.allowedIPs, true)| + 19 * |Only(spec.allowedIPs, false)|
       + (if spec.keepalive != 0 then 3 else 0) + (if withKey then 42 else 0) <= size
  }

  /** A request passes validation exactly when all this holds, before the device is touched. */
  lemma AcceptableExactly(p: Params, size: RecordSize)
    ensures Acceptable(p, size)
       <==> && p.addrs != [] && 1 <= |p.peers| <= (if size == 64 then 20 else 11)
            && (forall i, j :: 0 <= i < j < |p.peers| ==> p.peers[i].pub != p.peers[j].pub)
            && 0 <= p.mtu <= 65535 && 0 <= p.listenPort <= 65535
            && (forall i :: 0 <= i < |p.peers| ==> Roomy(p.peers[i], p.psk.Some?, size))
  {
    assert M.MaxPeers(size) == if size == 64 then 20 else 11;
    forall i | 0 <= i < |p.peers|
      ensures P.Encode(RecordOf(p.peers[i], Probe(p)), size).Some? <==> Roomy(p.peers[i], p.psk.Some?, size)
    {
      P.EncodeSucceeds(RecordOf(p.peers[i], Probe(p)), size);
    }
  }

  // ----- peers

  /** Where a key is on a page, or the page's length. */
  method FindEntry(page: seq<KeyEntry>, kid: string) returns (j: nat)
    ensures j <= |page| && (j < |page| ==> page[j].kid == kid)
    ensures forall n :: 0 <= n < j ==> page[n].kid != kid
  {
    for i := 0 to |page|
      invariant forall n :: 0 <= n < i ==> page[n].kid != kid
    {
      if page[i].kid == kid {
        return i;
      }
    }
    return |page|;
  }

  /** The record a key is stored with, None when it is not a peer record of this client's. */
  method ReadPeerRecord(dev: Hem, kid: string) returns (r: Outcome<Option<bytes>>)
    requires dev.Valid()
    ensures r.Done? && r.value.Some? ==>
      && kid in dev.repo && MAGIC_PEER <= dev.repo[kid].descr
      && Normalize(dev.repo[kid].descr, dev.size) == r.value
    ensures r.Done? && r.value.None? ==> kid !in dev.repo || !(MAGIC_PEER <= dev.repo[kid].descr)
    ensures r.Rejected? ==> kid in dev.repo && Unreadable(dev.repo[kid].descr, dev.size)
    ensures dev.steady ==> !r.Fault?
  {
    var listing := dev.Enumerate(MAGIC_PEER);
    var token, offset := "", 0;
    while true
      invariant offset <= |listing|
      invariant forall j :: 0 <= j < offset ==> listing[j].kid != kid
      decreases |listing| - offset, if token == "" then 1 else 0
    {
      var page := dev.SearchKeys(listing, token, offset, 50);
      if page.AuthRequired? {
        var tok := Token(dev);
        if tok.None? {
          return Fault;
        }
        token := tok.value;
        continue;
      }
      if page.SearchFailed? {
        return Fault;
      }
      var j := FindEntry(page.page, kid);
      if j < |page.page| {
        var e := page.page[j];
        assert e == listing[offset + j];
        TrimNormalizes(e.descr, dev.repo[kid].descr, MAGIC_PEER, dev.size);
        var rec := Normalize(e.descr, dev.size);
        return if rec.None? then Rejected else Done(rec);
      }
      forall n | offset <= n < offset + |page.page| ensures listing[n].kid != kid {
        assert listing[n] == page.page[n - offset];
      }
      offset := offset + |page.page|;
      if |page.page| == 0 || offset >= page.total {
        return Done(None);
      }
    }
  }

  /** Not a record that decodes, however it is widened. */
  predicate Unreadable(descr: bytes, size: RecordSize) {
    Normalize(descr, size).Some? ==> P.Decode(Normalize(descr, size).value, size).None?
  }

  datatype Placement = Imported | Adopted

  /** Import a new key, adopt a usable record, refuse otherwise; never overwrite. */
  method PlacePeer(dev: Hem, spec: PeerSpec, want: bytes, adopt: bool) returns (r: Outcome<Placement>)
    requires dev.Valid() && |want| == dev.size
    modifies dev`repo
    ensures dev.Valid()
    ensures r == Done(Imported) ==>
      && KeyId(dev.c, spec.pub) !in old(dev.repo)
      && dev.repo == old(dev.repo)[KeyId(dev.c, spec.pub) := Entry(spec.pub, false, spec.title, want)]
    ensures r == Done(Adopted) ==> CanAdopt(dev.c, dev.size, old(dev.repo), spec, want, adopt)
    ensures r.Rejected? ==>
      KeyId(dev.c, spec.pub) in old(dev.repo) && !CanAdopt(dev.c, dev.size, old(dev.repo), spec, want, adopt)
    ensures r != Done(Imported) ==> dev.repo == old(dev.repo)
    ensures dev.steady && P.Decode(want, dev.size).Some? ==>
      (r.Done? <==> KeyId(dev.c, spec.pub) !in old(dev.repo)
                    || CanAdopt(dev.c, dev.size, old(dev.repo), spec, want, adopt))
  {
    var kid := KeyId(dev.c, spec.pub);
    var existing := dev.GetPubKey(kid);
    if existing.Missing? {
      var ok := dev.ImportKey(spec.title, spec.pub, want);
      return if ok then Done(Imported) else Fault;
    }
    if existing.Unavailable? {
      return Fault;
    }
    if existing.pub != spec.pub {
      return Rejected;
    }
    var current := ReadPeerRecord(dev, kid);
    if !current.Done? {
      return Fault;
    }
    if current.value.None? {
      return Rejected;
    }
    if current.value.value == want {
      return Done(Adopted);
    }
    if !adopt {
      return Rejected;
    }
    var decoded := Codec.DecodePeer(current.value.value, dev.size);
    if decoded.None? || |decoded.value.psk| > 0 {
      return Rejected;
    }
    return Done(Adopted);
  }

  /** The stored record already says what is wanted, or may be taken as it is. */
  predicate CanAdopt(c: Crypto, size: RecordSize, repo: Repo, spec: PeerSpec, want: bytes, adopt: bool) {
    var kid := KeyId(c, spec.pub);
    && kid in repo && repo[kid].pub == spec.pub && MAGIC_PEER <= repo[kid].descr
    && var raw := Normalize(repo[kid].descr, size);
       && raw.Some?
       && (raw.value == want
           || (adopt && P.Decode(raw.value, size).Some? && P.Decode(raw.value, size).value.psk == []))
  }

  // ----- the seal, common to provisioning and to every later edit

  datatype SealResult = Written(sum: Bytes32, verified: bool) | NotWritten

  /** There is a message to sign exactly when the references are distinct and few enough. */
  lemma SealMessage(c: Crypto, size: RecordSize, ifPub: Bytes32, rec: I.Interface, peers: seq<TreePeer>)
    requires rec.peerRefs == RefsOf(c, peers) && I.Encode(rec, size).Some?
    ensures M.Canonical(c, ifPub, I.Encode(rec, size).value, Records(peers), size).Some?
       <==> Distinct(RefsOf(c, peers)) && |peers| <= M.MaxPeers(size)
  {
    I.DecodeOfEncode(rec, size);
    M.CanonicalAccepts(c, ifPub, I.Encode(rec, size).value, Records(peers), size);
  }

  method SealInterface(dev: Hem, kid: string, title: string, ifPub: Bytes32, rec: I.Interface,
      ghost peers: seq<TreePeer>,
                       records: seq<M.Record>) returns (r: SealResult)
    requires dev.Valid() && rec.hasMac && rec.mac == Zeros(32)
    requires records == Records(peers) && M.FullLength(records, dev.size) && rec.peerRefs == RefsOf(dev.c, peers)
    requires kid in dev.repo && dev.repo[kid].pub == ifPub
    modifies dev
    ensures dev.Valid()
    ensures r.NotWritten? ==> dev.repo == old(dev.repo)
    ensures dev.steady && r.Written? ==> r.verified
    ensures r.Written? ==>
      && Sealed(dev.c, dev.size, dev.repo, kid, rec, r.sum, peers)
      && dev.repo[kid].title == title
      && dev.repo == old(dev.repo)[kid := dev.repo[kid]]
      && dev.repo[kid].pub == ifPub && dev.repo[kid].hasPrivate == old(dev.repo)[kid].hasPrivate
    ensures dev.steady ==>
      (r.Written? && r.verified <==>
         && dev.repo[kid].hasPrivate && I.Encode(rec, dev.size).Some?
         && Distinct(RefsOf(dev.c, peers)) && |peers| <= M.MaxPeers(dev.size))
  {
    assert I.Unsigned(rec) == rec;
    var unsigned := Codec.EncodeInterface(rec, dev.size);
    if unsigned.None? {
      return NotWritten;
    }
    SealMessage(dev.c, dev.size, ifPub, rec, peers);
    var sum := Sign(dev, kid, ifPub, unsigned.value, records);
    if sum.None? {
      return NotWritten;
    }
    I.ZeroMacOfEncode(rec, sum.value, dev.size);
    var signed := Codec.EncodeInterface(rec.(mac := sum.value), dev.size);
    if signed.None? {
      return NotWritten;
    }
    var ok := dev.UpdateKey(kid, title, signed.value);
    if !ok {
      return NotWritten;
    }
    SealedVerifies(dev.c, dev.size, dev.repo, kid, rec, sum.value, peers);
    var check := Verify(dev, kid, ifPub, signed.value, records);
    assert !check.Rejected?;
    return Written(sum.value, check.Done?);
  }

  // ----- provisioning

  function WrappedFor(c: Crypto, ifPub: bytes, peerKid: string, psk: Option<bytes>): bytes {
    if psk.Some? then c.wrap(ifPub, PskContext(peerKid), psk.value) else []
  }

  predicate WrapFits(c: Crypto, ifPub: bytes, peerKid: string, psk: Option<bytes>) {
    psk.None? || |WrappedFor(c, ifPub, peerKid, psk)| == P.PSK_WRAPPED_LEN
  }

  /** Nothing to wrap is no wrap; anything but 40 bytes back is refused. */
  method WrapPsk(dev: Hem, ifKid: string, peerKid: string, psk: Option<bytes>) returns (r: Option<bytes>)
    requires ifKid in dev.repo
    ensures r.Some? ==> r.value == WrappedFor(dev.c, dev.repo[ifKid].pub, peerKid, psk)
    ensures r.Some? ==> WrapFits(dev.c, dev.repo[ifKid].pub, peerKid, psk)
    ensures dev.steady ==> (r.Some? <==> WrapFits(dev.c, dev.repo[ifKid].pub, peerKid, psk))
  {
    if psk.None? {
      return Some([]);
    }
    r := dev.CipherWrap(ifKid, PskContext(peerKid), psk.value);
    if r.Some? && |r.value| != P.PSK_WRAPPED_LEN {
      return None;
    }
  }

  /** The interface record asked for, unsigned, over the given references. */
  function Requested(p: Params, refs: seq<Bytes4>): I.Interface
    requires 0 <= p.mtu < 65536 && 0 <= p.listenPort < 65536
  {
    I.Interface(p.addrs, p.mtu, p.dns, refs, p.listenPort, true, Zeros(32))
  }

  function WantedRecord(c: Crypto, size: RecordSize, spec: PeerSpec, psk: Option<bytes>, ifPub: bytes): Option<bytes> {
    P.Encode(RecordOf(spec, WrappedFor(c, ifPub, KeyId(c, spec.pub), psk)), size)
  }

  /** A request that passed validation leaves no record to fail for its size once the device is being written:
      whatever the wraps turn out to be, every peer's record fits. */
  lemma ValidatedPeersFit(c: Crypto, size: RecordSize, p: Params, ifPub: bytes, i: nat)
    requires Acceptable(p, size) && i < |p.peers| && WrapFits(c, ifPub, KeyId(c, p.peers[i].pub), p.psk)
    ensures WantedRecord(c, size, p.peers[i], p.psk, ifPub).Some?
  {
    P.EncodeSucceeds(RecordOf(p.peers[i], Probe(p)), size);
    P.EncodeSucceeds(RecordOf(p.peers[i], WrappedFor(c, ifPub, KeyId(c, p.peers[i].pub), p.psk)), size);
  }

  /** Validation does not look at the identity's own record. Whether that fits, in bytes: 7 for the header, 34 for
      the MAC, 7 or 19 for an address, 6 or 18 for a server, 4 for an MTU or port, and 6 for every peer. */
  lemma RequestFitsExactly(p: Params, refs: seq<Bytes4>, size: RecordSize)
    requires Acceptable(p, size) && |refs| == |p.peers|
    ensures I.Encode(Requested(p, refs), size).Some?
       <==> && AllValid(p.addrs) && AllAddrsValid(p.dns)
            && 41 + 7 * |Only(p.addrs, true)| + 19 * |Only(p.addrs, false)|
               + 6 * |OnlyAddrs(p.dns, true)| + 18 * |OnlyAddrs(p.dns, false)|
               + (if p.mtu != 0 then 4 else 0) + (if p.listenPort != 0 then 4 else 0) + 6 * |p.peers| <= size
  {
    I.EncodeSucceeds(Requested(p, refs), size);
  }

  lemma {:induction false} OfOneFamily(ps: seq<Prefix>)
    ensures |Only(ps, true)| + |Only(ps, false)| == |ps|
  {
    if ps != [] {
      OfOneFamily(ps[..|ps| - 1]);
    }
  }

  /** So a request can pass and fail for its size after its peers were imported. In a record of 64 bytes every one
      for three peers or more does, although up to 20 are accepted. */
  lemma ThreePeersNeverFit(c: Crypto, p: Params, repo: Repo, kid: string)
    requires Acceptable(p, 64) && |p.peers| >= 3
    ensures !Runnable(c, 64, p, repo, kid)
  {
    RequestFitsExactly(p, WantedRefs(c, p), 64);
    OfOneFamily(p.addrs);
  }

  /** The peer that entered the tree: the requested record, or the stored one adopted instead. */
  predicate Entered(c: Crypto, size: RecordSize, spec: PeerSpec, psk: Option<bytes>, adopt: bool, before: Repo,
      ifPub: bytes, tp: TreePeer) {
    var want := WantedRecord(c, size, spec, psk, ifPub);
    && tp.pub == spec.pub && tp.kid == KeyId(c, tp.pub) && want.Some? && P.Decode(tp.raw, size) == Some(tp.rec)
    && WrapFits(c, ifPub, tp.kid, psk)
    && (if tp.kid in before
        then && Normalize(before[tp.kid].descr, size) == Some(tp.raw) && tp.title == before[tp.kid].title
             && before[tp.kid].pub == tp.pub && (tp.raw == want.value || (adopt && tp.rec.psk == []))
        else tp.raw == want.value && tp.title == spec.title)
  }

  /** What the record of a peer asked for says: its endpoint, ranges and keepalive as given, up to the regrouping
      that a record makes, and the key wrapped for this peer and no other. */
  predicate AsSpecified(c: Crypto, spec: PeerSpec, psk: Option<bytes>, ifPub: bytes, rec: P.Peer) {
    && rec.endpoint == spec.endpoint.Canon() && rec.allowedIPs == Grouped(spec.allowedIPs)
    && rec.keepalive == spec.keepalive
    && (psk.None? ==> rec.psk == [])
    && (psk.Some? ==> |rec.psk| == 40 && rec.psk == c.wrap(ifPub, "ENC-WG-PSK-v2|" + KeyId(c, spec.pub), psk.value))
  }

  /** A peer that entered the tree says what was specified, unless its key was there already with a record that
      carries no key of anybody's and was taken as it was. */
  lemma EnteredMeans(c: Crypto, size: RecordSize, spec: PeerSpec, psk: Option<bytes>, adopt: bool, before: Repo,
      ifPub: bytes, tp: TreePeer)
    requires Entered(c, size, spec, psk, adopt, before, ifPub, tp)
    ensures tp.pub == spec.pub && tp.kid == KeyId(c, spec.pub)
    ensures tp.kid !in before ==> AsSpecified(c, spec, psk, ifPub, tp.rec) && tp.title == spec.title
    ensures tp.kid in before ==>
      && Normalize(before[tp.kid].descr, size) == Some(tp.raw) && tp.title == before[tp.kid].title
      && (AsSpecified(c, spec, psk, ifPub, tp.rec) || (adopt && tp.rec.psk == []))
  {
    P.DecodeOfEncode(RecordOf(spec, WrappedFor(c, ifPub, KeyId(c, spec.pub), psk)), size);
  }

  /** Peer `i` of a provisioned tree. */
  predicate Chosen(c: Crypto, size: RecordSize, p: Params, before: Repo, ifPub: bytes, i: nat, tp: TreePeer)
    requires i < |p.peers|
  {
    Entered(c, size, p.peers[i], p.psk, p.adopt, before, ifPub, tp)
  }

  /** The repository grew by at most the keys of the first `n` peers, and nothing in it changed. */
  ghost predicate Grew(c: Crypto, p: Params, n: nat, before: Repo, after: Repo)
    requires n <= |p.peers|
  {
    && (forall k :: k in before ==> k in after && after[k] == before[k])
    && (forall k :: k in after && k !in before ==> exists j :: 0 <= j < n && k == KeyId(c, p.peers[j].pub))
  }

  /** Whether a peer can enter the tree, told from the repository: its key wraps, its record fits, and its key
      is new or stored with a record that may be taken. */
  predicate Placeable(c: Crypto, size: RecordSize, spec: PeerSpec, psk: Option<bytes>, adopt: bool, repo: Repo,
      ifPub: bytes) {
    && WrapFits(c, ifPub, KeyId(c, spec.pub), psk)
    && var want := WantedRecord(c, size, spec, psk, ifPub);
       && want.Some?
       && (KeyId(c, spec.pub) !in repo || CanAdopt(c, size, repo, spec, want.value, adopt))
  }

  /** Wrap, encode, place; the record that counts from here on is the stored one. */
  method PlaceOne(dev: Hem, spec: PeerSpec, psk: Option<bytes>, adopt: bool, ifKid: string)
    returns (r: Outcome<(M.Record, Placement)>, ghost tp: TreePeer)
    requires dev.Valid() && ifKid in dev.repo
    modifies dev`repo
    ensures dev.Valid()
    ensures !r.Done? ==> dev.repo == old(dev.repo)
    ensures r.Done? ==>
      && Stored(dev.c, dev.size, dev.repo, tp)
      && Entered(dev.c, dev.size, spec, psk, adopt, old(dev.repo), old(dev.repo)[ifKid].pub, tp)
      && (tp.kid !in old(dev.repo) ==> AsSpecified(dev.c, spec, psk, old(dev.repo)[ifKid].pub, tp.rec))
      && r.value.0 == M.Record(tp.pub, tp.raw)
      && (tp.kid in old(dev.repo) <==> r.value.1.Adopted?)
      && (tp.kid in old(dev.repo) ==> dev.repo == old(dev.repo))
      && (tp.kid !in old(dev.repo) ==>
            dev.repo == old(dev.repo)[tp.kid := Entry(spec.pub, false, spec.title, tp.raw)])
    ensures r.Rejected? ==>
      var want := WantedRecord(dev.c, dev.size, spec, psk, old(dev.repo)[ifKid].pub);
      want.Some? ==>
        KeyId(dev.c, spec.pub) in old(dev.repo) && !CanAdopt(dev.c, dev.size, old(dev.repo), spec, want.value, adopt)
    ensures dev.steady ==>
      (r.Done? <==> Placeable(dev.c, dev.size, spec, psk, adopt, old(dev.repo), old(dev.repo)[ifKid].pub))
  {
    var kid := KeyId(dev.c, spec.pub);
    tp := TreePeer(kid, "", spec.pub, [], P.EMPTY);
    var wrapped := WrapPsk(dev, ifKid, kid, psk);
    if wrapped.None? {
      return Fault, tp;
    }
    var enc := Codec.EncodePeer(RecordOf(spec, wrapped.value), dev.size);
    if enc.None? {
      return Rejected, tp;
    }
    P.DecodeOfEncode(RecordOf(spec, wrapped.value), dev.size);
    var placed := PlacePeer(dev, spec, enc.value, adopt);
    if !placed.Done? {
      return (if placed.Rejected? then Rejected else Fault), tp;
    }
    var raw := enc.value;
    if placed.value.Adopted? {
      var stored := ReadPeerRecord(dev, kid);
      if !stored.Done? || stored.value.None? {
        return Fault, tp;
      }
      raw := stored.value.value;
    } else {
      assert raw + Zeros(0) == raw && raw[..MAGIC_LEN] == MAGIC_PEER;
    }
    tp := TreePeer(kid, dev.repo[kid].title, spec.pub, raw, P.Decode(raw, dev.size).value);
    EnteredMeans(dev.c, dev.size, spec, psk, adopt, old(dev.repo), dev.repo[ifKid].pub, tp);
    return Done((M.Record(spec.pub, raw), placed.value)), tp;
  }

  /** Every peer so far is in the device, and is what was asked for or adopted. */
  ghost predicate Placed(c: Crypto, size: RecordSize, p: Params, before: Repo, repo: Repo, ifPub: bytes,
      placed: seq<TreePeer>)
  {
    && |placed| <= |p.peers|
    && forall j :: 0 <= j < |placed| ==>
      Stored(c, size, repo, placed[j]) && Chosen(c, size, p, before, ifPub, j, placed[j])
  }

  /** `Chosen` relative to the repository as the run found it, not as an earlier peer left it. */
  lemma ChosenFromStart(c: Crypto, size: RecordSize, p: Params, before: Repo, mid: Repo, ifPub: bytes,
      placed: seq<TreePeer>, tp: TreePeer)
    requires |placed| < |p.peers| && DistinctPubs(p.peers)
    requires Placed(c, size, p, before, mid, ifPub, placed) && Grew(c, p, |placed|, before, mid)
    requires Chosen(c, size, p, mid, ifPub, |placed|, tp) && (tp.kid in mid ==> mid[tp.kid].pub == tp.pub)
    ensures Chosen(c, size, p, before, ifPub, |placed|, tp)
  {
    assert tp.kid in mid ==> tp.kid in before by {
      forall j | 0 <= j < |placed| ensures tp.kid in mid ==> tp.kid != placed[j].kid {
        assert Stored(c, size, mid, placed[j]) && p.peers[j].pub != p.peers[|placed|].pub;
      }
      forall j | 0 <= j < |placed| ensures KeyId(c, p.peers[j].pub) == placed[j].kid {
        assert Chosen(c, size, p, before, ifPub, j, placed[j]);
      }
    }
  }

  lemma PlacedStep(c: Crypto, size: RecordSize, p: Params, before: Repo, mid: Repo, after: Repo, ifPub: bytes,
      placed: seq<TreePeer>, tp: TreePeer)
    requires |placed| < |p.peers| && DistinctPubs(p.peers)
    requires Placed(c, size, p, before, mid, ifPub, placed) && Grew(c, p, |placed|, before, mid)
    requires forall k :: k in mid ==> k in after && after[k] == mid[k]
    requires Stored(c, size, after, tp) && Chosen(c, size, p, mid, ifPub, |placed|, tp)
    ensures Placed(c, size, p, before, after, ifPub, placed + [tp])
  {
    ChosenFromStart(c, size, p, before, mid, ifPub, placed, tp);
    forall j | 0 <= j < |placed| ensures Stored(c, size, after, placed[j]) {
      assert Stored(c, size, mid, placed[j]);
    }
  }

  /** No earlier peer has the same identifier. */
  predicate NewId(c: Crypto, p: Params, i: nat)
    requires i < |p.peers|
  {
    forall j :: 0 <= j < i ==> KeyId(c, p.peers[j].pub) != KeyId(c, p.peers[i].pub)
  }

  /** What the earlier peers of a run have left makes no difference to the next one, unless they share an id. */
  lemma PlaceableFromStart(c: Crypto, size: RecordSize, p: Params, before: Repo, mid: Repo, ifPub: bytes,
      placed: seq<TreePeer>)
    requires |placed| < |p.peers| && DistinctPubs(p.peers)
    requires Placed(c, size, p, before, mid, ifPub, placed) && Grew(c, p, |placed|, before, mid)
    ensures var i := |placed|;
            Placeable(c, size, p.peers[i], p.psk, p.adopt, mid, ifPub)
            <==> Placeable(c, size, p.peers[i], p.psk, p.adopt, before, ifPub) && NewId(c, p, i)
  {
    var i, id := |placed|, KeyId(c, p.peers[|placed|].pub);
    if NewId(c, p, i) {
      assert id in mid <==> id in before;
    } else {
      var j :| 0 <= j < i && KeyId(c, p.peers[j].pub) == id;
      assert Stored(c, size, mid, placed[j]) && Chosen(c, size, p, before, ifPub, j, placed[j]);
      assert p.peers[j].pub != p.peers[i].pub;
    }
  }

  method PlaceNext(dev: Hem, p: Params, ifKid: string, ghost before: Repo, ghost placed: seq<TreePeer>, i: nat)
    returns (r: Outcome<(M.Record, Placement)>, ghost tp: TreePeer)
    requires dev.Valid() && ifKid in dev.repo && DistinctPubs(p.peers) && i == |placed| < |p.peers|
    requires Grew(dev.c, p, i, before, dev.repo)
    requires Placed(dev.c, dev.size, p, before, dev.repo, dev.repo[ifKid].pub, placed)
    modifies dev`repo
    ensures dev.Valid() && ifKid in dev.repo && dev.repo[ifKid] == old(dev.repo)[ifKid]
    ensures !r.Done? ==> dev.repo == old(dev.repo)
    ensures r.Done? ==> |dev.repo| == |old(dev.repo)| + if r.value.1.Imported? then 1 else 0
    ensures r.Done? ==>
      && r.value.0 == M.Record(tp.pub, tp.raw)
      && Grew(dev.c, p, i + 1, before, dev.repo)
      && Placed(dev.c, dev.size, p, before, dev.repo, dev.repo[ifKid].pub, placed + [tp])
    ensures dev.steady ==> (r.Done? <==>
      && Placeable(dev.c, dev.size, p.peers[i], p.psk, p.adopt, before, dev.repo[ifKid].pub)
      && NewId(dev.c, p, i))
  {
    PlaceableFromStart(dev.c, dev.size, p, before, dev.repo, dev.repo[ifKid].pub, placed);
    r, tp := PlaceOne(dev, p.peers[i], p.psk, p.adopt, ifKid);
    if r.Done? {
      GrewStep(dev.c, p, i, before, old(dev.repo), dev.repo);
      PlacedStep(dev.c, dev.size, p, before, old(dev.repo), dev.repo, dev.repo[ifKid].pub, placed, tp);
    }
  }

  ghost predicate PlaceableUpto(c: Crypto, size: RecordSize, p: Params, n: nat, repo: Repo, ifPub: bytes)
    requires n <= |p.peers|
  {
    forall i :: 0 <= i < n ==> Placeable(c, size, p.peers[i], p.psk, p.adopt, repo, ifPub) && NewId(c, p, i)
  }

  lemma PlaceableStep(c: Crypto, size: RecordSize, p: Params, i: nat, repo: Repo, ifPub: bytes)
    requires i < |p.peers|
    ensures var ith := Placeable(c, size, p.peers[i], p.psk, p.adopt, repo, ifPub) && NewId(c, p, i);
            && (PlaceableUpto(c, size, p, i, repo, ifPub) && ith ==> PlaceableUpto(c, size, p, i + 1, repo, ifPub))
            && (!ith ==> !PlaceableUpto(c, size, p, |p.peers|, repo, ifPub))
  {}

  /** All the peers, in the given order, which is the failover order. */
  method WritePeers(dev: Hem, p: Params, ifKid: string) returns (ok: bool, imported: nat, records: seq<M.Record>,
      ghost placed: seq<TreePeer>)
    requires dev.Valid() && ifKid in dev.repo && DistinctPubs(p.peers)
    modifies dev`repo
    ensures dev.Valid() && |placed| <= |p.peers| && Grew(dev.c, p, |placed|, old(dev.repo), dev.repo)
    ensures |dev.repo| == |old(dev.repo)| + imported
    ensures Placed(dev.c, dev.size, p, old(dev.repo), dev.repo, old(dev.repo)[ifKid].pub, placed)
    ensures records == Records(placed) && (ok <==> |placed| == |p.peers|)
    ensures dev.steady ==>
      (ok <==> PlaceableUpto(dev.c, dev.size, p, |p.peers|, old(dev.repo), old(dev.repo)[ifKid].pub))
  {
    imported, records, placed := 0, [], [];
    for i := 0 to |p.peers|
      invariant dev.Valid() && Grew(dev.c, p, i, old(dev.repo), dev.repo) && |dev.repo| == |old(dev.repo)| + imported
      invariant |placed| == i && records == Records(placed)
      invariant ifKid in dev.repo && dev.repo[ifKid] == old(dev.repo)[ifKid]
      invariant Placed(dev.c, dev.size, p, old(dev.repo), dev.repo, dev.repo[ifKid].pub, placed)
      invariant dev.steady ==> PlaceableUpto(dev.c, dev.size, p, i, old(dev.repo), dev.repo[ifKid].pub)
    {
      PlaceableStep(dev.c, dev.size, p, i, old(dev.repo), dev.repo[ifKid].pub);
      var r, tp := PlaceNext(dev, p, ifKid, old(dev.repo), placed, i);
      if !r.Done? {
        return false, imported, records, placed;
      }
      RecordsSnoc(placed, tp);
      placed := placed + [tp];
      records := records + [r.value.0];
      imported := imported + if r.value.1.Imported? then 1 else 0;
    }
    return true, imported, records, placed;
  }

  lemma RecordsSnoc(peers: seq<TreePeer>, p: TreePeer)
    ensures Records(peers + [p]) == Records(peers) + [M.Record(p.pub, p.raw)]
  {}

  lemma GrewStep(c: Crypto, p: Params, n: nat, before: Repo, mid: Repo, after: Repo)
    requires n < |p.peers| && Grew(c, p, n, before, mid)
    requires var k := KeyId(c, p.peers[n].pub); after == mid || (k in after && k !in mid && after == mid[k := after[k]])
    ensures Grew(c, p, n + 1, before, after)
    ensures forall k :: k in mid ==> k in after && after[k] == mid[k]
  {
    forall k | k in after && k !in before ensures exists j :: 0 <= j < n + 1 && k == KeyId(c, p.peers[j].pub) {
      if k !in mid {
        assert k == KeyId(c, p.peers[n].pub);
      }
    }
  }

  // ----- a whole run

  datatype RunResult = Provisioned(kid: string) | Failed(identityKid: string, removed: bool, imported: nat)

  /** What any exit leaves as it was: every key but the identity's, and nothing new but the peers'. */
  ghost predicate Kept(c: Crypto, p: Params, ifKid: string, before: Repo, after: Repo) {
    && (forall k :: k in before && k != ifKid ==> k in after && after[k] == before[k])
    && (ifKid in before ==>
      ifKid in after && after[ifKid].pub == before[ifKid].pub && after[ifKid].hasPrivate == before[ifKid].hasPrivate)
    && (ifKid in after ==> (ifKid in before && after[ifKid] == before[ifKid]) || !(MAGIC_PEER <= after[ifKid].descr))
    && (forall k :: k in after && k !in before && k != ifKid ==>
      exists j :: 0 <= j < |p.peers| && k == KeyId(c, p.peers[j].pub))
  }

  /** What a successful run has written. */
  ghost predicate Complete(c: Crypto, size: RecordSize, p: Params, before: Repo, after: Repo, kid: string,
      sum: Bytes32, placed: seq<TreePeer>) {
    && Acceptable(p, size) && |placed| == |p.peers|
    && Kept(c, p, kid, before, after)
    && (p.kid != "" ==> kid == p.kid && kid in before)
    && (p.kid == "" ==> kid !in before && kid in after && KeyId(c, after[kid].pub) == kid)
    && Sealed(c, size, after, kid, Requested(p, RefsOf(c, placed)), sum, placed)
    && after[kid].title == p.title
    && (forall j :: 0 <= j < |placed| ==>
          && Chosen(c, size, p, before, after[kid].pub, j, placed[j])
          && (placed[j].kid != kid ==> Stored(c, size, after, placed[j])))
  }

  /** What a run that wrote no interface record has left: everything that was there, the first `n` peers, and
      perhaps a new identity key without a record. */
  ghost predicate Unfinished(c: Crypto, p: Params, n: nat, before: Repo, after: Repo, ifKid: string) {
    && n <= |p.peers| && (forall k :: k in before ==> k in after && after[k] == before[k])
    && (forall k :: k in after && k !in before ==>
          (k == ifKid && after[k].descr == []) || exists j :: 0 <= j < n && k == KeyId(c, p.peers[j].pub))
    && InPlace(c, p, n, after)
  }

  predicate InPlace(c: Crypto, p: Params, n: nat, repo: Repo)
    requires n <= |p.peers|
  {
    forall j :: 0 <= j < n ==> IsPeerKid(repo, KeyId(c, p.peers[j].pub))
  }

  lemma PlacedInPlace(c: Crypto, size: RecordSize, p: Params, before: Repo, repo: Repo, ifPub: bytes,
      placed: seq<TreePeer>)
    requires Placed(c, size, p, before, repo, ifPub, placed)
    ensures InPlace(c, p, |placed|, repo)
  {
    forall j | 0 <= j < |placed| ensures IsPeerKid(repo, KeyId(c, p.peers[j].pub)) {
      assert Chosen(c, size, p, before, ifPub, j, placed[j]);
      StoredLoads(c, size, repo, placed[j]);
    }
  }

  method ObtainIdentity(dev: Hem, p: Params) returns (ifKid: Option<string>)
    requires dev.Valid()
    modifies dev`repo
    ensures dev.Valid()
    ensures ifKid.None? ==> dev.repo == old(dev.repo)
    ensures p.kid != "" ==> ifKid == Some(p.kid) && dev.repo == old(dev.repo)
    ensures p.kid == "" && ifKid.Some? ==>
      && ifKid.value !in old(dev.repo) && ifKid.value in dev.repo
      && dev.repo == old(dev.repo)[ifKid.value := dev.repo[ifKid.value]]
      && dev.repo[ifKid.value] == Entry(dev.repo[ifKid.value].pub, true, p.title, [])
      && KeyId(dev.c, dev.repo[ifKid.value].pub) == ifKid.value
  {
    if p.kid != "" {
      return Some(p.kid);
    }
    var tok := Token(dev);
    if tok.None? {
      return None;
    }
    ifKid := dev.CreateKey(p.title);
  }

  /** The peers were placed, leaving `mid`, and then the identity's record was written over. */
  ghost predicate Wrote(c: Crypto, size: RecordSize, p: Params, before: Repo, mid: Repo, after: Repo, ifKid: string,
      sum: Bytes32, placed: seq<TreePeer>)
    requires Acceptable(p, size)
  {
    && ifKid in before && ifKid in mid && ifKid in after && after == mid[ifKid := after[ifKid]]
    && Grew(c, p, |p.peers|, before, mid)
    && |placed| == |p.peers| && Placed(c, size, p, before, mid, after[ifKid].pub, placed)
    && after[ifKid].pub == before[ifKid].pub && after[ifKid].hasPrivate == before[ifKid].hasPrivate
    && after[ifKid].title == p.title
    && Sealed(c, size, after, ifKid, Requested(p, RefsOf(c, placed)), sum, placed)
  }

  lemma PlacedFull(c: Crypto, size: RecordSize, p: Params, before: Repo, repo: Repo, ifPub: bytes,
      placed: seq<TreePeer>)
    requires Placed(c, size, p, before, repo, ifPub, placed)
    ensures M.FullLength(Records(placed), size)
  {
    forall j | 0 <= j < |placed| ensures |placed[j].raw| == size {
      assert Stored(c, size, repo, placed[j]);
    }
  }

  function WantedRefs(c: Crypto, p: Params): seq<Bytes4> {
    Map((spec: PeerSpec) => MakeRef(c, spec.pub), p.peers)
  }

  /** Whether a run gets as far as the identity's record: the key is there and every peer can be placed. */
  ghost predicate Fillable(c: Crypto, size: RecordSize, p: Params, repo: Repo, kid: string) {
    kid in repo && |repo[kid].pub| == 32 && PlaceableUpto(c, size, p, |p.peers|, repo, repo[kid].pub)
  }

  /** Whether provisioning under an identity can succeed, told from the repository before it: the identity is
      there with its private half, every peer can be placed, and the record over their references fits. */
  ghost predicate Runnable(c: Crypto, size: RecordSize, p: Params, repo: Repo, kid: string)
    requires Acceptable(p, size)
  {
    && kid in repo && |repo[kid].pub| == 32 && repo[kid].hasPrivate
    && (forall i :: 0 <= i < |p.peers| ==> Placeable(c, size, p.peers[i], p.psk, p.adopt, repo, repo[kid].pub))
    && Distinct(WantedRefs(c, p))
    && I.Encode(Requested(p, WantedRefs(c, p)), size).Some?
  }

  lemma DistinctRefsNewIds(c: Crypto, p: Params)
    requires Distinct(WantedRefs(c, p))
    ensures forall i :: 0 <= i < |p.peers| ==> NewId(c, p, i)
  {
    forall i, j | 0 <= j < i < |p.peers| ensures KeyId(c, p.peers[j].pub) != KeyId(c, p.peers[i].pub) {
      RefOfKeyId(c, p.peers[i].pub);
      RefOfKeyId(c, p.peers[j].pub);
      assert WantedRefs(c, p)[i] != WantedRefs(c, p)[j];
    }
  }

  lemma RefsOfPlaced(c: Crypto, size: RecordSize, p: Params, before: Repo, repo: Repo, ifPub: bytes,
      placed: seq<TreePeer>)
    requires Placed(c, size, p, before, repo, ifPub, placed) && |placed| == |p.peers|
    ensures RefsOf(c, placed) == WantedRefs(c, p)
  {
    forall j | 0 <= j < |placed| ensures RefsOf(c, placed)[j] == WantedRefs(c, p)[j] {
      assert Chosen(c, size, p, before, ifPub, j, placed[j]);
    }
  }

  /** Everything after the identity exists, up to the point where the deferred rollback looks. */
  method RunBody(dev: Hem, p: Params, ifKid: string)
    returns (ok: bool, recordWritten: bool, imported: nat, ghost sum: Bytes32, ghost placed: seq<TreePeer>,
      ghost mid: Repo)
    requires dev.Valid() && Acceptable(p, dev.size)
    modifies dev
    ensures dev.Valid() && (ok ==> recordWritten) && (dev.steady && recordWritten ==> ok)
    ensures |placed| <= |p.peers|
    ensures !recordWritten ==>
      Grew(dev.c, p, |placed|, old(dev.repo), dev.repo) && InPlace(dev.c, p, |placed|, dev.repo)
    ensures ifKid !in old(dev.repo) ==> dev.repo == old(dev.repo) && !recordWritten
    ensures |dev.repo| == |old(dev.repo)| + imported
    ensures recordWritten ==> Wrote(dev.c, dev.size, p, old(dev.repo), mid, dev.repo, ifKid, sum, placed)
    ensures dev.steady ==> (ok <==> Runnable(dev.c, dev.size, p, old(dev.repo), ifKid))
    ensures dev.steady && Fillable(dev.c, dev.size, p, old(dev.repo), ifKid) ==> |placed| == |p.peers|
  {
    ok, recordWritten, imported, sum, placed, mid := false, false, 0, Zeros(32), [], dev.repo;
    var tok := Token(dev);
    if tok.None? {
      return;
    }
    var key := dev.GetPubKey(ifKid);
    if !key.Found? || |key.pub| != 32 {
      return;
    }
    var placedOk, records;
    placedOk, imported, records, placed := WritePeers(dev, p, ifKid);
    PlacedInPlace(dev.c, dev.size, p, old(dev.repo), dev.repo, key.pub, placed);
    if Distinct(WantedRefs(dev.c, p)) {
      DistinctRefsNewIds(dev.c, p);
    }
    if !placedOk {
      return;
    }
    mid := dev.repo;
    RefsOfPlaced(dev.c, dev.size, p, old(dev.repo), mid, key.pub, placed);
    PlacedFull(dev.c, dev.size, p, old(dev.repo), mid, key.pub, placed);
    var rec := Requested(p, M.DerivedRefs(dev.c, records));
    var seal := SealInterface(dev, ifKid, p.title, key.pub, rec, placed, records);
    if seal.Written? {
      ok, recordWritten, sum := seal.verified, true, seal.sum;
    }
  }

  lemma KeptByWriting(c: Crypto, p: Params, start: Repo, before: Repo, mid: Repo, after: Repo, ifKid: string)
    requires before == start || (ifKid !in start && ifKid in before && before == start[ifKid := before[ifKid]])
    requires Grew(c, p, |p.peers|, before, mid)
    requires ifKid in before && ifKid in after && after == mid[ifKid := after[ifKid]]
    requires after[ifKid].pub == before[ifKid].pub && after[ifKid].hasPrivate == before[ifKid].hasPrivate
    requires !(MAGIC_PEER <= after[ifKid].descr)
    ensures Kept(c, p, ifKid, start, after)
  {
    forall k | k in after && k !in start && k != ifKid
      ensures exists j :: 0 <= j < |p.peers| && k == KeyId(c, p.peers[j].pub)
    {
      assert k in mid && k !in before;
    }
  }

  lemma PlacedAfterWriting(c: Crypto, size: RecordSize, p: Params, start: Repo, before: Repo, mid: Repo, after: Repo,
                           ifKid: string, ifPub: bytes, placed: seq<TreePeer>, j: nat)
    requires Placed(c, size, p, before, mid, ifPub, placed) && j < |placed|
    requires ifKid in before && ifKid in mid && mid[ifKid] == before[ifKid] && ifKid in after
        && after == mid[ifKid := after[ifKid]]
    requires before == start || (ifKid !in start && before == start[ifKid := before[ifKid]]
        && before[ifKid].descr == [])
    ensures Chosen(c, size, p, start, ifPub, j, placed[j])
    ensures placed[j].kid != ifKid ==> Stored(c, size, after, placed[j])
  {
    var tp := placed[j];
    assert Stored(c, size, mid, tp) && Chosen(c, size, p, before, ifPub, j, tp);
    if before != start {
      assert mid[ifKid].descr == [] && tp.kid != ifKid;
    }
  }

  lemma WroteIsComplete(c: Crypto, size: RecordSize, p: Params, start: Repo, before: Repo, mid: Repo, after: Repo,
                        ifKid: string, sum: Bytes32, placed: seq<TreePeer>)
    requires Acceptable(p, size) && Wrote(c, size, p, before, mid, after, ifKid, sum, placed)
    requires p.kid != "" ==> ifKid == p.kid && before == start
    requires p.kid == "" ==> && ifKid !in start && before == start[ifKid := before[ifKid]]
                             && before[ifKid].descr == [] && KeyId(c, before[ifKid].pub) == ifKid
    ensures Complete(c, size, p, start, after, ifKid, sum, placed)
  {
    assert after[ifKid].descr[3] == MAGIC_INTERFACE[3];
    KeptByWriting(c, p, start, before, mid, after, ifKid);
    forall j | 0 <= j < |placed|
      ensures Chosen(c, size, p, start, after[ifKid].pub, j, placed[j])
      ensures placed[j].kid != ifKid ==> Stored(c, size, after, placed[j])
    {
      PlacedAfterWriting(c, size, p, start, before, mid, after, ifKid, after[ifKid].pub, placed, j);
    }
  }

  lemma KeptByGrowing(c: Crypto, p: Params, n: nat, start: Repo, before: Repo, after: Repo, ifKid: string)
    requires before == start || (ifKid !in start && ifKid in before && before == start[ifKid := before[ifKid]]
        && before[ifKid].descr == [])
    requires n <= |p.peers| && Grew(c, p, n, before, after) && InPlace(c, p, n, after)
    requires ifKid !in before ==> after == before
    ensures Kept(c, p, ifKid, start, after) && Unfinished(c, p, n, start, after, ifKid)
  {
    forall k | k in after && k !in start && k != ifKid
      ensures exists j :: 0 <= j < |p.peers| && k == KeyId(c, p.peers[j].pub)
    {
      assert k !in before;
    }
  }

  lemma KeptByRemoving(c: Crypto, p: Params, start: Repo, after: Repo, ifKid: string)
    requires Kept(c, p, ifKid, start, after) && ifKid !in start
    ensures Kept(c, p, ifKid, start, after - {ifKid})
  {}

  lemma UnfinishedByRemoving(c: Crypto, p: Params, n: nat, start: Repo, after: Repo, ifKid: string)
    requires Unfinished(c, p, n, start, after, ifKid) && ifKid !in start && ifKid in after && after[ifKid].descr == []
    ensures Unfinished(c, p, n, start, after - {ifKid}, ifKid)
  {
    var rest := after - {ifKid};
    forall j | 0 <= j < n ensures IsPeerKid(rest, KeyId(c, p.peers[j].pub)) {
      assert IsPeerKid(after, KeyId(c, p.peers[j].pub));
    }
    forall k | k in rest && k !in start ensures exists j :: 0 <= j < n && k == KeyId(c, p.peers[j].pub) {
      assert k in after && k != ifKid;
    }
  }

  /** The deferred rollback: a key this run created goes back out unless a record names it. */
  method Rollback(dev: Hem, created: bool, recordWritten: bool, ifKid: string, imported: nat) returns (r: RunResult)
    requires dev.Valid() && (created && !recordWritten && ifKid in dev.repo ==> dev.repo[ifKid].descr == [])
    modifies dev`repo
    ensures dev.Valid() && r.Failed? && r.identityKid == ifKid && r.imported == imported
    ensures r.removed ==> created && !recordWritten
    ensures dev.steady ==> (r.removed <==> created && !recordWritten)
    ensures dev.repo == if r.removed then old(dev.repo) - {ifKid} else old(dev.repo)
    ensures r.removed && ifKid in old(dev.repo) ==> |dev.repo| == |old(dev.repo)| - 1
  {
    assert (dev.repo - {ifKid}).Keys == dev.repo.Keys - {ifKid};
    if created && !recordWritten {
      var removed := dev.DeleteKey(ifKid);
      return Failed(ifKid, removed, imported);
    }
    return Failed(ifKid, false, imported);
  }

  /** The repository once there is an identity key: as it was, or with a new key in it. */
  predicate Started(p: Params, before: Repo, ifKid: string, start: Option<Repo>) {
    if p.kid != "" then start == Some(before) && ifKid == p.kid
    else start.Some? ==>
      && ifKid !in before && ifKid in start.value
      && start.value == before[ifKid := Entry(start.value[ifKid].pub, true, p.title, [])]
  }

  /** Provisioning: validate, write, and on failure take back a key that no record names. */
  method Run(dev: Hem, p: Params) returns (r: RunResult, ghost ifKid: string, ghost sum: Bytes32,
      ghost placed: seq<TreePeer>, ghost start: Option<Repo>)
    requires dev.Valid()
    modifies dev
    ensures dev.Valid()
    ensures Kept(dev.c, p, ifKid, old(dev.repo), dev.repo) && (p.kid != "" ==> ifKid == p.kid)
    ensures forall k :: k in old(dev.repo) ==> k in dev.repo
    ensures r.Provisioned? ==>
      r.kid == ifKid && Complete(dev.c, dev.size, p, old(dev.repo), dev.repo, r.kid, sum, placed)
    ensures
      r.Provisioned? && KeyId(dev.c, dev.repo[r.kid].pub) == r.kid
      && NotOwnPeer(dev.c, p, r.kid) && Clear(dev.c, p, old(dev.repo), r.kid) ==>
      LoadsHere(dev.c, dev.size, dev.repo, r.kid,
        SealedTree(dev.repo, r.kid, Requested(p, RefsOf(dev.c, placed)), sum, placed))
    ensures r.Provisioned? ==>
      AsRequested(dev.c, dev.size, p, old(dev.repo),
        SealedTree(dev.repo, r.kid, Requested(p, RefsOf(dev.c, placed)), sum, placed))
    ensures r.Failed? ==>
      || Complete(dev.c, dev.size, p, old(dev.repo), dev.repo, ifKid, sum, placed)
      || Unfinished(dev.c, p, |placed|, old(dev.repo), dev.repo, ifKid)
    ensures r.Failed? ==>
      |dev.repo| == |old(dev.repo)| + r.imported + if ifKid !in old(dev.repo) && ifKid in dev.repo then 1 else 0
    ensures r.Failed? && r.removed ==> p.kid == "" && r.identityKid !in old(dev.repo) && r.identityKid !in dev.repo
    ensures Started(p, old(dev.repo), ifKid, start)
    ensures dev.steady && r.Failed? && p.kid == "" && start.Some? ==> r.removed && r.identityKid == ifKid
    ensures
      dev.steady && r.Failed? && Acceptable(p, dev.size)
      && start.Some? && Fillable(dev.c, dev.size, p, start.value, ifKid) ==>
      |placed| == |p.peers| && Unfinished(dev.c, p, |p.peers|, old(dev.repo), dev.repo, ifKid)
    ensures dev.steady ==>
      (r.Provisioned? <==>
        start.Some? && Acceptable(p, dev.size) && Runnable(dev.c, dev.size, p, start.value, ifKid))
  {
    ifKid, sum, placed := p.kid, Zeros(32), [];
    start := if p.kid != "" then Some(dev.repo) else None;
    var valid := Validate(p, dev.size);
    if !valid {
      return Failed("", false, 0), ifKid, sum, placed, start;
    }
    var identity := ObtainIdentity(dev, p);
    if identity.None? {
      return Failed("", false, 0), ifKid, sum, placed, start;
    }
    ifKid := identity.value;
    start := Some(dev.repo);
    var ok, recordWritten, imported;
    ghost var mid;
    ok, recordWritten, imported, sum, placed, mid := RunBody(dev, p, identity.value);
    if recordWritten {
      WroteIsComplete(dev.c, dev.size, p, old(dev.repo), start.value, mid, dev.repo, ifKid, sum, placed);
    } else {
      KeptByGrowing(dev.c, p, |placed|, old(dev.repo), start.value, dev.repo, ifKid);
    }
    if ok {
      if KeyId(dev.c, dev.repo[identity.value].pub) == identity.value && NotOwnPeer(dev.c, p, ifKid)
          && Clear(dev.c, p, old(dev.repo), ifKid) {
        ProvisionedLoads(dev.c, dev.size, p, old(dev.repo), dev.repo, ifKid, sum, placed);
      }
      SealedAsRequested(dev.c, dev.size, p, old(dev.repo), dev.repo, ifKid, sum, placed);
      return Provisioned(identity.value), ifKid, sum, placed, start;
    }
    if p.kid == "" {
      KeptByRemoving(dev.c, p, old(dev.repo), dev.repo, ifKid);
      if !recordWritten {
        UnfinishedByRemoving(dev.c, p, |placed|, old(dev.repo), dev.repo, ifKid);
      }
    }
    r := Rollback(dev, p.kid == "", recordWritten, identity.value, imported);
  }

  // ----- what a run means for this identity

  /** The peer records there will be: those already there and those asked for, but not the identity's own key. */
  predicate WillBePeer(c: Crypto, p: Params, before: Repo, ifKid: string, k: string) {
    k != ifKid && (IsPeerKid(before, k) || exists i :: 0 <= i < |p.peers| && KeyId(c, p.peers[i].pub) == k)
  }

  /** Checkable before the run: no two of those share a reference. */
  ghost predicate Clear(c: Crypto, p: Params, before: Repo, ifKid: string) {
    forall j, k ::
      (WillBePeer(c, p, before, ifKid, j) && WillBePeer(c, p, before, ifKid, k) && RefOfKid(j) == RefOfKid(k)) ==>
        j == k
  }

  predicate NotOwnPeer(c: Crypto, p: Params, ifKid: string) {
    forall i :: 0 <= i < |p.peers| ==> KeyId(c, p.peers[i].pub) != ifKid
  }

  lemma PeersAfter(c: Crypto, size: RecordSize, p: Params, before: Repo, after: Repo, kid: string, sum: Bytes32,
      placed: seq<TreePeer>, k: string)
    requires Complete(c, size, p, before, after, kid, sum, placed)
    ensures IsPeerKid(after, k) <==> WillBePeer(c, p, before, kid, k)
  {
    assert after[kid].descr[3] == MAGIC_INTERFACE[3];
    if k != kid && WillBePeer(c, p, before, kid, k) && !IsPeerKid(before, k) {
      var i :| 0 <= i < |p.peers| && KeyId(c, p.peers[i].pub) == k;
      assert Chosen(c, size, p, before, after[kid].pub, i, placed[i]);
      StoredLoads(c, size, after, placed[i]);
    }
    if IsPeerKid(after, k) && k !in before {
      assert WillBePeer(c, p, before, kid, k);
    }
  }

  lemma ClearIffCollisionFree(c: Crypto, size: RecordSize, p: Params, before: Repo, after: Repo, kid: string,
      sum: Bytes32, placed: seq<TreePeer>)
    requires Complete(c, size, p, before, after, kid, sum, placed)
    ensures Clear(c, p, before, kid) <==> CollisionFree(after)
  {
    forall k ensures IsPeerKid(after, k) <==> WillBePeer(c, p, before, kid, k) {
      PeersAfter(c, size, p, before, after, kid, sum, placed, k);
    }
  }

  /** The message signed before the record was written. */
  ghost function SignedMessage(c: Crypto, size: RecordSize, ifPub: bytes, rec: I.Interface,
      placed: seq<TreePeer>): Option<bytes> {
    if |ifPub| == 32 && I.Encode(I.Unsigned(rec), size).Some?
    then M.Canonical(c, ifPub, I.Encode(I.Unsigned(rec), size).value, Records(placed), size)
    else None
  }

  /** Provision, then load: the requested addresses, servers, options and peers come back. */
  lemma ProvisionedLoads(c: Crypto, size: RecordSize, p: Params, before: Repo, after: Repo, kid: string, sum: Bytes32,
      placed: seq<TreePeer>)
    requires Complete(c, size, p, before, after, kid, sum, placed)
    requires KeyId(c, after[kid].pub) == kid && NotOwnPeer(c, p, kid) && Clear(c, p, before, kid)
    ensures LoadsHere(c, size, after, kid, SealedTree(after, kid, Requested(p, RefsOf(c, placed)), sum, placed))
  {
    forall j | 0 <= j < |placed| ensures Stored(c, size, after, placed[j]) {
      assert Chosen(c, size, p, before, after[kid].pub, j, placed[j]);
    }
    SealedLoads(c, size, after, kid, Requested(p, RefsOf(c, placed)), sum, placed);
    ClearIffCollisionFree(c, size, p, before, after, kid, sum, placed);
  }

  /** The tree is the one asked for: addresses, servers, MTU, port and label, and the peers in the given order,
      each as specified or taken over as it was stored. */
  predicate AsRequested(c: Crypto, size: RecordSize, p: Params, before: Repo, t: Tree) {
    && t.iface.addrs == Grouped(p.addrs) && t.iface.dns == GroupedAddrs(p.dns)
    && t.iface.mtu == p.mtu && t.iface.listenPort == p.listenPort && t.ifLabel == p.title
    && |t.peers| == |p.peers|
    && forall i :: 0 <= i < |t.peers| ==>
         PeerAsRequested(c, size, p.peers[i], p.psk, p.adopt, before, t.ifPub, t.peers[i])
  }

  predicate PeerAsRequested(c: Crypto, size: RecordSize, spec: PeerSpec, psk: Option<bytes>, adopt: bool, before: Repo,
      ifPub: bytes, tp: TreePeer)
  {
    && tp.pub == spec.pub
    && (tp.kid !in before ==> AsSpecified(c, spec, psk, ifPub, tp.rec) && tp.title == spec.title)
    && (tp.kid in before ==>
          && Normalize(before[tp.kid].descr, size) == Some(tp.raw)
          && (AsSpecified(c, spec, psk, ifPub, tp.rec) || (adopt && tp.rec.psk == [])))
  }

  lemma SealedAsRequested(c: Crypto, size: RecordSize, p: Params, before: Repo, after: Repo, kid: string, sum: Bytes32,
      placed: seq<TreePeer>)
    requires Complete(c, size, p, before, after, kid, sum, placed)
    ensures AsRequested(c, size, p, before, SealedTree(after, kid, Requested(p, RefsOf(c, placed)), sum, placed))
  {
    var t := SealedTree(after, kid, Requested(p, RefsOf(c, placed)), sum, placed);
    forall i | 0 <= i < |t.peers|
      ensures PeerAsRequested(c, size, p.peers[i], p.psk, p.adopt, before, t.ifPub, t.peers[i])
    {
      assert Chosen(c, size, p, before, after[kid].pub, i, placed[i]);
      EnteredMeans(c, size, p.peers[i], p.psk, p.adopt, before, after[kid].pub, placed[i]);
    }
  }

  /** Whatever loads after a completed run is what was asked for. */
  lemma LoadedAsRequested(c: Crypto, size: RecordSize, p: Params, before: Repo, after: Repo, kid: string, sum: Bytes32,
      placed: seq<TreePeer>, t: Tree)
    requires Complete(c, size, p, before, after, kid, sum, placed) && NotOwnPeer(c, p, kid)
    requires LoadsHere(c, size, after, kid, t)
    ensures t.iface.mtu == p.mtu && t.iface.listenPort == p.listenPort
    ensures t.iface.addrs == Grouped(p.addrs) && t.iface.dns == GroupedAddrs(p.dns)
    ensures |t.peers| == |p.peers| && forall i :: 0 <= i < |p.peers| ==> t.peers[i].pub == p.peers[i].pub
    ensures AsRequested(c, size, p, before, t)
  {
    ProvisionedLoadsOnlyIf(c, size, p, before, after, kid, sum, placed, t);
    ProvisionedLoads(c, size, p, before, after, kid, sum, placed);
    LoadsUnique(c, size, after, DeviceRing(after), kid, t,
                SealedTree(after, kid, Requested(p, RefsOf(c, placed)), sum, placed));
    SealedAsRequested(c, size, p, before, after, kid, sum, placed);
  }

  /** Whatever loads from a sealed record has that record's key and that record's MAC. */
  lemma LoadedFromSealed(c: Crypto, size: RecordSize, after: Repo, kid: string, rec: I.Interface, sum: Bytes32,
      placed: seq<TreePeer>, t: Tree)
    requires Sealed(c, size, after, kid, rec, sum, placed) && LoadsHere(c, size, after, kid, t)
    ensures KeyId(c, after[kid].pub) == kid && t.ifPub == after[kid].pub && t.iface.mac == sum
    ensures c.hmac(after[kid].pub, MessageOf(c, size, t)) == sum
  {
    I.DecodeOfEncode(rec.(mac := sum), size);
    assert after[kid].descr + Zeros(0) == after[kid].descr;
  }

  lemma SealedOverOwnKey(c: Crypto, size: RecordSize, p: Params, after: Repo, kid: string, sum: Bytes32,
      placed: seq<TreePeer>, i: nat, t: Tree)
    requires Acceptable(p, size) && i < |placed| && KeyId(c, placed[i].pub) == kid
    requires Sealed(c, size, after, kid, Requested(p, RefsOf(c, placed)), sum, placed)
        && LoadsHere(c, size, after, kid, t)
    requires M.FullLength(Records(placed), size)
    ensures Coincidence(c, after[kid].pub,
      SignedMessage(c, size, after[kid].pub, Requested(p, RefsOf(c, placed)), placed), Some(MessageOf(c, size, t)))
  {
    var rec := Requested(p, RefsOf(c, placed));
    LoadedFromSealed(c, size, after, kid, rec, sum, placed, t);
    LoadedOrder(c, size, after, DeviceRing(after), kid, t);
    OwnPeerNeverLoads(c, size, after, kid, placed, i, t);
    SignedDiffers(c, size, after[kid].pub, I.Encode(I.Unsigned(rec), size).value, placed, t);
  }

  lemma CompleteFull(c: Crypto, size: RecordSize, p: Params, before: Repo, after: Repo, kid: string, sum: Bytes32,
      placed: seq<TreePeer>)
    requires Complete(c, size, p, before, after, kid, sum, placed)
    ensures M.FullLength(Records(placed), size)
  {
    forall j | 0 <= j < |placed| ensures |placed[j].raw| == size {
      assert Chosen(c, size, p, before, after[kid].pub, j, placed[j]);
    }
  }

  /** And it loads on no other condition, short of two messages with one MAC. */
  lemma ProvisionedLoadsOnlyIf(c: Crypto, size: RecordSize, p: Params, before: Repo, after: Repo, kid: string,
      sum: Bytes32, placed: seq<TreePeer>, t: Tree)
    requires Complete(c, size, p, before, after, kid, sum, placed) && LoadsHere(c, size, after, kid, t)
    ensures KeyId(c, after[kid].pub) == kid && Clear(c, p, before, kid)
    ensures || NotOwnPeer(c, p, kid)
            || Coincidence(c, after[kid].pub,
                 SignedMessage(c, size, after[kid].pub, Requested(p, RefsOf(c, placed)), placed),
                 Some(MessageOf(c, size, t)))
  {
    ClearIffCollisionFree(c, size, p, before, after, kid, sum, placed);
    LoadedFromSealed(c, size, after, kid, Requested(p, RefsOf(c, placed)), sum, placed, t);
    if !NotOwnPeer(c, p, kid) {
      var i :| 0 <= i < |p.peers| && KeyId(c, p.peers[i].pub) == kid;
      assert Chosen(c, size, p, before, after[kid].pub, i, placed[i]);
      CompleteFull(c, size, p, before, after, kid, sum, placed);
      SealedOverOwnKey(c, size, p, after, kid, sum, placed, i, t);
    }
  }

  lemma OwnPeerNeverLoads(c: Crypto, size: RecordSize, after: Repo, kid: string, placed: seq<TreePeer>, i: nat, t: Tree)
    requires LoadsHere(c, size, after, kid, t) && i < |placed| && KeyId(c, placed[i].pub) == kid
    ensures multiset(Records(placed)) != multiset(Records(t.peers))
  {
    var r := Records(placed)[i];
    forall j | 0 <= j < |t.peers| ensures Records(t.peers)[j] != r {
      LoadedPeer(c, size, after, DeviceRing(after), kid, t, j);
    }
    assert r in multiset(Records(placed)) && r !in multiset(Records(t.peers));
  }

  lemma SignedDiffers(c: Crypto, size: RecordSize, ifPub: Bytes32, descr: bytes, placed: seq<TreePeer>, t: Tree)
    requires |descr| == |t.ifRaw| == size && M.FullLength(Records(placed), size) && M.FullLength(Records(t.peers), size)
    requires M.Canonical(c, ifPub, descr, Records(placed), size).Some?
    requires multiset(Records(placed)) != multiset(Records(t.peers))
    ensures M.Canonical(c, ifPub, descr, Records(placed), size)
         != M.Canonical(c, t.ifPub, t.ifRaw, Records(t.peers), size)
  {
    if M.Canonical(c, ifPub, descr, Records(placed), size) == M.Canonical(c, t.ifPub, t.ifRaw, Records(t.peers), size) {
      M.CanonicalInjective(c, ifPub, descr, Records(placed), t.ifPub, t.ifRaw, Records(t.peers), size);
    }
  }

  // ----- what a run means for everybody else

  /** On every exit, another identity that loaded still loads to the same tree, exactly when
      no references collide now and it did not use this identity's own key as a peer. */
  lemma OthersKeepLoading(c: Crypto, size: RecordSize, p: Params, ifKid: string, before: Repo, after: Repo,
      kid: string, t: Tree)
    requires Kept(c, p, ifKid, before, after) && kid != ifKid && LoadsHere(c, size, before, kid, t)
    ensures LoadsHere(c, size, after, kid, t)
       <==> && CollisionFree(after)
            && (forall i :: 0 <= i < |t.peers| && t.peers[i].kid == ifKid ==> after[ifKid] == before[ifKid])
  {
    if forall i :: 0 <= i < |t.peers| && t.peers[i].kid == ifKid ==> after[ifKid] == before[ifKid] {
      forall i | 0 <= i < |t.peers|
        ensures t.peers[i].kid in before && t.peers[i].kid in after && after[t.peers[i].kid] == before[t.peers[i].kid]
      {
        assert IsPeerKid(before, t.peers[i].kid);
      }
      LoadsStable(c, size, before, after, kid, t);
    } else {
      var i :| 0 <= i < |t.peers| && t.peers[i].kid == ifKid && after[ifKid] != before[ifKid];
      assert IsPeerKid(before, ifKid) && !IsPeerKid(after, ifKid);
    }
  }

  /** After a run that wrote its record, told from the repository it started on: another identity loads as
      before exactly when no two peer records there will be share a reference and the identity that was written
      is not one of its peers. */
  lemma OthersAfterSuccess(c: Crypto, size: RecordSize, p: Params, before: Repo, after: Repo, ifKid: string,
      sum: Bytes32, placed: seq<TreePeer>, kid: string, t: Tree)
    requires Complete(c, size, p, before, after, ifKid, sum, placed)
    requires kid != ifKid && LoadsHere(c, size, before, kid, t)
    ensures LoadsHere(c, size, after, kid, t)
       <==> Clear(c, p, before, ifKid) && forall i :: 0 <= i < |t.peers| ==> t.peers[i].kid != ifKid
  {
    ClearIffCollisionFree(c, size, p, before, after, ifKid, sum, placed);
    OthersKeepLoading(c, size, p, ifKid, before, after, kid, t);
    CompleteIsNoPeer(c, size, p, before, after, ifKid, sum, placed);
    forall i | 0 <= i < |t.peers| ensures IsPeerKid(before, t.peers[i].kid) {}
  }

  lemma CompleteIsNoPeer(c: Crypto, size: RecordSize, p: Params, before: Repo, after: Repo, ifKid: string,
      sum: Bytes32, placed: seq<TreePeer>)
    requires Complete(c, size, p, before, after, ifKid, sum, placed)
    ensures ifKid in after && !IsPeerKid(after, ifKid) && (IsPeerKid(before, ifKid) ==> after[ifKid] != before[ifKid])
  {
    assert after[ifKid].descr[3] == MAGIC_INTERFACE[3];
  }

  /** The peer records there are after `n` peers: those already there and those. */
  predicate JoinedBy(c: Crypto, p: Params, n: nat, before: Repo, k: string)
    requires n <= |p.peers|
  {
    IsPeerKid(before, k) || exists j :: 0 <= j < n && KeyId(c, p.peers[j].pub) == k
  }

  ghost predicate ClearUpto(c: Crypto, p: Params, n: nat, before: Repo)
    requires n <= |p.peers|
  {
    forall j, k :: JoinedBy(c, p, n, before, j) && JoinedBy(c, p, n, before, k) && RefOfKid(j) == RefOfKid(k) ==> j == k
  }

  lemma UnfinishedPeers(c: Crypto, p: Params, n: nat, before: Repo, after: Repo, ifKid: string, k: string)
    requires Unfinished(c, p, n, before, after, ifKid)
    ensures IsPeerKid(after, k) <==> JoinedBy(c, p, n, before, k)
  {
    if IsPeerKid(after, k) && k !in before {
      assert after[k].descr != [];
    }
  }

  /** After a run that stopped short of its record, with `n` peers placed: every identity that loaded, this one
      included, loads as before exactly when those peers and the ones already there share no reference. */
  lemma OthersAfterFailure(c: Crypto, size: RecordSize, p: Params, n: nat, before: Repo, after: Repo, ifKid: string,
      kid: string, t: Tree)
    requires Unfinished(c, p, n, before, after, ifKid) && LoadsHere(c, size, before, kid, t)
    ensures LoadsHere(c, size, after, kid, t) <==> ClearUpto(c, p, n, before)
  {
    forall i | 0 <= i < |t.peers|
      ensures t.peers[i].kid in before && t.peers[i].kid in after && after[t.peers[i].kid] == before[t.peers[i].kid]
    {
      assert IsPeerKid(before, t.peers[i].kid);
    }
    LoadsStable(c, size, before, after, kid, t);
    forall k ensures IsPeerKid(after, k) <==> JoinedBy(c, p, n, before, k) {
      UnfinishedPeers(c, p, n, before, after, ifKid, k);
    }
  }

  /** What is clear for the whole run is clear wherever it stops, unless the identity's own key is a peer's. */
  lemma ClearBeforehand(c: Crypto, p: Params, n: nat, before: Repo, ifKid: string)
    requires n <= |p.peers| && Clear(c, p, before, ifKid) && !IsPeerKid(before, ifKid) && NotOwnPeer(c, p, ifKid)
    ensures ClearUpto(c, p, n, before)
  {
    forall k | JoinedBy(c, p, n, before, k) ensures WillBePeer(c, p, before, ifKid, k) {}
  }

  /** Importing one key that shares a reference with a peer in use stops every identity. */
  lemma CollidingImport(c: Crypto, size: RecordSize, before: Repo, kid: string, t: Tree, pub: Bytes32, title: string,
      descr: bytes)
    requires LoadsHere(c, size, before, kid, t)
    requires KeyId(c, pub) !in before && MakeRef(c, pub) in t.iface.peerRefs && MAGIC_PEER <= descr
    ensures var after := before[KeyId(c, pub) := Entry(pub, false, title, descr)];
            forall k, u :: !LoadsHere(c, size, after, k, u)
  {
    var after := before[KeyId(c, pub) := Entry(pub, false, title, descr)];
    RefOfKeyId(c, pub);
    var i :| 0 <= i < |t.iface.peerRefs| && t.iface.peerRefs[i] == MakeRef(c, pub);
    assert IsPeerKid(before, t.peers[i].kid);
    CollisionStopsEveryone(c, size, after, DeviceRing(after), t.peers[i].kid, KeyId(c, pub));
  }
}