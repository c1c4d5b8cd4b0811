/** Any sequence of peer commands on one identity, run one after another. */
module Maintenance {
  import opened Base
  import opened Tlv
  import opened Kid
  import opened Repository
  import opened Device
  import opened Commands
  import I = InterfaceRecord

  /** Where a command that reported a failure can have left the device: as it was, before its reseal, or with
      everything written that a remove writes before it deletes a key, or everything there was to write. */
  ghost predicate Interrupted(c: Crypto, size: RecordSize, before: Repo, after: Repo, kid: string, cmd: Command) {
    || after == before
    || (exists t, e :: Halfway(c, size, before, after, kid, cmd, t, e))
    || (exists t, e, t' :: Completed(c, size, before, after, kid, cmd, t, e, t'))
    || (cmd.Remove? && exists t, e, t' :: Completed(c, size, before, after, kid, Remove(cmd.pub, false), t, e, t'))
  }

  method Execute(dev: Hem, kid: string, cmd: Command) returns (ok: bool, ghost t: Tree, ghost e: Edit, ghost t': Tree)
    requires dev.Valid()
    modifies dev
    ensures dev.Valid()
    ensures ok ==> Completed(dev.c, dev.size, old(dev.repo), dev.repo, kid, cmd, t, e, t')
    ensures !ok ==> Interrupted(dev.c, dev.size, old(dev.repo), dev.repo, kid, cmd)
    ensures dev.steady ==> (ok <==> CanRun(dev.c, dev.size, old(dev.repo), kid, cmd))
  {
    match cmd
    case Add(spec, psk, first, adopt) => ok, t, e, t' := PeerAdd(dev, kid, spec, psk, first, adopt);
    case Remove(pub, deleteKey) => ok, t, e, t' := PeerRemove(dev, kid, pub, deleteKey);
    case Update(spec, action) => ok, t, e, t' := PeerUpdate(dev, kid, spec, action);
  }

  // ----- the peer records over a sequence, told from the repository at its start

  /** Whether a key that did or did not have a peer record has one after a command. */
  predicate PeerThen(c: Crypto, cmd: Command, k: string, was: bool) {
    match cmd
    case Add(_, _, _, _) => was || k == CommandKey(c, cmd)
    case Remove(_, deleteKey) => was && !(deleteKey && k == CommandKey(c, cmd))
    case Update(_, _) => was
  }

  predicate PeerOver(c: Crypto, start: Repo, cmds: seq<Command>, k: string) {
    if cmds == [] then IsPeerKid(start, k)
    else PeerThen(c, cmds[|cmds| - 1], k, PeerOver(c, start, cmds[..|cmds| - 1], k))
  }

  /** When its turn comes, after `prior`, no other peer record has the reference of the key a command adds. */
  ghost predicate UncontestedAfter(c: Crypto, start: Repo, prior: seq<Command>, cmd: Command) {
    cmd.Add? ==>
      forall k :: PeerOver(c, start, prior, k) && RefOfKid(k) == Some(MakeRef(c, cmd.spec.pub)) ==>
        k == CommandKey(c, cmd)
  }

  /** Checkable before the first command, and exact: keys that are never there together may share a reference. */
  ghost predicate ClearThroughout(c: Crypto, start: Repo, cmds: seq<Command>) {
    cmds != [] ==>
      var prior, cmd := cmds[..|cmds| - 1], cmds[|cmds| - 1];
      ClearThroughout(c, start, prior) && UncontestedAfter(c, start, prior, cmd)
  }

  lemma ClearSnoc(c: Crypto, start: Repo, cmds: seq<Command>, n: nat)
    requires n < |cmds|
    ensures ClearThroughout(c, start, cmds[..n + 1])
       <==> ClearThroughout(c, start, cmds[..n]) && UncontestedAfter(c, start, cmds[..n], cmds[n])
  {
    var more := cmds[..n + 1];
    assert more[..n] == cmds[..n] && more[n] == cmds[n];
  }

  lemma PeersOverSnoc(c: Crypto, start: Repo, before: Repo, after: Repo, cmds: seq<Command>, n: nat)
    requires n < |cmds|
    requires forall k :: IsPeerKid(before, k) <==> PeerOver(c, start, cmds[..n], k)
    requires forall k :: IsPeerKid(after, k) <==> PeerAfter(c, before, cmds[n], k)
    ensures forall k :: IsPeerKid(after, k) <==> PeerOver(c, start, cmds[..n + 1], k)
    ensures Uncontested(c, before, cmds[n]) <==> UncontestedAfter(c, start, cmds[..n], cmds[n])
  {
    var more := cmds[..n + 1];
    assert more[..n] == cmds[..n] && more[n] == cmds[n];
  }

  // ----- what has been run

  /** What a command found when it ran, and the edit it made. */
  datatype Ran = Ran(repo: Repo, tree: Tree, edit: Edit)

  function EditsOf(log: seq<Ran>): seq<Edit> {
    Map((d: Ran) => d.edit, log)
  }

  /** The command found a tree that loads, being the edits before it, and made the edit it asks for. */
  ghost predicate RanAsAsked(c: Crypto, size: RecordSize, kid: string, cmd: Command, t0: Tree, prior: seq<Edit>,
      d: Ran) {
    && LoadsHere(c, size, d.repo, kid, d.tree)
    && d.tree.peers == ApplyAll(t0.peers, prior)
    && Realizes(c, size, d.repo, d.tree, cmd, d.edit)
  }

  ghost predicate History(c: Crypto, size: RecordSize, kid: string, cmds: seq<Command>, t0: Tree, log: seq<Ran>) {
    log != [] ==>
      var n := |log| - 1;
      && n < |cmds| && History(c, size, kid, cmds, t0, log[..n])
      && RanAsAsked(c, size, kid, cmds[n], t0, EditsOf(log[..n]), log[n])
  }

  lemma EditsSnoc(peers: seq<TreePeer>, log: seq<Ran>, d: Ran)
    ensures ApplyAll(peers, EditsOf(log + [d])) == Apply(ApplyAll(peers, EditsOf(log)), d.edit)
  {
    var e0, e1 := EditsOf(log), EditsOf(log + [d]);
    assert e1 == e0 + [d.edit];
    assert e1[..|e0|] == e0;
  }

  lemma HistoryStep(c: Crypto, size: RecordSize, kid: string, cmds: seq<Command>, t0: Tree, log: seq<Ran>, d: Ran)
    requires History(c, size, kid, cmds, t0, log) && |log| < |cmds|
    requires RanAsAsked(c, size, kid, cmds[|log|], t0, EditsOf(log), d)
    ensures History(c, size, kid, cmds, t0, log + [d])
  {
    var more, n := log + [d], |log|;
    assert more[..n] == log && more[n] == d;
  }

  /** The tree after the commands in `log`: the edited list, never empty, over an otherwise unchanged interface. */
  predicate IsEdited(c: Crypto, kid: string, t0: Tree, log: seq<Ran>, last: Tree) {
    && last.peers == ApplyAll(t0.peers, EditsOf(log)) && last.peers != []
    && last.ifKid == kid && last.ifPub == t0.ifPub && last.ifLabel == t0.ifLabel
    && I.Unsigned(last.iface) == I.Unsigned(t0.iface.(peerRefs := RefsOf(c, last.peers)))
  }

  /** Nothing loads but this tree. */
  ghost predicate OnlyLoads(c: Crypto, size: RecordSize, repo: Repo, kid: string, t: Tree) {
    forall u :: LoadsHere(c, size, repo, kid, u) ==> u == t
  }

  lemma {:induction false} HistoryAt(c: Crypto, size: RecordSize, kid: string, cmds: seq<Command>, t0: Tree,
      log: seq<Ran>, n: nat)
    requires History(c, size, kid, cmds, t0, log) && n < |log| <= |cmds|
    ensures RanAsAsked(c, size, kid, cmds[n], t0, EditsOf(log[..n]), log[n])
    decreases |log|
  {
    if n + 1 < |log| {
      var early := log[..|log| - 1];
      HistoryAt(c, size, kid, cmds, t0, early, n);
      assert early[..n] == log[..n] && early[n] == log[n];
    }
  }

  lemma EditsUpto(peers: seq<TreePeer>, log: seq<Ran>, n: nat)
    requires n < |log|
    ensures ApplyAll(peers, EditsOf(log[..n + 1])) == Apply(ApplyAll(peers, EditsOf(log[..n])), log[n].edit)
  {
    assert log[..n + 1] == log[..n] + [log[n]];
    EditsSnoc(peers, log[..n], log[n]);
  }

  lemma RanDelivers(c: Crypto, size: RecordSize, kid: string, cmd: Command, t0: Tree, prior: seq<Edit>, d: Ran)
    requires RanAsAsked(c, size, kid, cmd, t0, prior, d)
    ensures d.tree.peers == ApplyAll(t0.peers, prior)
    ensures Delivered(c, size, d.repo, d.tree, cmd, Apply(ApplyAll(t0.peers, prior), d.edit))
  {
    EditDelivers(c, size, d.repo, kid, d.tree, cmd, d.edit);
  }

  /** Every command delivered what it promised, to the list the earlier ones had left. */
  lemma HistoryDelivers(c: Crypto, size: RecordSize, kid: string, cmds: seq<Command>, t0: Tree, log: seq<Ran>, n: nat)
    requires History(c, size, kid, cmds, t0, log) && n < |log| <= |cmds|
    ensures log[n].tree.peers == ApplyAll(t0.peers, EditsOf(log[..n]))
    ensures Delivered(c, size, log[n].repo, log[n].tree, cmds[n], ApplyAll(t0.peers, EditsOf(log[..n + 1])))
  {
    HistoryAt(c, size, kid, cmds, t0, log, n);
    RanDelivers(c, size, kid, cmds[n], t0, EditsOf(log[..n]), log[n]);
    EditsUpto(t0.peers, log, n);
  }

  /** After the commands in `log`: the stored tree is the edited one and nothing else loads; it does, exactly when
      the last command's key was uncontested, and exactly when every key was, as told from the start. */
  ghost predicate Standing(c: Crypto, size: RecordSize, start: Repo, repo: Repo, kid: string, cmds: seq<Command>,
      t0: Tree, log: seq<Ran>, last: Tree) {
    && |log| <= |cmds| && History(c, size, kid, cmds, t0, log)
    && IsEdited(c, kid, t0, log, last) && OnlyLoads(c, size, repo, kid, last)
    && (LoadsHere(c, size, repo, kid, last) <==> ClearThroughout(c, start, cmds[..|log|]))
    && (log != [] ==> (LoadsHere(c, size, repo, kid, last) <==> Uncontested(c, log[|log| - 1].repo, cmds[|log| - 1])))
    && (forall k :: IsPeerKid(repo, k) <==> PeerOver(c, start, cmds[..|log|], k))
  }

  lemma StandingStart(c: Crypto, size: RecordSize, repo: Repo, kid: string, cmds: seq<Command>, t0: Tree)
    requires LoadsHere(c, size, repo, kid, t0)
    ensures Standing(c, size, repo, repo, kid, cmds, t0, [], t0)
  {
    LoadedIface(c, size, repo, kid, t0);
    forall u | LoadsHere(c, size, repo, kid, u) ensures u == t0 {
      LoadsUnique(c, size, repo, DeviceRing(repo), kid, t0, u);
    }
  }

  /** After a completed command, whatever loads is the edited tree. */
  lemma CompletedOnlyLoads(c: Crypto, size: RecordSize, before: Repo, after: Repo, kid: string, cmd: Command, t: Tree,
      e: Edit, t': Tree)
    requires Completed(c, size, before, after, kid, cmd, t, e, t')
    ensures OnlyLoads(c, size, after, kid, t')
  {
    forall u | LoadsHere(c, size, after, kid, u) ensures u == t' {
      UncontestedIffCollisionFree(c, before, after, cmd);
      LoadsUnique(c, size, after, DeviceRing(after), kid, t', u);
    }
  }

  lemma EditedStep(c: Crypto, size: RecordSize, before: Repo, kid: string, t0: Tree, log: seq<Ran>, t: Tree, e: Edit,
      t': Tree)
    requires LoadsHere(c, size, before, kid, t) && IsEdited(c, kid, t0, log, t) && TreeEdited(c, kid, t, e, t')
    ensures IsEdited(c, kid, t0, log + [Ran(before, t, e)], t')
  {
    CanonOfEdited(c, size, before, kid, t, t');
    EditsSnoc(t0.peers, log, Ran(before, t, e));
  }

  lemma StandingStep(c: Crypto, size: RecordSize, start: Repo, before: Repo, after: Repo, kid: string,
      cmds: seq<Command>, t0: Tree, log: seq<Ran>, last: Tree, t: Tree, e: Edit, t': Tree)
    requires |log| < |cmds| && Standing(c, size, start, before, kid, cmds, t0, log, last)
    requires Completed(c, size, before, after, kid, cmds[|log|], t, e, t')
    ensures Standing(c, size, start, after, kid, cmds, t0, log + [Ran(before, t, e)], t')
  {
    var n, more := |log|, log + [Ran(before, t, e)];
    assert t == last;
    assert RanAsAsked(c, size, kid, cmds[n], t0, EditsOf(log), Ran(before, t, e));
    HistoryStep(c, size, kid, cmds, t0, log, Ran(before, t, e));
    EditedStep(c, size, before, kid, t0, log, t, e, t');
    CompletedOnlyLoads(c, size, before, after, kid, cmds[n], t, e, t');
    PeersOverSnoc(c, start, before, after, cmds, n);
    ClearSnoc(c, start, cmds, n);
    assert more[n].repo == before;
  }

  method MaintainOne(dev: Hem, kid: string, cmds: seq<Command>, n: nat, ghost start: Repo, ghost t0: Tree,
      ghost log: seq<Ran>, ghost last: Tree)
    returns (ok: bool, ghost log': seq<Ran>, ghost last': Tree)
    requires dev.Valid() && n == |log| < |cmds|
    requires Standing(dev.c, dev.size, start, dev.repo, kid, cmds, t0, log, last)
    modifies dev
    ensures dev.Valid()
    ensures ok ==> |log'| == n + 1 && Standing(dev.c, dev.size, start, dev.repo, kid, cmds, t0, log', last')
    ensures !ok ==> Interrupted(dev.c, dev.size, old(dev.repo), dev.repo, kid, cmds[n])
    ensures dev.steady ==> (ok <==> CanRun(dev.c, dev.size, old(dev.repo), kid, cmds[n]))
  {
    log', last' := log, last;
    ghost var t, e, t';
    ok, t, e, t' := Execute(dev, kid, cmds[n]);
    if ok {
      StandingStep(dev.c, dev.size, start, old(dev.repo), dev.repo, kid, cmds, t0, log, last, t, e, t');
      log', last' := log + [Ran(old(dev.repo), t, e)], t';
    }
  }

  /** Any list of commands, run until one fails. `reached` is the device after the completed ones. */
  method Maintain(dev: Hem, kid: string, cmds: seq<Command>, ghost t0: Tree)
    returns (completed: nat, ghost log: seq<Ran>, ghost last: Tree, ghost reached: Repo)
    requires dev.Valid() && LoadsHere(dev.c, dev.size, dev.repo, kid, t0)
    modifies dev
    ensures dev.Valid() && completed == |log| <= |cmds|
    ensures Standing(dev.c, dev.size, old(dev.repo), reached, kid, cmds, t0, log, last)
    ensures completed == |cmds| ==> dev.repo == reached
    ensures completed < |cmds| ==> Interrupted(dev.c, dev.size, reached, dev.repo, kid, cmds[completed])
    ensures dev.steady && completed < |cmds| ==> !CanRun(dev.c, dev.size, reached, kid, cmds[completed])
  {
    completed, log, last, reached := 0, [], t0, dev.repo;
    StandingStart(dev.c, dev.size, dev.repo, kid, cmds, t0);
    while completed < |cmds|
      invariant dev.Valid() && completed == |log| <= |cmds| && reached == dev.repo
      invariant Standing(dev.c, dev.size, old(dev.repo), dev.repo, kid, cmds, t0, log, last)
    {
      var ok, log', last' := MaintainOne(dev, kid, cmds, completed, old(dev.repo), t0, log, last);
      if !ok {
        return;
      }
      completed, log, last, reached := completed + 1, log', last', dev.repo;
    }
  }

  /** The commands that completed were all uncontested but perhaps the last: the next one found a tree. */
  lemma EarlierUncontested(c: Crypto, size: RecordSize, start: Repo, repo: Repo, kid: string, cmds: seq<Command>,
      t0: Tree, log: seq<Ran>, last: Tree, cmd: Command)
    requires Standing(c, size, start, repo, kid, cmds, t0, log, last) && CanRun(c, size, repo, kid, cmd)
    ensures ClearThroughout(c, start, cmds[..|log|]) && LoadsHere(c, size, repo, kid, last)
  {
    var t :| LoadsHere(c, size, repo, kid, t) && Completable(c, size, repo, t, cmd);
  }

  // ----- a condition that does not look at the order

  /** The peer keys there are at the start or any command adds. */
  predicate MayBePeer(c: Crypto, repo: Repo, cmds: seq<Command>, k: string) {
    IsPeerKid(repo, k) || exists i :: 0 <= i < |cmds| && cmds[i].Add? && k == CommandKey(c, cmds[i])
  }

  lemma {:induction false} OverMayBe(c: Crypto, start: Repo, cmds: seq<Command>, n: nat, k: string)
    requires n <= |cmds| && PeerOver(c, start, cmds[..n], k)
    ensures MayBePeer(c, start, cmds, k)
    decreases n
  {
    if n > 0 {
      var now := cmds[..n];
      assert now[..n - 1] == cmds[..n - 1] && now[n - 1] == cmds[n - 1];
      if PeerOver(c, start, cmds[..n - 1], k) {
        OverMayBe(c, start, cmds, n - 1, k);
      }
    }
  }

  /** No two of those share a reference. */
  ghost predicate ClearInAnyOrder(c: Crypto, start: Repo, cmds: seq<Command>) {
    forall j, k :: MayBePeer(c, start, cmds, j) && MayBePeer(c, start, cmds, k) && RefOfKid(j) == RefOfKid(k) ==> j == k
  }

  /** Then no order of adding and removing them makes them collide. */
  lemma {:induction false} AnyOrderIsClear(c: Crypto, start: Repo, cmds: seq<Command>, n: nat)
    requires n <= |cmds| && ClearInAnyOrder(c, start, cmds)
    ensures ClearThroughout(c, start, cmds[..n])
    decreases n
  {
    if n > 0 {
      var cmd := cmds[n - 1];
      AnyOrderIsClear(c, start, cmds, n - 1);
      ClearSnoc(c, start, cmds, n - 1);
      if cmd.Add? {
        RefOfKeyId(c, cmd.spec.pub);
        assert MayBePeer(c, start, cmds, CommandKey(c, cmd));
        forall k | PeerOver(c, start, cmds[..n - 1], k) ensures MayBePeer(c, start, cmds, k) {
          OverMayBe(c, start, cmds, n - 1, k);
        }
      }
    }
  }
}
