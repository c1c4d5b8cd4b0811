/** The daemon's one tunnel slot, and every interleaving of the connections that want it. */
module Daemon {
  import opened Base

  type Principal = string
  type ConnId = nat
  type SessionId = nat

  // ----- the slot, as the mutex guards it

  datatype Slot = Slot(running: bool, owner: Principal, cancel: Option<SessionId>, tun: Option<SessionId>)

  const FREE := Slot(false, "", None, None)

  function Taken(slot: Slot, who: Principal, sid: SessionId): Slot {
    slot.(running := true, owner := who, cancel := Some(sid))
  }

  function Cleared(slot: Slot): Slot {
    slot.(running := false, cancel := None, tun := None)
  }

  /** The session a stop by `who` cancels, if any. */
  function StopTarget(slot: Slot, who: Principal): Option<SessionId> {
    if slot.running && slot.owner == who then slot.cancel else None
  }

  /** The slot's four fields; each method is one critical section. */
  class Server {
    var running: bool
    var owner: Principal
    var cancel: Option<SessionId>
    var tun: Option<SessionId>

    function Snapshot(): Slot
      reads this
    {
      Slot(running, owner, cancel, tun)
    }

    constructor ()
      ensures Snapshot() == FREE
    {
      running, owner, cancel, tun := false, "", None, None;
    }

    /** The first critical section of start; refused whoever asks while a tunnel is running. */
    method Acquire(who: Principal, sid: SessionId) returns (ok: bool)
      modifies this
      ensures ok <==> !old(running)
      ensures Snapshot() == if ok then Taken(old(Snapshot()), who, sid) else old(Snapshot())
    {
      if running {
        return false;
      }
      running, owner, cancel := true, who, Some(sid);
      return true;
    }

    /** The second one, once the tunnel is open. */
    method Publish(sid: SessionId)
      modifies this
      ensures Snapshot() == old(Snapshot()).(tun := Some(sid))
    {
      tun := Some(sid);
    }

    method Stop(who: Principal) returns (cancelled: Option<SessionId>)
      ensures cancelled == StopTarget(Snapshot(), who)
    {
      if !running || owner != who {
        return None;
      }
      return cancel;
    }

    /** The first look of refresh. */
    method OwnedBy(who: Principal) returns (yes: bool)
      ensures yes <==> running && owner == who
    {
      return running && owner == who;
    }

    /** The second look of refresh, under a lock of its own. */
    method Current() returns (t: Option<SessionId>)
      ensures t == tun
    {
      return tun;
    }

    method Clear()
      modifies this
      ensures Snapshot() == Cleared(old(Snapshot()))
    {
      running, cancel, tun := false, None, None;
    }
  }

  // ----- connections and sessions

  /** Where a session is: its slot is held from Opening until it is Freed. */
  datatype Phase = Opening | Failing | Opened | Running | Returned | Freed

  datatype Session = Session(conn: ConnId, who: Principal, phase: Phase, cancelled: bool) {
    predicate Holding() { phase != Freed }

    predicate InStart() { phase == Opening || phase == Failing || phase == Opened }

    /** Neither cancelled nor finished. */
    predicate Live() { !cancelled && (phase == Opening || phase == Opened || phase == Running) }
  }

  /** Where a connection's handler is between its critical sections. */
  datatype Pc = Reading | Starting(sid: SessionId) | Returning | Refreshing(token: string) | Closed

  datatype Conn = Conn(who: Principal, started: bool, pc: Pc)

  datatype SlotEvent = Acquired(sid: SessionId) | Released(sid: SessionId)

  /** A token that connection `sender` sent and session `sid` now acts with. */
  datatype Delivery = Delivery(sid: SessionId, sender: ConnId, token: string)

  datatype State = State(
    slot: Slot, conns: map<ConnId, Conn>, sessions: seq<Session>,
    delivered: seq<Delivery>,  // refreshes that reached a tunnel
    history: seq<SlotEvent>)

  const INIT := State(FREE, map[], [], [], [])

  datatype Step =
    | Connect(c: ConnId, who: Principal)
    | Start(c: ConnId)                    // first critical section of start
    | OpenOk(c: ConnId)
    | OpenFails(c: ConnId)                // Open returned an error: cancel()
    | ClearFailed(c: ConnId)              // then clear()
    | PublishTun(c: ConnId)               // second critical section, and the goroutine
    | MarkStarted(c: ConnId)
    | Stop(c: ConnId)
    | RefreshCheck(c: ConnId, token: string)
    | RefreshApply(c: ConnId)
    | Hangup(c: ConnId)                   // the read failed: the deferred stop, then close
    | TunnelReturns(sid: SessionId)       // Run came back, for whatever reason
    | ClearReturned(sid: SessionId)
    | DeferredCancel(sid: SessionId)

  predicate At(s: State, c: ConnId, pc: Pc) {
    c in s.conns && s.conns[c].pc == pc
  }

  function SetConn(s: State, c: ConnId, k: Conn): State {
    s.(conns := s.conns[c := k])
  }

  function SetSession(s: State, sid: SessionId, x: Session): State
    requires sid < |s.sessions|
  {
    s.(sessions := s.sessions[sid := x])
  }

  function CancelSession(s: State, target: Option<SessionId>): State {
    if target.Some? && target.value < |s.sessions|
    then SetSession(s, target.value, s.sessions[target.value].(cancelled := true))
    else s
  }

  function Free(s: State, sid: SessionId): State
    requires sid < |s.sessions|
  {
    SetSession(s, sid, s.sessions[sid].(phase := Freed)).(
      slot := Cleared(s.slot), history := s.history + [Released(sid)])
  }

  /** Whether a step can happen. */
  predicate Enabled(s: State, step: Step) {
    match step
    case Connect(c, _) => c !in s.conns
    case Start(c) => At(s, c, Reading)
    case OpenOk(c) => c in s.conns && s.conns[c].pc.Starting? && SidOf(s, c) < |s.sessions|
        && s.sessions[SidOf(s, c)].phase == Opening
    case OpenFails(c) => c in s.conns && s.conns[c].pc.Starting? && SidOf(s, c) < |s.sessions|
        && s.sessions[SidOf(s, c)].phase == Opening
    case ClearFailed(c) => c in s.conns && s.conns[c].pc.Starting? && SidOf(s, c) < |s.sessions|
        && s.sessions[SidOf(s, c)].phase == Failing
    case PublishTun(c) => c in s.conns && s.conns[c].pc.Starting? && SidOf(s, c) < |s.sessions|
        && s.sessions[SidOf(s, c)].phase == Opened
    case MarkStarted(c) => At(s, c, Returning)
    case Stop(c) => At(s, c, Reading)
    case RefreshCheck(c, _) => At(s, c, Reading)
    case RefreshApply(c) => c in s.conns && s.conns[c].pc.Refreshing?
    case Hangup(c) => At(s, c, Reading)
    case TunnelReturns(sid) => sid < |s.sessions| && s.sessions[sid].phase == Running
    case ClearReturned(sid) => sid < |s.sessions| && s.sessions[sid].phase == Returned
    case DeferredCancel(sid) => sid < |s.sessions| && s.sessions[sid].phase == Freed
  }

  function SidOf(s: State, c: ConnId): SessionId {
    if c in s.conns && s.conns[c].pc.Starting? then s.conns[c].pc.sid else 0
  }

  function Next(s: State, step: Step): State
    requires Enabled(s, step)
  {
    match step
    case Connect(c, who) => SetConn(s, c, Conn(who, false, Reading))
    case Start(c) =>
      var k, sid := s.conns[c], |s.sessions|;
      if s.slot.running then s
      else SetConn(s, c, k.(pc := Starting(sid))).(
             slot := Taken(s.slot, k.who, sid),
             sessions := s.sessions + [Session(c, k.who, Opening, false)],
             history := s.history + [Acquired(sid)])
    case OpenOk(c) => SetSession(s, SidOf(s, c), s.sessions[SidOf(s, c)].(phase := Opened))
    case OpenFails(c) => SetSession(s, SidOf(s, c), s.sessions[SidOf(s, c)].(phase := Failing, cancelled := true))
    case ClearFailed(c) => SetConn(Free(s, SidOf(s, c)), c, s.conns[c].(pc := Reading))
    case PublishTun(c) =>
      SetConn(SetSession(s, SidOf(s, c), s.sessions[SidOf(s, c)].(phase := Running)), c, s.conns[c].(pc := Returning)).(
        slot := s.slot.(tun := Some(SidOf(s, c))))
    case MarkStarted(c) => SetConn(s, c, s.conns[c].(started := true, pc := Reading))
    case Stop(c) => SetConn(CancelSession(s, StopTarget(s.slot, s.conns[c].who)), c, s.conns[c].(started := false))
    case RefreshCheck(c, token) =>
      if s.slot.running
          && s.slot.owner == s.conns[c].who then SetConn(s, c, s.conns[c].(pc := Refreshing(token))) else s
    case RefreshApply(c) =>
      var k := s.conns[c];
      SetConn(
        if s.slot.tun.None? then s else s.(delivered := s.delivered + [Delivery(s.slot.tun.value, c, k.pc.token)]),
        c, k.(pc := Reading))
    case Hangup(c) =>
      var k := s.conns[c];
      SetConn(if k.started then CancelSession(s, StopTarget(s.slot, k.who)) else s, c, k.(pc := Closed))
    case TunnelReturns(sid) => SetSession(s, sid, s.sessions[sid].(phase := Returned))
    case ClearReturned(sid) => Free(s, sid)
    case DeferredCancel(sid) => SetSession(s, sid, s.sessions[sid].(cancelled := true))
  }

  /** The state after a sequence of steps, if each could happen in turn. */
  function Exec(steps: seq<Step>): Option<State> {
    if steps == [] then Some(INIT)
    else
      match Exec(steps[..|steps| - 1])
      case None => None
      case Some(s) => if Enabled(s, steps[|steps| - 1]) then Some(Next(s, steps[|steps| - 1])) else None
  }

  // ----- the steps, run on a server

  /** One step of some handler or tunnel, doing to the slot only what a critical section of the
      server does: the transition system is what the server executes. */
  method Perform(server: Server, s: State, step: Step) returns (s': State)
    requires Enabled(s, step) && server.Snapshot() == s.slot
    modifies server
    ensures s' == Next(s, step) && server.Snapshot() == s'.slot
  {
    match step {
      case Start(c) =>
        s' := PerformStart(server, s, c);
        return;
      case ClearFailed(c) =>
        server.Clear();
        s' := SetSession(s, SidOf(s, c), s.sessions[SidOf(s, c)].(phase := Freed));
        s' := SetConn(s', c, s.conns[c].(pc := Reading)).(history := s.history + [Released(SidOf(s, c))]);
      case ClearReturned(sid) =>
        server.Clear();
        s' := SetSession(s, sid, s.sessions[sid].(phase := Freed)).(history := s.history + [Released(sid)]);
      case PublishTun(c) =>
        server.Publish(SidOf(s, c));
        s' := SetSession(s, SidOf(s, c), s.sessions[SidOf(s, c)].(phase := Running));
        s' := SetConn(s', c, s.conns[c].(pc := Returning));
      case Stop(c) =>
        s' := PerformStop(server, s, s.conns[c].who);
        s' := SetConn(s', c, s.conns[c].(started := false));
      case Hangup(c) =>
        s' := s;
        if s.conns[c].started {
          s' := PerformStop(server, s, s.conns[c].who);
        }
        s' := SetConn(s', c, s.conns[c].(pc := Closed));
      case RefreshCheck(c, token) =>
        var mine := server.OwnedBy(s.conns[c].who);
        s' := if mine then SetConn(s, c, s.conns[c].(pc := Refreshing(token))) else s;
      case RefreshApply(c) =>
        var t := server.Current();
        s' := SetConn(s, c, s.conns[c].(pc := Reading));
        if t.Some? {
          s' := s'.(delivered := s.delivered + [Delivery(t.value, c, s.conns[c].pc.token)]);
        }
      case _ =>
        s' := Next(s, step);  // no critical section
    }
    s' := s'.(slot := server.Snapshot());
  }

  method PerformStart(server: Server, s: State, c: ConnId) returns (s': State)
    requires Enabled(s, Start(c)) && server.Snapshot() == s.slot
    modifies server
    ensures s' == Next(s, Start(c)) && server.Snapshot() == s'.slot
  {
    var k, sid := s.conns[c], |s.sessions|;
    var ok := server.Acquire(k.who, sid);
    s' := s;
    if ok {
      s' := SetConn(s, c, k.(pc := Starting(sid))).(
        sessions := s.sessions + [Session(c, k.who, Opening, false)], history := s.history + [Acquired(sid)]);
    }
    s' := s'.(slot := server.Snapshot());
  }

  method PerformStop(server: Server, s: State, who: Principal) returns (s': State)
    requires server.Snapshot() == s.slot
    ensures s' == CancelSession(s, StopTarget(s.slot, who))
  {
    var target := server.Stop(who);
    s' := CancelSession(s, target);
  }

  /** Any sequence of steps, run on a new server from its first one: what it comes to is `Exec`. */
  method Replay(steps: seq<Step>) returns (server: Server, r: Option<State>)
    ensures r == Exec(steps)
    ensures r.Some? ==> Inv(r.value) && server.Snapshot() == r.value.slot
  {
    server := new Server();
    var s := INIT;
    for i := 0 to |steps|
      invariant Exec(steps[..i]) == Some(s) && server.Snapshot() == s.slot
    {
      assert steps[..i + 1][..i] == steps[..i];
      if !Enabled(s, steps[i]) {
        StuckForGood(steps, i + 1);
        return server, None;
      }
      s := Perform(server, s, steps[i]);
    }
    assert steps[..|steps|] == steps;
    Reachable(steps);
    return server, Some(s);
  }

  lemma {:induction false} StuckForGood(steps: seq<Step>, i: nat)
    requires i <= |steps| && Exec(steps[..i]) == None
    ensures Exec(steps) == None
  {
    if i < |steps| {
      var init := steps[..|steps| - 1];
      assert init[..i] == steps[..i];
      StuckForGood(init, i);
    } else {
      assert steps[..i] == steps;
    }
  }

  // ----- the invariant

  /** The slot is held by exactly the session it names, which belongs to the named owner. */
  predicate SlotInv(s: State) {
    && (s.slot.running ==> s.slot.cancel.Some? && s.slot.cancel.value < |s.sessions|
                           && s.sessions[s.slot.cancel.value].Holding()
                               && s.slot.owner == s.sessions[s.slot.cancel.value].who)
    && (!s.slot.running ==> s.slot.cancel == None && s.slot.tun == None)
    && (forall i :: 0 <= i < |s.sessions| && s.sessions[i].Holding() ==> s.slot.running && s.slot.cancel == Some(i))
    && (s.slot.tun.Some? ==> s.slot.tun == s.slot.cancel && !s.sessions[s.slot.tun.value].InStart())
    && (s.slot.tun.None? && s.slot.running ==> s.sessions[s.slot.cancel.value].InStart())
  }

  /** A session belongs to a connection of its own principal. */
  predicate OwnerInv(s: State) {
    forall i :: 0 <= i < |s.sessions| ==>
      s.sessions[i].conn in s.conns && s.sessions[i].who == s.conns[s.sessions[i].conn].who
  }

  /** Sessions inside start and handlers inside start match one to one. */
  predicate StartInv(s: State) {
    && (forall i :: 0 <= i < |s.sessions| && s.sessions[i].InStart() ==> At(s, s.sessions[i].conn, Starting(i)))
    && (forall c :: c in s.conns && s.conns[c].pc.Starting? ==>
          SidOf(s, c) < |s.sessions| && s.sessions[SidOf(s, c)].conn == c && s.sessions[SidOf(s, c)].InStart())
  }

  /** No window, no tunnel. */
  predicate WindowInv(s: State) {
    && (forall i :: 0 <= i < |s.sessions| ==> s.sessions[i].conn in s.conns)
    && (forall i :: 0 <= i < |s.sessions| && s.sessions[i].Live() ==>
          var k := s.conns[s.sessions[i].conn];
          k.pc != Closed && (k.started || k.pc == Starting(i) || k.pc == Returning))
  }

  /** Acquisitions and releases alternate, each release naming the session just acquired. */
  predicate HistoryInv(s: State) {
    && (forall i :: 0 <= i < |s.history| ==>
          if i % 2 == 0 then s.history[i].Acquired? && s.history[i].sid == i / 2
          else s.history[i] == Released(i / 2))
    && |s.history| == 2 * |s.sessions| - (if s.slot.running then 1 else 0)
    && (s.slot.running ==> s.slot.cancel == Some(|s.sessions| - 1))
  }

  predicate Inv(s: State) {
    SlotInv(s) && OwnerInv(s) && StartInv(s) && WindowInv(s) && HistoryInv(s)
  }

  // ----- preserved by every step, one kind of step at a time

  predicate IsHandler(step: Step) {
    step.Connect? || step.MarkStarted? || step.RefreshCheck? || step.RefreshApply?
  }

  predicate IsSession(step: Step) {
    step.OpenOk? || step.OpenFails? || step.TunnelReturns? || step.DeferredCancel?
  }

  predicate IsStopping(step: Step) {
    step.Stop? || step.Hangup?
  }

  predicate IsTaking(step: Step) {
    step.Start? || step.PublishTun?
  }

  predicate IsFreeing(step: Step) {
    step.ClearFailed? || step.ClearReturned?
  }

  lemma HandlerKeepsSlot(s: State, step: Step)
    requires Inv(s) && Enabled(s, step) && IsHandler(step)
    ensures SlotInv(Next(s, step))
  {}

  lemma HandlerKeepsOwner(s: State, step: Step)
    requires Inv(s) && Enabled(s, step) && IsHandler(step)
    ensures OwnerInv(Next(s, step))
  {}

  lemma HandlerKeepsStart(s: State, step: Step)
    requires Inv(s) && Enabled(s, step) && IsHandler(step)
    ensures StartInv(Next(s, step))
  {}

  lemma HandlerKeepsWindow(s: State, step: Step)
    requires Inv(s) && Enabled(s, step) && IsHandler(step)
    ensures WindowInv(Next(s, step))
  {}

  lemma HandlerKeepsHistory(s: State, step: Step)
    requires Inv(s) && Enabled(s, step) && IsHandler(step)
    ensures HistoryInv(Next(s, step))
  {}

  lemma SessionKeepsSlot(s: State, step: Step)
    requires Inv(s) && Enabled(s, step) && IsSession(step)
    ensures SlotInv(Next(s, step))
  {}

  lemma SessionKeepsOwner(s: State, step: Step)
    requires Inv(s) && Enabled(s, step) && IsSession(step)
    ensures OwnerInv(Next(s, step))
  {}

  lemma SessionKeepsStart(s: State, step: Step)
    requires Inv(s) && Enabled(s, step) && IsSession(step)
    ensures StartInv(Next(s, step))
  {}

  lemma SessionKeepsWindow(s: State, step: Step)
    requires Inv(s) && Enabled(s, step) && IsSession(step)
    ensures WindowInv(Next(s, step))
  {}

  lemma SessionKeepsHistory(s: State, step: Step)
    requires Inv(s) && Enabled(s, step) && IsSession(step)
    ensures HistoryInv(Next(s, step))
  {}

  lemma StoppingKeepsSlot(s: State, step: Step)
    requires Inv(s) && Enabled(s, step) && IsStopping(step)
    ensures SlotInv(Next(s, step))
  {}

  lemma StoppingKeepsOwner(s: State, step: Step)
    requires Inv(s) && Enabled(s, step) && IsStopping(step)
    ensures OwnerInv(Next(s, step))
  {}

  lemma CancelKeepsStart(s: State, target: Option<SessionId>)
    requires StartInv(s)
    ensures StartInv(CancelSession(s, target))
  {}

  lemma LeavingReadingKeepsStart(s: State, c: ConnId, k: Conn)
    requires StartInv(s) && At(s, c, Reading) && !k.pc.Starting?
    ensures StartInv(SetConn(s, c, k))
  {}

  lemma StoppingKeepsStart(s: State, step: Step)
    requires Inv(s) && Enabled(s, step) && IsStopping(step)
    ensures StartInv(Next(s, step))
  {
    var k := s.conns[step.c];
    var m := if step.Stop? || k.started then CancelSession(s, StopTarget(s.slot, k.who)) else s;
    CancelKeepsStart(s, StopTarget(s.slot, k.who));
    LeavingReadingKeepsStart(m, step.c, if step.Stop? then k.(started := false) else k.(pc := Closed));
  }

  /** A stop that names a connection's principal cancels whatever live session the connection has. */
  lemma StopReachesOwn(s: State, c: ConnId, i: SessionId)
    requires Inv(s) && c in s.conns && i < |s.sessions| && s.sessions[i].Live() && s.sessions[i].conn == c
    ensures StopTarget(s.slot, s.conns[c].who) == Some(i)
  {}

  lemma StoppingKeepsWindow(s: State, step: Step)
    requires Inv(s) && Enabled(s, step) && IsStopping(step)
    ensures WindowInv(Next(s, step))
  {
    var s' := Next(s, step);
    forall i | 0 <= i < |s'.sessions| && s'.sessions[i].Live()
      ensures var k := s'.conns[s'.sessions[i].conn];
              k.pc != Closed && (k.started || k.pc == Starting(i) || k.pc == Returning)
    {
      assert s.sessions[i].Live();
      if s.sessions[i].conn == step.c {
        StopReachesOwn(s, step.c, i);
      }
    }
  }

  lemma StoppingKeepsHistory(s: State, step: Step)
    requires Inv(s) && Enabled(s, step) && IsStopping(step)
    ensures HistoryInv(Next(s, step))
  {}

  lemma TakingKeepsSlot(s: State, step: Step)
    requires Inv(s) && Enabled(s, step) && IsTaking(step)
    ensures SlotInv(Next(s, step))
  {}

  lemma TakingKeepsOwner(s: State, step: Step)
    requires Inv(s) && Enabled(s, step) && IsTaking(step)
    ensures OwnerInv(Next(s, step))
  {}

  lemma TakingKeepsStart(s: State, step: Step)
    requires Inv(s) && Enabled(s, step) && IsTaking(step)
    ensures StartInv(Next(s, step))
  {}

  lemma TakingKeepsWindow(s: State, step: Step)
    requires Inv(s) && Enabled(s, step) && IsTaking(step)
    ensures WindowInv(Next(s, step))
  {}

  lemma TakingKeepsHistory(s: State, step: Step)
    requires Inv(s) && Enabled(s, step) && IsTaking(step)
    ensures HistoryInv(Next(s, step))
  {}

  lemma FreeingKeepsSlot(s: State, step: Step)
    requires Inv(s) && Enabled(s, step) && IsFreeing(step)
    ensures SlotInv(Next(s, step))
  {}

  lemma FreeingKeepsOwner(s: State, step: Step)
    requires Inv(s) && Enabled(s, step) && IsFreeing(step)
    ensures OwnerInv(Next(s, step))
  {}

  lemma FreeingKeepsStart(s: State, step: Step)
    requires Inv(s) && Enabled(s, step) && IsFreeing(step)
    ensures StartInv(Next(s, step))
  {}

  lemma FreeingKeepsWindow(s: State, step: Step)
    requires Inv(s) && Enabled(s, step) && IsFreeing(step)
    ensures WindowInv(Next(s, step))
  {}

  lemma FreeingKeepsHistory(s: State, step: Step)
    requires Inv(s) && Enabled(s, step) && IsFreeing(step)
    ensures HistoryInv(Next(s, step))
  {}

  lemma Preserved(s: State, step: Step)
    requires Inv(s) && Enabled(s, step)
    ensures Inv(Next(s, step))
  {
    if IsHandler(step) {
      HandlerKeepsSlot(s, step);
      HandlerKeepsOwner(s, step);
      HandlerKeepsStart(s, step);
      HandlerKeepsWindow(s, step);
      HandlerKeepsHistory(s, step);
    } else if IsSession(step) {
      SessionKeepsSlot(s, step);
      SessionKeepsOwner(s, step);
      SessionKeepsStart(s, step);
      SessionKeepsWindow(s, step);
      SessionKeepsHistory(s, step);
    } else if IsStopping(step) {
      StoppingKeepsSlot(s, step);
      StoppingKeepsOwner(s, step);
      StoppingKeepsStart(s, step);
      StoppingKeepsWindow(s, step);
      StoppingKeepsHistory(s, step);
    } else if IsTaking(step) {
      TakingKeepsSlot(s, step);
      TakingKeepsOwner(s, step);
      TakingKeepsStart(s, step);
      TakingKeepsWindow(s, step);
      TakingKeepsHistory(s, step);
    } else if IsFreeing(step) {
      FreeingKeepsSlot(s, step);
      FreeingKeepsOwner(s, step);
      FreeingKeepsStart(s, step);
      FreeingKeepsWindow(s, step);
      FreeingKeepsHistory(s, step);
    }
  }

  /** Every reachable state, over every interleaving. */
  lemma {:induction false} Reachable(steps: seq<Step>)
    requires Exec(steps).Some?
    ensures Inv(Exec(steps).value)
  {
    if steps != [] {
      Reachable(steps[..|steps| - 1]);
      var s, step := Exec(steps[..|steps| - 1]).value, steps[|steps| - 1];
      Preserved(s, step);
    }
  }

  // ----- what that means

  /** A session neither cancelled nor finished belongs to a connection that is still open and
      either counts it as started or is still inside the call that starts it. */
  lemma NoWindowNoTunnel(steps: seq<Step>, i: SessionId)
    requires Exec(steps).Some? && i < |Exec(steps).value.sessions| && Exec(steps).value.sessions[i].Live()
    ensures var s := Exec(steps).value;
            var x := s.sessions[i];
            && x.conn in s.conns && s.conns[x.conn].who == x.who && s.conns[x.conn].pc != Closed
            && (s.conns[x.conn].started || s.conns[x.conn].pc == Starting(i) || s.conns[x.conn].pc == Returning)
  {
    Reachable(steps);
  }

  /** Closing a connection leaves nothing it started running: every live session of its is cancelled. */
  lemma HangupCancels(steps: seq<Step>, c: ConnId)
    requires Exec(steps + [Hangup(c)]).Some?
    ensures var s := Exec(steps + [Hangup(c)]).value;
            forall i :: 0 <= i < |s.sessions| && s.sessions[i].conn == c ==> !s.sessions[i].Live()
  {
    Reachable(steps + [Hangup(c)]);
    assert (steps + [Hangup(c)])[..|steps|] == steps;
  }

  /** Exactly which sessions a close reaches: a live session of another connection survives it unless
      the closing connection counts itself started and has the same principal. */
  lemma HangupSpares(steps: seq<Step>, c: ConnId, i: SessionId)
    requires Exec(steps).Some? && Enabled(Exec(steps).value, Hangup(c))
    requires i < |Exec(steps).value.sessions| && Exec(steps).value.sessions[i].Live()
    ensures var s := Exec(steps).value;
            && |Next(s, Hangup(c)).sessions| == |s.sessions|
            && (Next(s, Hangup(c)).sessions[i].Live()
                <==> !(s.conns[c].started && s.conns[c].who == s.sessions[i].who))
  {
    Reachable(steps);
  }

  /** A stop reaches a live session exactly when its principal asks, through whichever connection. */
  lemma StopSpares(steps: seq<Step>, c: ConnId, i: SessionId)
    requires Exec(steps).Some? && Enabled(Exec(steps).value, Stop(c))
    requires i < |Exec(steps).value.sessions| && Exec(steps).value.sessions[i].Live()
    ensures var s := Exec(steps).value;
            && |Next(s, Stop(c)).sessions| == |s.sessions|
            && (Next(s, Stop(c)).sessions[i].Live() <==> s.conns[c].who != s.sessions[i].who)
  {
    Reachable(steps);
  }

  /** So the promise that a connection takes down only what it started holds of the closes possible in a state
      exactly when no other connection of the live session's principal that waits in a read, as one that can be
      closed does, counts itself started. */
  lemma OnlyItsOwn(steps: seq<Step>, i: SessionId)
    requires Exec(steps).Some? && i < |Exec(steps).value.sessions| && Exec(steps).value.sessions[i].Live()
    ensures var s := Exec(steps).value;
            var x := s.sessions[i];
            (forall c :: c != x.conn && Enabled(s, Hangup(c)) ==>
               |Next(s, Hangup(c)).sessions| > i && Next(s, Hangup(c)).sessions[i].Live())
            <==> (forall c :: c != x.conn && At(s, c, Reading) ==> !(s.conns[c].started && s.conns[c].who == x.who))
  {
    var s := Exec(steps).value;
    forall c | Enabled(s, Hangup(c))
      ensures |Next(s, Hangup(c)).sessions| > i
      ensures Next(s, Hangup(c)).sessions[i].Live() <==> !(s.conns[c].started && s.conns[c].who == s.sessions[i].who)
    {
      HangupSpares(steps, c, i);
    }
  }

  /** The slot is a mutex: taken exactly while one session holds it, and then it is that session's. */
  lemma SlotIsMutex(steps: seq<Step>)
    requires Exec(steps).Some?
    ensures var s := Exec(steps).value;
            && (s.slot.running <==> exists i :: 0 <= i < |s.sessions| && s.sessions[i].Holding())
            && (forall i, j :: 0 <= i < j < |s.sessions| ==> !(s.sessions[i].Holding() && s.sessions[j].Holding()))
            && (forall i :: 0 <= i < |s.sessions| && s.sessions[i].Holding() ==>
                  && s.slot.cancel == Some(i) && s.slot.owner == s.sessions[i].who
                  && s.slot.tun == if s.sessions[i].InStart() then None else Some(i))
  {
    Reachable(steps);
  }

  /** The i-th acquisition is the i-th session's and is released by one clear, its own. */
  lemma ReleasedOnce(steps: seq<Step>, i: SessionId)
    requires Exec(steps).Some? && i < |Exec(steps).value.sessions|
    ensures var s := Exec(steps).value;
            && 2 * i < |s.history| && s.history[2 * i] == Acquired(i)
            && (forall n :: 0 <= n < |s.history| && s.history[n] == Acquired(i) ==> n == 2 * i)
            && (forall n :: 0 <= n < |s.history| && s.history[n] == Released(i) ==> n == 2 * i + 1)
            && (2 * i + 1 < |s.history| ==> s.history[2 * i + 1] == Released(i))
            && (2 * i + 1 < |s.history| <==> !s.sessions[i].Holding())
  {
    Reachable(steps);
    PairedOnce(Exec(steps).value, i);
  }

  lemma PairedOnce(s: State, i: SessionId)
    requires HistoryInv(s) && SlotInv(s) && i < |s.sessions|
    ensures 2 * i < |s.history| && s.history[2 * i] == Acquired(i)
    ensures forall n :: 0 <= n < |s.history| && s.history[n] == Acquired(i) ==> n == 2 * i
    ensures forall n :: 0 <= n < |s.history| && s.history[n] == Released(i) ==> n == 2 * i + 1
    ensures 2 * i + 1 < |s.history| ==> s.history[2 * i + 1] == Released(i)
    ensures 2 * i + 1 < |s.history| <==> !s.sessions[i].Holding()
  {
    if i < |s.sessions| - 1 {
      assert s.slot.cancel != Some(i);
    }
  }

  /** A stop by anybody but the owner changes nothing except the asker's own flag. */
  lemma StrangersStopNothing(s: State, c: ConnId)
    requires Enabled(s, Stop(c)) && s.conns[c].who != s.slot.owner
    ensures Next(s, Stop(c)) == SetConn(s, c, s.conns[c].(started := false))
  {}

  /** A refresh that nothing interrupts reaches a tunnel of the caller's own, or none. */
  lemma UninterruptedRefresh(steps: seq<Step>, c: ConnId, token: string)
    requires Exec(steps + [RefreshCheck(c, token), RefreshApply(c)]).Some?
    ensures Exec(steps).Some?
    ensures var s, s' := Exec(steps + [RefreshCheck(c, token), RefreshApply(c)]).value, Exec(steps).value;
            || s.delivered == s'.delivered
            || exists i :: 0 <= i < |s.sessions| && s.delivered == s'.delivered + [Delivery(i, c, token)]
                && s.sessions[i].who == s.conns[c].who
  {
    var one := steps + [RefreshCheck(c, token)];
    var two := steps + [RefreshCheck(c, token), RefreshApply(c)];
    assert two[..|one|] == one && one[..|steps|] == steps;
    assert two[|one|] == RefreshApply(c) && one[|steps|] == RefreshCheck(c, token);
    Reachable(steps);
    var s := Exec(steps).value;
    assert Exec(one) == Some(Next(s, RefreshCheck(c, token)));
  }

  /** In general a refresh reaches the caller's own tunnel exactly when the slot is still the caller's
      at the second look; nothing between the two looks keeps it so. */
  lemma RefreshReaches(steps: seq<Step>, c: ConnId)
    requires Exec(steps).Some? && Enabled(Exec(steps).value, RefreshApply(c)) && Exec(steps).value.slot.tun.Some?
    ensures var s := Exec(steps).value;
            var s' := Next(s, RefreshApply(c));
            && s'.delivered == s.delivered + [Delivery(s.slot.tun.value, c, s.conns[c].pc.token)]
            && s.slot.tun.value < |s.sessions|
            && (s.sessions[s.slot.tun.value].who == s.conns[c].who <==> s.slot.owner == s.conns[c].who)
  {
    Reachable(steps);
  }

  // ----- a refresh told from the steps between its two looks

  /** The state after further steps, if each could happen in turn. */
  function RunFrom(s: State, steps: seq<Step>): Option<State> {
    if steps == [] then Some(s)
    else
      match RunFrom(s, steps[..|steps| - 1])
      case None => None
      case Some(m) => if Enabled(m, steps[|steps| - 1]) then Some(Next(m, steps[|steps| - 1])) else None
  }

  lemma {:induction false} ExecSplit(pre: seq<Step>, mid: seq<Step>)
    requires Exec(pre).Some?
    ensures Exec(pre + mid) == RunFrom(Exec(pre).value, mid)
    decreases |mid|
  {
    if mid == [] {
      assert pre + mid == pre;
    } else {
      var all, init := pre + mid, mid[..|mid| - 1];
      assert all[..|all| - 1] == pre + init && all[|all| - 1] == mid[|mid| - 1];
      ExecSplit(pre, init);
    }
  }

  /** Sessions are only added, and keep their connection and principal. */
  predicate SessionsKept(s: State, t: State) {
    |s.sessions| <= |t.sessions| && forall i :: 0 <= i < |s.sessions| ==>
      t.sessions[i].conn == s.sessions[i].conn && t.sessions[i].who == s.sessions[i].who
  }

  predicate ConnsKept(s: State, t: State) {
    forall c :: c in s.conns ==> c in t.conns && t.conns[c].who == s.conns[c].who
  }

  lemma {:induction false} RunKeeps(s: State, steps: seq<Step>)
    requires Inv(s) && RunFrom(s, steps).Some?
    ensures Inv(RunFrom(s, steps).value)
    ensures SessionsKept(s, RunFrom(s, steps).value) && ConnsKept(s, RunFrom(s, steps).value)
  {
    if steps != [] {
      RunKeeps(s, steps[..|steps| - 1]);
      var m, last := RunFrom(s, steps[..|steps| - 1]).value, steps[|steps| - 1];
      Preserved(m, last);
      StepKeepsSessions(m, last);
      StepKeepsConns(m, last);
    }
  }

  lemma StepKeepsSessions(s: State, step: Step)
    requires Enabled(s, step)
    ensures SessionsKept(s, Next(s, step))
  {}

  lemma StepKeepsConns(s: State, step: Step)
    requires Enabled(s, step)
    ensures ConnsKept(s, Next(s, step))
  {}

  /** A taken slot stays with its session until something clears it. */
  lemma StepHolds(s: State, step: Step)
    requires Inv(s) && Enabled(s, step) && s.slot.running && !IsFreeing(step)
    ensures var t := Next(s, step);
      t.slot.running && t.slot.cancel == s.slot.cancel && |t.sessions| == |s.sessions|
  {}

  /** A session that was not there is one whose start came after a clear. */
  lemma {:induction false} StartedAfterClear(s: State, steps: seq<Step>, i: SessionId) returns (a: nat, b: nat)
    requires Inv(s) && s.slot.running && RunFrom(s, steps).Some?
    requires |s.sessions| <= i < |RunFrom(s, steps).value.sessions|
    ensures a < b < |steps| && IsFreeing(steps[a]) && steps[b] == Start(RunFrom(s, steps).value.sessions[i].conn)
    decreases |steps|
  {
    var init, last := steps[..|steps| - 1], steps[|steps| - 1];
    var m := RunFrom(s, init).value;
    RunKeeps(s, init);
    StepKeepsSessions(m, last);
    if i < |m.sessions| {
      a, b := StartedAfterClear(s, init, i);
      assert init[a] == steps[a] && init[b] == steps[b];
    } else {
      NewMeansStart(m, last, i);
      a := ClearedBefore(s, init);
      assert init[a] == steps[a];
      b := |init|;
    }
  }

  lemma NewMeansStart(s: State, step: Step, i: SessionId)
    requires Enabled(s, step) && |s.sessions| <= i < |Next(s, step).sessions|
    ensures step == Start(Next(s, step).sessions[i].conn) && !s.slot.running
  {}

  /** A slot that was taken and is free has been cleared. */
  lemma {:induction false} ClearedBefore(s: State, steps: seq<Step>) returns (a: nat)
    requires Inv(s) && s.slot.running && RunFrom(s, steps).Some? && !RunFrom(s, steps).value.slot.running
    ensures a < |steps| && IsFreeing(steps[a])
    decreases |steps|
  {
    var init, last := steps[..|steps| - 1], steps[|steps| - 1];
    RunKeeps(s, init);
    if IsFreeing(last) {
      return |init|;
    }
    var m := RunFrom(s, init).value;
    if m.slot.running {
      StepHolds(m, last);
    } else {
      a := ClearedBefore(s, init);
      assert init[a] == steps[a];
    }
  }

  /** The state at the second look, and the session the token goes to: the last one to have taken the slot. */
  lemma SecondLook(pre: seq<Step>, mid: seq<Step>, c: ConnId, token: string)
    requires Exec(pre + [RefreshCheck(c, token)] + mid).Some?
    requires Exec(pre + [RefreshCheck(c, token)] + mid).value.slot.tun.Some?
    ensures Exec(pre + [RefreshCheck(c, token)]).Some?
    ensures var s1 := Exec(pre + [RefreshCheck(c, token)]).value;
            var s2 := Exec(pre + [RefreshCheck(c, token)] + mid).value;
      && Inv(s1) && RunFrom(s1, mid) == Some(s2) && Inv(s2)
      && s2.slot.tun.value == |s2.sessions| - 1
  {
    var one := pre + [RefreshCheck(c, token)];
    ExecPrefix(one, mid);
    Reachable(one);
    ExecSplit(one, mid);
    Reachable(one + mid);
  }

  lemma {:induction false} ExecPrefix(pre: seq<Step>, mid: seq<Step>)
    requires Exec(pre + mid).Some?
    ensures Exec(pre).Some?
    decreases |mid|
  {
    if mid == [] {
      assert pre + mid == pre;
    } else {
      var all := pre + mid;
      assert all[..|all| - 1] == pre + mid[..|mid| - 1];
      ExecPrefix(pre, mid[..|mid| - 1]);
    }
  }

  /** Whose tunnel a refresh reaches, told from the steps between its looks. A check that passed found the slot
      in the caller's hands. If no session was started since, that session gets the token; and if the session
      that gets it is a stranger's, then between the two looks the slot was cleared and after that the
      stranger's own connection started it. */
  lemma RefreshAcross(pre: seq<Step>, mid: seq<Step>, c: ConnId, token: string)
    requires Exec(pre + [RefreshCheck(c, token)] + mid).Some?
    requires var s2 := Exec(pre + [RefreshCheck(c, token)] + mid).value;
             Enabled(s2, RefreshApply(c)) && s2.slot.tun.Some?
    requires Exec(pre + [RefreshCheck(c, token)]).Some?
    requires var s1 := Exec(pre + [RefreshCheck(c, token)]).value;
             c in s1.conns && s1.slot.running && s1.slot.owner == s1.conns[c].who
    ensures var s1 := Exec(pre + [RefreshCheck(c, token)]).value;
            var s2 := Exec(pre + [RefreshCheck(c, token)] + mid).value;
            var i := s2.slot.tun.value;
      && i < |s2.sessions|
      && (|s2.sessions| == |s1.sessions| ==> s1.slot.cancel == Some(i) && s2.sessions[i].who == s2.conns[c].who)
      && (s2.sessions[i].who != s2.conns[c].who ==>
            exists a, b :: 0 <= a < b < |mid| && IsFreeing(mid[a]) && mid[b] == Start(s2.sessions[i].conn))
  {
    SecondLook(pre, mid, c, token);
    var s1 := Exec(pre + [RefreshCheck(c, token)]).value;
    var s2 := Exec(pre + [RefreshCheck(c, token)] + mid).value;
    var i := s2.slot.tun.value;
    RunKeeps(s1, mid);
    if |s2.sessions| > |s1.sessions| {
      var a, b := StartedAfterClear(s1, mid, i);
    }
  }

  // ----- nobody is stuck

  /** The connection whose handler makes a step, None for a step of a tunnel's own. */
  function HandlerOf(step: Step): Option<ConnId> {
    match step
    case TunnelReturns(_) => None
    case ClearReturned(_) => None
    case DeferredCancel(_) => None
    case _ => Some(step.c)
  }

  /** An open connection can always go on: in a read with any request or with none, inside start to the one point
      its session has come to, and elsewhere to the end of its call. A closed one is over. */
  lemma NeverStuck(steps: seq<Step>, c: ConnId)
    requires Exec(steps).Some? && c in Exec(steps).value.conns
    ensures var s := Exec(steps).value;
      match s.conns[c].pc
      case Reading =>
        && Enabled(s, Start(c)) && Enabled(s, Stop(c)) && Enabled(s, Hangup(c))
        && forall t :: Enabled(s, RefreshCheck(c, t))
      case Starting(sid) =>
        && sid < |s.sessions| && s.sessions[sid].conn == c
        && (s.sessions[sid].phase == Opening ==> Enabled(s, OpenOk(c)) && Enabled(s, OpenFails(c)))
        && (s.sessions[sid].phase != Opening ==> Enabled(s, PublishTun(c)) || Enabled(s, ClearFailed(c)))
        && !(Enabled(s, PublishTun(c)) && Enabled(s, ClearFailed(c)))
      case Returning => Enabled(s, MarkStarted(c))
      case Refreshing(_) => Enabled(s, RefreshApply(c))
      case Closed => forall step :: HandlerOf(step) == Some(c) ==> !Enabled(s, step)
  {
    Reachable(steps);
    var s := Exec(steps).value;
    if s.conns[c].pc.Closed? {
      forall step | HandlerOf(step) == Some(c) ensures !Enabled(s, step) {
        match step
        case _ =>
      }
    }
  }

  /** A tunnel that came up can come back, then gives the slot up and cancels itself. */
  lemma TunnelNeverStuck(steps: seq<Step>, sid: SessionId)
    requires Exec(steps).Some? && sid < |Exec(steps).value.sessions|
    ensures var s := Exec(steps).value;
      match s.sessions[sid].phase
      case Running => Enabled(s, TunnelReturns(sid)) && Next(s, TunnelReturns(sid)).sessions[sid].phase == Returned
      case Returned => Enabled(s, ClearReturned(sid)) && !Next(s, ClearReturned(sid)).slot.running
      case Freed => Enabled(s, DeferredCancel(sid)) && Next(s, DeferredCancel(sid)).sessions[sid].cancelled
      case _ => At(s, s.sessions[sid].conn, Starting(sid))
  {
    Reachable(steps);
  }

  lemma OnlyOpenFails(s: State, step: Step, i: SessionId)
    requires Enabled(s, step) && i < |Next(s, step).sessions| && Next(s, step).sessions[i].phase == Failing
    ensures || Next(s, step).sessions[i].cancelled
            || (i < |s.sessions| && s.sessions[i].phase == Failing && !s.sessions[i].cancelled)
  {}

  /** A start that failed has cancelled its session, as a tunnel that came back does in the end. */
  lemma {:induction false} FailedIsCancelled(steps: seq<Step>, i: SessionId)
    requires Exec(steps).Some? && i < |Exec(steps).value.sessions| && Exec(steps).value.sessions[i].phase == Failing
    ensures Exec(steps).value.sessions[i].cancelled
  {
    if steps != [] {
      var init := steps[..|steps| - 1];
      var s := Exec(init).value;
      OnlyOpenFails(s, steps[|steps| - 1], i);
      if i < |s.sessions| && s.sessions[i].phase == Failing {
        FailedIsCancelled(init, i);
      }
    }
  }

  // ----- what a connection counts as started

  /** A connection counts a tunnel as started from a start that went through to its next stop, whosever stop that
      was meant to be. */
  ghost predicate StartedSince(steps: seq<Step>, c: ConnId) {
    exists a :: 0 <= a < |steps| && steps[a] == MarkStarted(c) && forall b :: a < b < |steps| ==> steps[b] != Stop(c)
  }

  lemma StartedSinceSnoc(steps: seq<Step>, step: Step, c: ConnId)
    ensures StartedSince(steps + [step], c)
       <==> step == MarkStarted(c) || (step != Stop(c) && StartedSince(steps, c))
  {
    var more := steps + [step];
    assert more[|steps|] == step;
    if step != MarkStarted(c) {
      if step != Stop(c) && StartedSince(steps, c) {
        var a :| 0 <= a < |steps| && steps[a] == MarkStarted(c) && forall b :: a < b < |steps| ==> steps[b] != Stop(c);
        assert more[a] == steps[a];
      }
      if StartedSince(more, c) {
        var a :| 0 <= a < |more| && more[a] == MarkStarted(c) && forall b :: a < b < |more| ==> more[b] != Stop(c);
        assert steps[a] == more[a];
        assert forall b :: a < b < |steps| ==> steps[b] == more[b];
      }
    }
  }

  lemma {:induction false} StartedMeans(steps: seq<Step>, c: ConnId)
    requires Exec(steps).Some?
    ensures c in Exec(steps).value.conns ==> (Exec(steps).value.conns[c].started <==> StartedSince(steps, c))
    ensures c !in Exec(steps).value.conns ==> !StartedSince(steps, c)
  {
    if steps != [] {
      var init, step := steps[..|steps| - 1], steps[|steps| - 1];
      assert init + [step] == steps;
      StartedMeans(init, c);
      StartedSinceSnoc(init, step, c);
      StartedStep(Exec(init).value, step, c);
    }
  }

  lemma StartedStep(s: State, step: Step, c: ConnId)
    requires Enabled(s, step)
    ensures c in s.conns ==>
      && c in Next(s, step).conns
      && Next(s, step).conns[c].started == (step == MarkStarted(c) || (step != Stop(c) && s.conns[c].started))
    ensures c !in s.conns ==> step != MarkStarted(c)
    ensures c !in s.conns && c in Next(s, step).conns ==> !Next(s, step).conns[c].started
  {}

  // ----- the slot is never lost

  /** Steps that are still to come before the slot a session holds is free. */
  function ToFree(phase: Phase): nat {
    match phase
    case Opening => 4
    case Opened => 3
    case Running => 2
    case Returned => 1
    case Failing => 1
    case Freed => 0
  }

  /** While the slot is taken its session can always make one of them, and nobody else's read is disturbed. */
  lemma CanProceed(s: State) returns (step: Step)
    requires Inv(s) && s.slot.running
    ensures Enabled(s, step) && |Next(s, step).sessions| == |s.sessions|
    ensures Next(s, step).slot.running ==>
      ToFree(Next(s, step).sessions[s.slot.cancel.value].phase) < ToFree(s.sessions[s.slot.cancel.value].phase)
      && Next(s, step).slot.cancel == s.slot.cancel
    ensures forall c :: At(s, c, Reading) ==> At(Next(s, step), c, Reading)
  {
    var i := s.slot.cancel.value;
    var x := s.sessions[i];
    match x.phase
    case Opening => step := OpenOk(x.conn);
    case Opened => step := PublishTun(x.conn);
    case Running => step := TunnelReturns(i);
    case Returned => step := ClearReturned(i);
    case Failing => step := ClearFailed(x.conn);
  }

  lemma {:induction false} RunFromFirst(s: State, step: Step, rest: seq<Step>)
    requires Enabled(s, step)
    ensures RunFrom(s, [step] + rest) == RunFrom(Next(s, step), rest)
    decreases |rest|
  {
    var all := [step] + rest;
    if rest == [] {
      assert all == [step] && all[..0] == [];
    } else {
      var init := rest[..|rest| - 1];
      RunFromFirst(s, step, init);
      assert all[..|all| - 1] == [step] + init && all[|all| - 1] == rest[|rest| - 1];
    }
  }

  lemma {:induction false} CanBeFreed(s: State) returns (steps: seq<Step>)
    requires Inv(s)
    ensures RunFrom(s, steps).Some? && !RunFrom(s, steps).value.slot.running
    ensures forall c :: At(s, c, Reading) ==> At(RunFrom(s, steps).value, c, Reading)
    decreases if s.slot.running then ToFree(s.sessions[s.slot.cancel.value].phase) else 0
  {
    steps := [];
    if s.slot.running {
      var step := CanProceed(s);
      Preserved(s, step);
      var rest := CanBeFreed(Next(s, step));
      RunFromFirst(s, step, rest);
      steps := [step] + rest;
    }
  }

  /** Whatever has happened, a connection that waits in a read can still come to hold the slot with a tunnel of its
      own that is up: nothing that ends or fails keeps the slot for good. */
  lemma SlotNeverLost(pre: seq<Step>, c: ConnId) returns (mid: seq<Step>)
    requires Exec(pre).Some? && At(Exec(pre).value, c, Reading)
    ensures Exec(pre + mid).Some?
    ensures var s := Exec(pre + mid).value;
            && s.slot.running && s.slot.tun.Some? && s.slot.tun.value < |s.sessions|
            && s.sessions[s.slot.tun.value].conn == c && s.sessions[s.slot.tun.value].Live()
  {
    Reachable(pre);
    var freeing := CanBeFreed(Exec(pre).value);
    ExecSplit(pre, freeing);
    var free := pre + freeing;
    Reachable(free);
    var s := Exec(free).value;
    var s1 := Next(s, Start(c));
    ThenTwo(free, s, Start(c), OpenOk(c));
    Then(free + [Start(c), OpenOk(c)], Next(s1, OpenOk(c)), PublishTun(c));
    mid := freeing + [Start(c), OpenOk(c)] + [PublishTun(c)];
    assert pre + mid == free + [Start(c), OpenOk(c)] + [PublishTun(c)];
  }

  /** And whoever owns it can give it up through any connection of theirs that waits in a read. */
  lemma OwnerCanStop(steps: seq<Step>, c: ConnId, i: SessionId)
    requires Exec(steps).Some? && At(Exec(steps).value, c, Reading) && i < |Exec(steps).value.sessions|
    requires Exec(steps).value.sessions[i].who == Exec(steps).value.conns[c].who
    ensures Enabled(Exec(steps).value, Stop(c))
    ensures var s := Next(Exec(steps).value, Stop(c));
            i < |s.sessions| && !s.sessions[i].Live() && At(s, c, Reading)
  {
    Reachable(steps);
  }

  // ----- what it does not mean: two interleavings

  lemma Then(steps: seq<Step>, s: State, step: Step)
    requires Exec(steps) == Some(s) && Enabled(s, step)
    ensures Exec(steps + [step]) == Some(Next(s, step))
  {
    assert (steps + [step])[..|steps|] == steps;
  }

  /** Running two steps from a known state. */
  lemma ThenTwo(steps: seq<Step>, s: State, a: Step, b: Step)
    requires Exec(steps) == Some(s) && Enabled(s, a) && Enabled(Next(s, a), b)
    ensures Exec(steps + [a, b]) == Some(Next(Next(s, a), b))
  {
    Then(steps, s, a);
    Then(steps + [a], Next(s, a), b);
    assert steps + [a] + [b] == steps + [a, b];
  }

  /** Connection 0 belongs to alice and connection 1 to `who`; each row below is a state on the way. */
  function Two(slot: Slot, who: Principal, k0: Conn, pc: Pc, sessions: seq<Session>, history: seq<SlotEvent>): State {
    State(slot, map[0 := k0, 1 := Conn(who, false, pc)], sessions, [], history)
  }

  function Connected(who: Principal): State {
    Two(FREE, who, Conn("alice", false, Reading), Reading, [], [])
  }

  function Opening0(who: Principal): State {
    Two(Slot(true, "alice", Some(0), None), who, Conn("alice", false, Starting(0)), Reading, [Session(0, "alice",
        Opened, false)], [Acquired(0)])
  }

  function Up0(who: Principal, pc: Pc): State {
    Two(Slot(true, "alice", Some(0), Some(0)), who, Conn("alice", true, pc), Reading, [Session(0, "alice", Running,
        false)], [Acquired(0)])
  }

  function Ended0(who: Principal, pc: Pc): State {
    Two(Slot(false, "alice", None, None), who, Conn("alice", true, pc), Reading, [Session(0, "alice", Freed, false)],
        [Acquired(0), Released(0)])
  }

  function Opening1(who: Principal, pc: Pc): State {
    Two(Slot(true, who, Some(1), None), who, Conn("alice", true, pc), Starting(1),
        [Session(0, "alice", Freed, false), Session(1, who, Opened, false)], [Acquired(0), Released(0), Acquired(1)])
  }

  lemma ToConnected(who: Principal)
    ensures Next(Next(INIT, Connect(0, "alice")), Connect(1, who)) == Connected(who)
  {}

  lemma ToOpening0(who: Principal)
    ensures Enabled(Next(Connected(who), Start(0)), OpenOk(0))
    ensures Next(Next(Connected(who), Start(0)), OpenOk(0)) == Opening0(who)
  {}

  lemma ToUp0(who: Principal)
    ensures Enabled(Next(Opening0(who), PublishTun(0)), MarkStarted(0))
    ensures Next(Next(Opening0(who), PublishTun(0)), MarkStarted(0)) == Up0(who, Reading)
  {}

  lemma ToEnded0(who: Principal, pc: Pc)
    ensures Enabled(Next(Up0(who, pc), TunnelReturns(0)), ClearReturned(0))
    ensures Next(Next(Up0(who, pc), TunnelReturns(0)), ClearReturned(0)) == Ended0(who, pc)
  {}

  lemma ToOpening1(who: Principal, pc: Pc)
    ensures Enabled(Next(Ended0(who, pc), Start(1)), OpenOk(1))
    ensures Next(Next(Ended0(who, pc), Start(1)), OpenOk(1)) == Opening1(who, pc)
  {
    var s := Next(Ended0(who, pc), Start(1));
    assert s.sessions == [Session(0, "alice", Freed, false), Session(1, who, Opening, false)];
  }

  /** Alice's tunnel is up. */
  lemma ReachUp0(who: Principal) returns (steps: seq<Step>)
    ensures Exec(steps) == Some(Up0(who, Reading))
  {
    steps := [];
    ThenTwo(steps, INIT, Connect(0, "alice"), Connect(1, who));
    ToConnected(who);
    steps := steps + [Connect(0, "alice"), Connect(1, who)];
    ToOpening0(who);
    ThenTwo(steps, Connected(who), Start(0), OpenOk(0));
    steps := steps + [Start(0), OpenOk(0)];
    ToUp0(who);
    ThenTwo(steps, Opening0(who), PublishTun(0), MarkStarted(0));
    steps := steps + [PublishTun(0), MarkStarted(0)];
  }

  /** Alice's tunnel ended by itself and connection 1 has opened its own. */
  lemma ReachOpening1(before: seq<Step>, who: Principal, pc: Pc) returns (steps: seq<Step>)
    requires Exec(before) == Some(Up0(who, pc))
    ensures Exec(steps) == Some(Opening1(who, pc))
  {
    ToEnded0(who, pc);
    ThenTwo(before, Up0(who, pc), TunnelReturns(0), ClearReturned(0));
    steps := before + [TunnelReturns(0), ClearReturned(0)];
    ToOpening1(who, pc);
    ThenTwo(steps, Ended0(who, pc), Start(1), OpenOk(1));
    steps := steps + [Start(1), OpenOk(1)];
  }

  /** refresh drops the lock between its two looks: a token alice sent can reach bob's tunnel. */
  lemma RefreshRace() returns (steps: seq<Step>)
    ensures Exec(steps).Some?
    ensures var s := Exec(steps).value;
            && s.delivered == [Delivery(1, 0, "token")] && |s.sessions| == 2 && 0 in s.conns
            && s.sessions[1].who == "bob" && s.sessions[1].Live() && s.conns[0].who == "alice"
  {
    steps := ReachUp0("bob");
    Then(steps, Up0("bob", Reading), RefreshCheck(0, "token"));
    assert Next(Up0("bob", Reading), RefreshCheck(0, "token")) == Up0("bob", Refreshing("token"));
    steps := ReachOpening1(steps + [RefreshCheck(0, "token")], "bob", Refreshing("token"));
    ThenTwo(steps, Opening1("bob", Refreshing("token")), PublishTun(1), RefreshApply(0));
    steps := steps + [PublishTun(1), RefreshApply(0)];
  }

  /** Ownership is by principal: a connection whose tunnel is over takes the same user's next one with it. */
  lemma HangupReachesAnotherConnection() returns (steps: seq<Step>)
    ensures Exec(steps).Some? && Exec(steps + [Hangup(0)]).Some?
    ensures var s, s' := Exec(steps).value, Exec(steps + [Hangup(0)]).value;
            && |s.sessions| == |s'.sessions| == 2 && s.sessions[1].conn == 1
            && s.sessions[1].Live() && !s'.sessions[1].Live()
  {
    steps := ReachUp0("alice");
    steps := ReachOpening1(steps, "alice", Reading);
    Then(steps, Opening1("alice", Reading), Hangup(0));
  }
}
