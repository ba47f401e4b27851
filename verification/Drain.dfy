/** Graceful drain as a transition system: accepting, any number of sessions, the
    registry, the drain call, its deadline, and any number of drain checks. Each step
    is one atomic access, one critical section of the registry, or one session step. */
module Draining {
  import opened SessionLife

  datatype Entry = Entry(id: nat, reason: Reason)

  /** A drain check between its atomic accesses. */
  datatype Check = Polling | Looking | SawEmpty | WillFinish(drained: bool) | Done

  /** `refused` are connections turned away and not yet counted; `log` is every count
      made, `inTime` that some check found no session before the deadline. */
  datatype State = State(
    sessions: map<nat, Session>, nextId: nat, registry: set<nat>, refused: set<nat>,
    draining: bool, toldAll: bool, drainMsgs: set<nat>, log: seq<Entry>,
    begun: bool, expired: bool, finished: bool,
    checks: map<nat, Check>, callbacks: seq<bool>, inTime: bool)

  datatype Action =
    | Accept
    | RecordRefused(id: nat)
    | SessionStep(id: nat)
    | DeliverDrain(id: nat)
    | StopSession(id: nat, reason: Reason)
    | Unregister(id: nat)
    | Destroy(id: nat)
    | CallBeginDrain
    | MarkDraining
    | TellSessions
    | SpawnCheck(t: nat)
    | Expire
    | LoadFinished(t: nat)
    | CountSessions(t: nat)
    | LoadExpired(t: nat)
    | Finish(t: nat)

  ghost predicate Init(s: State) {
    s == State(map[], 1, {}, {}, false, false, {}, [], false, false, false, map[], [], false)
  }

  /** The registry without the sessions that no longer exist. */
  function Live(s: State): set<nat> {
    set id | id in s.registry && (id in s.sessions ==> !s.sessions[id].destroyed)
  }

  /** A session that is not inside a call into the registry. */
  predicate Idle(s: State, id: nat) { id in s.sessions && !s.sessions[id].removing }

  predicate AtCheck(s: State, t: nat, c: Check) { t in s.checks && s.checks[t] == c }

  ghost predicate SessionNext(s: State, a: Action, s': State)
    requires a.SessionStep? || a.DeliverDrain? || a.StopSession?
    requires Idle(s, a.id)
  {
    var x := s.sessions[a.id];
    match a
    case SessionStep(id) =>
      exists y :: (Step(x, y) || Throws(x, y)) && s' == s.(sessions := s.sessions[id := y])
    case DeliverDrain(id) =>
      && id in s.drainMsgs
      && s' == s.(sessions := s.sessions[id := Drain(x)], drainMsgs := s.drainMsgs - {id})
    case StopSession(id, reason) =>
      reason != NoReason && s' == s.(sessions := s.sessions[id := Close(x, reason)])
  }

  ghost predicate RegistryNext(max: nat, s: State, a: Action, s': State)
    requires a.Accept? || a.RecordRefused? || a.Unregister? || a.Destroy?
          || a.MarkDraining? || a.TellSessions?
  {
    match a
    case Accept =>
      var next := s.(nextId := s.nextId + 1, registry := Live(s));
      if s.draining || |Live(s)| >= max then s' == next.(refused := s.refused + {s.nextId})
      else
        s' == next.(sessions := s.sessions[s.nextId := NEW_SESSION],
                    registry := Live(s) + {s.nextId})
    case RecordRefused(id) =>
      && id in s.refused
      && s' == s.(refused := s.refused - {id}, log := s.log + [Entry(id, ResourceLimit)])
    case Unregister(id) =>
      && id in s.sessions && s.sessions[id].removing
      && s' == s.(sessions := s.sessions[id := s.sessions[id].(removing := false)],
                  registry := s.registry - {id},
                  log := if id in s.registry then s.log + [Entry(id, s.sessions[id].reason)]
                         else s.log)
    case Destroy(id) =>
      && Idle(s, id) && s.sessions[id].phase == Finished
      && s' == s.(sessions := s.sessions[id := s.sessions[id].(destroyed := true)])
    case MarkDraining => s' == s.(draining := true)
    case TellSessions =>
      && s.draining
      && s' == s.(toldAll := true, registry := Live(s), drainMsgs := s.drainMsgs + Live(s))
  }

  ghost predicate ServerNext(s: State, a: Action, s': State)
    requires a.CallBeginDrain? || a.SpawnCheck? || a.Expire? || a.LoadFinished? || a.CountSessions?
          || a.LoadExpired? || a.Finish?
  {
    match a
    case CallBeginDrain => s' == s.(begun := true)
    case SpawnCheck(t) =>
      s.begun && s.toldAll && t !in s.checks && s' == s.(checks := s.checks[t := Polling])
    case Expire => s.begun && s.toldAll && s' == s.(expired := true)
    case LoadFinished(t) =>
      && AtCheck(s, t, Polling)
      && s' == s.(checks := s.checks[t := if s.finished then Done else Looking])
    case CountSessions(t) =>
      && AtCheck(s, t, Looking)
      && s' == s.(registry := Live(s),
                  checks := s.checks[t := if Live(s) == {} then SawEmpty else Polling])
    case LoadExpired(t) =>
      && AtCheck(s, t, SawEmpty)
      && s' == s.(checks := s.checks[t := WillFinish(!s.expired)], inTime := s.inTime || !s.expired)
    case Finish(t) =>
      && t in s.checks && s.checks[t].WillFinish?
      && var next := s.(checks := s.checks[t := Done]);
      s' == if s.finished then next
            else next.(finished := true, callbacks := s.callbacks + [s.checks[t].drained])
  }

  ghost predicate Next(max: nat, s: State, a: Action, s': State) {
    if a.SessionStep? || a.DeliverDrain? || a.StopSession? then Idle(s, a.id) && SessionNext(s, a, s')
    else if a.Accept? || a.RecordRefused? || a.Unregister? || a.Destroy? || a.MarkDraining?
            || a.TellSessions?
    then RegistryNext(max, s, a, s')
    else ServerNext(s, a, s')
  }

  ghost predicate IsRun(max: nat, states: seq<State>, actions: seq<Action>) {
    && |states| == |actions| + 1 && Init(states[0])
    && forall i | 0 <= i < |actions| :: Next(max, states[i], actions[i], states[i + 1])
  }

  // ----------------------------------------------------------------- invariants

  /** Registered means admitted and not yet taken out. */
  predicate Registered(x: Session) { x.life != Closed || x.removing }

  ghost predicate SessionsOk(max: nat, s: State) {
    && (forall id | id in s.sessions :: Sound(s.sessions[id]) && id < s.nextId)
    && (forall id :: id in s.registry <==> id in s.sessions && Registered(s.sessions[id]))
    && |s.registry| <= max
  }

  function LoggedIds(log: seq<Entry>): multiset<nat> {
    if log == [] then multiset{} else LoggedIds(log[..|log| - 1]) + multiset{log[|log| - 1].id}
  }

  /** Every connection ever accepted is registered, about to be counted, or counted
      exactly once, and never under no reason. */
  ghost predicate LogOk(s: State) {
    && (forall id: nat :: LoggedIds(s.log)[id]
          == if id in s.sessions then (if Registered(s.sessions[id]) then 0 else 1)
             else if 1 <= id < s.nextId && id !in s.refused then 1 else 0)
    && (forall id | id in s.refused :: id !in s.sessions && 1 <= id < s.nextId)
    && (forall e | e in s.log :: e.reason != NoReason)
    && s.nextId >= 1 && 0 !in s.sessions
  }

  /** Once the sessions were told, each registered one has the message, has acted on
      it, or is closed. */
  ghost predicate Told(s: State) {
    && (s.toldAll ==> s.draining)
    && (s.toldAll ==> forall id | id in s.registry && id in s.sessions ::
          id in s.drainMsgs || Leaving(s.sessions[id]))
  }

  ghost predicate Past(s: State) {
    exists t :: t in s.checks && (s.checks[t] == SawEmpty || s.checks[t].WillFinish?)
  }

  ghost predicate ChecksOk(s: State) {
    && (s.checks != map[] ==> s.toldAll)
    && (Past(s) || s.finished || s.inTime ==> s.registry == {} && s.draining)
    && (forall t | t in s.checks && s.checks[t] == WillFinish(true) :: s.inTime)
    && (forall t | t in s.checks && s.checks[t] == WillFinish(false) :: s.expired)
    && (s.finished <==> |s.callbacks| == 1) && |s.callbacks| <= 1
    && (true in s.callbacks ==> s.inTime) && (false in s.callbacks ==> s.expired)
  }

  ghost predicate Inv(max: nat, s: State) {
    SessionsOk(max, s) && LogOk(s) && Told(s) && ChecksOk(s)
  }

  lemma LiveIsRegistry(max: nat, s: State)
    requires SessionsOk(max, s)
    ensures Live(s) == s.registry
  {
    forall id | id in s.registry ensures id in Live(s) {
      assert Sound(s.sessions[id]);
    }
  }

  lemma LoggedSnoc(log: seq<Entry>, e: Entry)
    ensures LoggedIds(log + [e]) == LoggedIds(log) + multiset{e.id}
  {
    assert (log + [e])[..|log|] == log;
  }

  // --------------------------------------------------------- one session changes

  /** A session moves on without leaving the registry. */
  lemma Change(max: nat, s: State, id: nat, y: Session, s': State)
    requires Inv(max, s) && Idle(s, id) && Sound(y)
    requires y.removing == (s.sessions[id].life != Closed && y.life == Closed)
    requires s.sessions[id].life == Closed ==> y.life == Closed
    requires Leaving(s.sessions[id]) ==> Leaving(y)
    requires s' == s.(sessions := s.sessions[id := y], drainMsgs := s'.drainMsgs)
    requires s.drainMsgs - {id} <= s'.drainMsgs
    requires id in s'.drainMsgs || id !in s.drainMsgs || Leaving(y)
    ensures Inv(max, s')
  {
    hide LoggedIds; hide Sound;
    var x := s.sessions[id];
    assert Registered(y) == Registered(x);
  }

  lemma SessionKeepsInv(max: nat, s: State, a: Action, s': State)
    requires Inv(max, s)
    requires a.SessionStep? || a.DeliverDrain? || a.StopSession?
    requires Idle(s, a.id) && SessionNext(s, a, s')
    ensures Inv(max, s')
  {
    var x := s.sessions[a.id];
    assert Sound(x);
    hide Sound; hide Inv; hide Step; hide Throws; hide Drain; hide Close;
    match a
    case SessionStep(id) =>
      var y :| (Step(x, y) || Throws(x, y)) && s' == s.(sessions := s.sessions[id := y]);
      StepIsSound(x, y);
      Change(max, s, id, y, s');
    case DeliverDrain(id) =>
      DrainIsSound(x);
      DrainFacts(x);
      Change(max, s, id, Drain(x), s');
    case StopSession(id, reason) =>
      CloseIsSound(x, reason);
      Change(max, s, id, Close(x, reason), s');
  }

  lemma DrainFacts(x: Session)
    requires Sound(x) && !x.removing
    ensures Drain(x).removing == (x.life != Closed && Drain(x).life == Closed)
    ensures x.life == Closed ==> Drain(x) == x
  {}

  // --------------------------------------------------------------- the registry

  lemma RefuseKeepsInv(max: nat, s: State, s': State)
    requires Inv(max, s)
    requires s' == s.(nextId := s.nextId + 1, refused := s.refused + {s.nextId})
    ensures Inv(max, s')
  {
    hide LoggedIds; hide Sound;
    assert SessionsOk(max, s') by { hide LogOk; hide Told; hide ChecksOk; }
    assert Told(s') && ChecksOk(s') by { hide LogOk; hide SessionsOk; }
    hide Told; hide ChecksOk;
  }

  lemma AdmitKeepsInv(max: nat, s: State, s': State)
    requires Inv(max, s) && !s.draining && |s.registry| < max
    requires s' == s.(nextId := s.nextId + 1, sessions := s.sessions[s.nextId := NEW_SESSION],
                      registry := s.registry + {s.nextId})
    ensures Inv(max, s')
  {
    AdmitSessions(max, s, s');
    hide LoggedIds; hide Sound;
    assert s.nextId !in s.sessions;
    hide SessionsOk;
    assert LogOk(s') by { hide Told; hide ChecksOk; }
    hide LogOk;
  }

  lemma AdmitSessions(max: nat, s: State, s': State)
    requires SessionsOk(max, s) && |s.registry| < max
    requires s' == s.(nextId := s.nextId + 1, sessions := s.sessions[s.nextId := NEW_SESSION],
                      registry := s.registry + {s.nextId})
    ensures SessionsOk(max, s')
  {
    assert Sound(NEW_SESSION);
    hide Sound;
  }

  lemma AcceptKeepsInv(max: nat, s: State, s': State)
    requires Inv(max, s) && RegistryNext(max, s, Accept, s')
    ensures Inv(max, s')
  {
    LiveIsRegistry(max, s);
    hide Inv; hide Live;
    assert s.(registry := s.registry) == s;
    if s.draining || |s.registry| >= max {
      RefuseKeepsInv(max, s, s');
    } else {
      AdmitKeepsInv(max, s, s');
    }
  }

  lemma UnregisterKeepsInv(max: nat, s: State, id: nat, s': State)
    requires Inv(max, s) && RegistryNext(max, s, Unregister(id), s')
    ensures Inv(max, s')
  {
    hide LoggedIds;
    var x := s.sessions[id];
    assert Sound(x) && id in s.registry;
    assert Sound(x.(removing := false)) && x.life == Closed;
    LoggedSnoc(s.log, Entry(id, x.reason));
    hide Sound;
    assert s'.registry < s.registry;
    assert |s'.registry| == |s.registry| - 1;
  }

  lemma RecordKeepsInv(max: nat, s: State, id: nat, s': State)
    requires Inv(max, s) && RegistryNext(max, s, RecordRefused(id), s')
    ensures Inv(max, s')
  {
    hide LoggedIds; hide Sound;
    LoggedSnoc(s.log, Entry(id, ResourceLimit));
  }

  lemma DestroyKeepsInv(max: nat, s: State, id: nat, s': State)
    requires Inv(max, s) && RegistryNext(max, s, Destroy(id), s')
    ensures Inv(max, s')
  {
    hide LoggedIds;
    var x := s.sessions[id];
    assert Sound(x) && Sound(x.(destroyed := true));
    hide Sound;
    assert Registered(x.(destroyed := true)) == Registered(x);
  }

  lemma TellKeepsInv(max: nat, s: State, s': State)
    requires Inv(max, s) && RegistryNext(max, s, TellSessions, s')
    ensures Inv(max, s')
  {
    LiveIsRegistry(max, s);
    TellFrame(max, s, s');
    hide RegistryNext; hide Live; hide LoggedIds; hide Sound;
    assert SessionsOk(max, s') && LogOk(s') by { hide Told; hide ChecksOk; }
    assert ChecksOk(s') by { hide Told; hide SessionsOk; hide LogOk; assert Past(s') == Past(s); }
    hide SessionsOk; hide LogOk; hide ChecksOk;
  }

  lemma TellFrame(max: nat, s: State, s': State)
    requires RegistryNext(max, s, TellSessions, s') && Live(s) == s.registry
    ensures s' == s.(toldAll := true, drainMsgs := s.drainMsgs + s.registry) && s.draining
  {
    hide Live;
  }

  lemma RegistryKeepsInv(max: nat, s: State, a: Action, s': State)
    requires Inv(max, s)
    requires a.Accept? || a.RecordRefused? || a.Unregister? || a.Destroy?
          || a.MarkDraining? || a.TellSessions?
    requires RegistryNext(max, s, a, s')
    ensures Inv(max, s')
  {
    match a
    case Accept => AcceptKeepsInv(max, s, s');
    case RecordRefused(id) => RecordKeepsInv(max, s, id, s');
    case Unregister(id) => UnregisterKeepsInv(max, s, id, s');
    case Destroy(id) => DestroyKeepsInv(max, s, id, s');
    case MarkDraining => hide LoggedIds; hide Sound;
    case TellSessions => TellKeepsInv(max, s, s');
  }

  // ----------------------------------------------------------------- the server

  lemma CheckMoves(s: State, t: nat, c: Check, s': State)
    requires ChecksOk(s) && s.toldAll && s' == s.(checks := s.checks[t := c], inTime := s'.inTime)
    requires s.inTime ==> s'.inTime
    requires (c == SawEmpty || c.WillFinish? || s'.inTime) ==> s.registry == {} && s.draining
    requires c == WillFinish(true) ==> s'.inTime
    requires c == WillFinish(false) ==> s.expired
    ensures ChecksOk(s')
  {
    if Past(s') {
      var u :| u in s'.checks && (s'.checks[u] == SawEmpty || s'.checks[u].WillFinish?);
      if u != t { assert Past(s); }
    }
  }

  lemma ServerChecks(max: nat, s: State, a: Action, s': State)
    requires ChecksOk(s) && Told(s) && Live(s) == s.registry
    requires a.CallBeginDrain? || a.SpawnCheck? || a.Expire? || a.LoadFinished? || a.CountSessions?
          || a.LoadExpired? || a.Finish?
    requires ServerNext(s, a, s')
    ensures ChecksOk(s')
  {
    hide Live;
    match a
    case CallBeginDrain => assert Past(s') == Past(s);
    case SpawnCheck(t) => CheckMoves(s, t, Polling, s');
    case Expire => assert Past(s') == Past(s);
    case LoadFinished(t) => hide ChecksOk; CheckFacts(s, t); CheckMoves(s, t, s'.checks[t], s');
    case CountSessions(t) => hide ChecksOk; CheckFacts(s, t); CheckMoves(s, t, s'.checks[t], s');
    case LoadExpired(t) => CheckFacts(s, t); hide ChecksOk; CheckMoves(s, t, s'.checks[t], s');
    case Finish(t) => FinishChecks(s, t, s');
  }

  lemma CheckFacts(s: State, t: nat)
    requires ChecksOk(s) && Told(s) && t in s.checks
    ensures s.toldAll && s.draining
    ensures (s.checks[t] == SawEmpty || s.checks[t].WillFinish? || s.inTime) ==> s.registry == {}
  {
    if s.checks[t] == SawEmpty || s.checks[t].WillFinish? { assert Past(s); }
  }

  lemma FinishChecks(s: State, t: nat, s': State)
    requires ChecksOk(s) && Told(s) && ServerNext(s, Finish(t), s')
    ensures ChecksOk(s')
  {
    CheckFacts(s, t);
    var next := s.(checks := s.checks[t := Done]);
    assert ChecksOk(next) by { hide ChecksOk; CheckFacts(s, t); CheckMoves(s, t, Done, next); }
    assert Past(s') == Past(next);
  }

  /** What the server's own steps leave alone. */
  lemma ServerFrame(s: State, a: Action, s': State)
    requires a.CallBeginDrain? || a.SpawnCheck? || a.Expire? || a.LoadFinished? || a.CountSessions?
          || a.LoadExpired? || a.Finish?
    requires ServerNext(s, a, s')
    ensures s'.sessions == s.sessions && s'.nextId == s.nextId && s'.refused == s.refused
    ensures s'.draining == s.draining && s'.toldAll == s.toldAll && s'.drainMsgs == s.drainMsgs
    ensures s'.log == s.log && (s'.registry == s.registry || s'.registry == Live(s))
  {
    hide Live;
  }

  lemma ServerKeepsInv(max: nat, s: State, a: Action, s': State)
    requires Inv(max, s)
    requires a.CallBeginDrain? || a.SpawnCheck? || a.Expire? || a.LoadFinished? || a.CountSessions?
          || a.LoadExpired? || a.Finish?
    requires ServerNext(s, a, s')
    ensures Inv(max, s')
  {
    LiveIsRegistry(max, s);
    ServerChecks(max, s, a, s');
    ServerFrame(s, a, s');
    hide ServerNext; hide Live; hide Inv;
    SameRegistry(max, s, s');
  }

  lemma SameRegistry(max: nat, s: State, s': State)
    requires Inv(max, s) && ChecksOk(s') && s'.registry == s.registry
    requires s'.sessions == s.sessions && s'.nextId == s.nextId && s'.refused == s.refused
    requires s'.draining == s.draining && s'.toldAll == s.toldAll && s'.drainMsgs == s.drainMsgs
    requires s'.log == s.log
    ensures Inv(max, s')
  {
    hide LoggedIds; hide Sound; hide ChecksOk;
  }

  // ------------------------------------------------------------------ every run

  lemma {:induction false} RunKeepsInv(max: nat, states: seq<State>, actions: seq<Action>, i: nat)
    requires IsRun(max, states, actions) && i < |states|
    ensures Inv(max, states[i])
  {
    if i > 0 {
      hide Inv; hide SessionNext; hide RegistryNext; hide ServerNext; hide Init;
      RunKeepsInv(max, states, actions, i - 1);
      var s, a, s' := states[i - 1], actions[i - 1], states[i];
      assert Next(max, s, a, s');
      if a.SessionStep? || a.DeliverDrain? || a.StopSession? {
        SessionKeepsInv(max, s, a, s');
      } else if a.Accept? || a.RecordRefused? || a.Unregister? || a.Destroy? || a.MarkDraining?
                || a.TellSessions? {
        RegistryKeepsInv(max, s, a, s');
      } else {
        ServerKeepsInv(max, s, a, s');
      }
    }
  }

  /** Who is admitted, and when. */
  lemma AdmissionStep(max: nat, s: State, a: Action, s': State)
    requires Next(max, s, a, s')
    ensures s.draining ==> s'.draining && s'.sessions.Keys == s.sessions.Keys
  {
    hide Step; hide Throws; hide Drain; hide Close; hide Live;
    if a.SessionStep? || a.DeliverDrain? || a.StopSession? {
      hide RegistryNext; hide ServerNext;
      assert s'.sessions.Keys == s.sessions.Keys + {a.id};
    } else if a.Accept? || a.RecordRefused? || a.Unregister? || a.Destroy? || a.MarkDraining?
              || a.TellSessions? {
      hide SessionNext; hide ServerNext;
    } else {
      hide SessionNext; hide RegistryNext;
      ServerFrame(s, a, s');
    }
  }

  /** Once the registry is draining, nobody is admitted. */
  lemma {:induction false} NobodyAdmitted(
      max: nat, states: seq<State>, actions: seq<Action>, i: nat, j: nat)
    requires IsRun(max, states, actions) && i <= j < |states| && states[i].draining
    ensures states[j].draining && states[j].sessions.Keys == states[i].sessions.Keys
  {
    hide Next; hide Init;
    if i < j {
      NobodyAdmitted(max, states, actions, i, j - 1);
      AdmissionStep(max, states[j - 1], actions[j - 1], states[j]);
    }
  }

  // ------------------------------------------------------------ one more response

  /** How many responses session `id` begins between two moments of a run. */
  ghost function Begun(states: seq<State>, id: nat, i: nat, j: nat): nat
    requires i <= j < |states|
    requires forall k | i <= k <= j :: id in states[k].sessions
  {
    if i == j then 0 else
    Begun(states, id, i, j - 1)
    + if !Answering(states[j - 1].sessions[id].phase) && Answering(states[j].sessions[id].phase)
      then 1 else 0
  }

  /** A step that leaves the phase of a session as it is. */
  predicate Undisturbed(x: Session, y: Session) {
    y.phase == x.phase && (Leaving(x) ==> Leaving(y)) && (x.life == Closed ==> y.life == Closed)
  }

  lemma SeenInRegistry(max: nat, s: State, a: Action, s': State, id: nat)
    requires a.Accept? || a.RecordRefused? || a.Unregister? || a.Destroy?
          || a.MarkDraining? || a.TellSessions?
    requires RegistryNext(max, s, a, s') && id in s.sessions && id < s.nextId
    ensures id in s'.sessions && Undisturbed(s.sessions[id], s'.sessions[id])
  {
    hide Live;
  }

  lemma SeenInSession(s: State, a: Action, s': State, id: nat)
    requires a.SessionStep? || a.DeliverDrain? || a.StopSession?
    requires Idle(s, a.id) && SessionNext(s, a, s') && id in s.sessions
    ensures id in s'.sessions
    ensures var x, y := s.sessions[id], s'.sessions[id];
            Step(x, y) || Throws(x, y) || Undisturbed(x, y)
  {
    hide Step; hide Throws;
  }

  /** One step, seen from session `id`. */
  lemma SeenFrom(max: nat, s: State, a: Action, s': State, id: nat)
    requires Next(max, s, a, s') && id in s.sessions && id < s.nextId
    ensures id in s'.sessions
    ensures var x, y := s.sessions[id], s'.sessions[id];
            Step(x, y) || Throws(x, y) || Undisturbed(x, y)
  {
    hide Step; hide Throws; hide SessionNext; hide RegistryNext; hide ServerNext;
    if a.SessionStep? || a.DeliverDrain? || a.StopSession? {
      SeenInSession(s, a, s', id);
    } else if a.Accept? || a.RecordRefused? || a.Unregister? || a.Destroy? || a.MarkDraining?
              || a.TellSessions? {
      SeenInRegistry(max, s, a, s', id);
    } else {
      ServerFrame(s, a, s');
    }
  }

  lemma {:induction false} StillThere(
      max: nat, states: seq<State>, actions: seq<Action>, id: nat, i: nat, j: nat)
    requires IsRun(max, states, actions) && i <= j < |states| && id in states[i].sessions
    ensures id in states[j].sessions
  {
    if i < j {
      hide Next; hide Inv; hide Init;
      StillThere(max, states, actions, id, i, j - 1);
      RunKeepsInv(max, states, actions, j - 1);
      IdIsOld(max, states[j - 1], id);
      SeenFrom(max, states[j - 1], actions[j - 1], states[j], id);
    }
  }

  lemma IdIsOld(max: nat, s: State, id: nat)
    requires Inv(max, s) && id in s.sessions
    ensures id < s.nextId
  {}

  /** From the moment a session drains it writes at most one more response: the one
      under way, or else at most one that it begins. */
  lemma {:induction false} OneMoreResponse(
      max: nat, states: seq<State>, actions: seq<Action>, id: nat, i: nat, j: nat)
    requires IsRun(max, states, actions) && i <= j < |states|
    requires id in states[i].sessions && Leaving(states[i].sessions[id])
    ensures forall k | i <= k <= j :: id in states[k].sessions
    ensures Leaving(states[j].sessions[id])
    ensures Begun(states, id, i, j) + (if Before(states[j].sessions[id].phase) then 1 else 0)
            <= if Before(states[i].sessions[id].phase) then 1 else 0
    ensures (if Answering(states[i].sessions[id].phase) then 1 else 0) + Begun(states, id, i, j) <= 1
  {
    hide Next; hide Inv; hide Init; hide Step; hide Throws;
    forall k | i <= k <= j ensures id in states[k].sessions {
      StillThere(max, states, actions, id, i, k);
    }
    if i < j {
      OneMoreResponse(max, states, actions, id, i, j - 1);
      RunKeepsInv(max, states, actions, j - 1);
      IdIsOld(max, states[j - 1], id);
      SeenFrom(max, states[j - 1], actions[j - 1], states[j], id);
      var x, y := states[j - 1].sessions[id], states[j].sessions[id];
      if Step(x, y) || Throws(x, y) { LeavingGoesOn(x, y); }
    }
  }

  // ------------------------------------------------- counted from the drain call

  /** The coroutine is running, between two suspension points. */
  predicate OnTurn(p: Phase) { p == LoopTop || p == Parsing }

  /** How often the coroutine of session `id` has the executor between two moments:
      the turn it may be in at the first, and every time it is resumed. */
  ghost function Turns(states: seq<State>, actions: seq<Action>, id: nat, i: nat, j: nat): nat
    requires i <= j < |states| == |actions| + 1
    requires forall k | i <= k <= j :: id in states[k].sessions
  {
    if i == j then (if OnTurn(states[i].sessions[id].phase) then 1 else 0)
    else
      Turns(states, actions, id, i, j - 1)
      + if actions[j - 1] == SessionStep(id) && !OnTurn(states[j - 1].sessions[id].phase)
        then 1 else 0
  }

  /** Only its own steps move a session's coroutine. */
  lemma OwnSteps(max: nat, s: State, a: Action, s': State, id: nat)
    requires Next(max, s, a, s') && id in s.sessions && id < s.nextId
    ensures id in s'.sessions
    ensures var x, y := s.sessions[id], s'.sessions[id];
            if a == SessionStep(id) then Step(x, y) || Throws(x, y) else y.phase == x.phase
  {
    hide Step; hide Throws; hide ServerNext;
    if a.SessionStep? || a.DeliverDrain? || a.StopSession? {
      hide RegistryNext;
      OwnSessionSteps(s, a, s', id);
    } else if a.Accept? || a.RecordRefused? || a.Unregister? || a.Destroy? || a.MarkDraining?
              || a.TellSessions? {
      hide SessionNext; hide RegistryNext;
      SeenInRegistry(max, s, a, s', id);
    } else {
      hide SessionNext; hide RegistryNext;
      ServerFrame(s, a, s');
    }
  }

  lemma OwnSessionSteps(s: State, a: Action, s': State, id: nat)
    requires a.SessionStep? || a.DeliverDrain? || a.StopSession?
    requires Idle(s, a.id) && SessionNext(s, a, s') && id in s.sessions
    ensures id in s'.sessions
    ensures var x, y := s.sessions[id], s'.sessions[id];
            if a == SessionStep(id) then Step(x, y) || Throws(x, y) else y.phase == x.phase
  {
    hide Step; hide Throws;
    match a
    case SessionStep(_) =>
    case DeliverDrain(_) =>
    case StopSession(_, _) =>
  }

  /** A turn begins at most one response, and leaves the turn by it. */
  lemma OneTurn(x: Session, y: Session)
    requires Step(x, y) || Throws(x, y)
    ensures !Answering(x.phase) && Answering(y.phase) ==> OnTurn(x.phase)
    ensures Answering(y.phase) ==> !OnTurn(y.phase)
    ensures Answering(x.phase) ==> !OnTurn(x.phase)
  {}

  lemma {:induction false} BegunInTurns(
      max: nat, states: seq<State>, actions: seq<Action>, id: nat, i: nat, j: nat)
    requires IsRun(max, states, actions) && i <= j < |states| && id in states[i].sessions
    ensures forall k | i <= k <= j :: id in states[k].sessions
    ensures Begun(states, id, i, j) + (if OnTurn(states[j].sessions[id].phase) then 1 else 0)
            <= Turns(states, actions, id, i, j)
    ensures Begun(states, id, i, j) >= 1 ==>
              Answering(states[j].sessions[id].phase) || Turns(states, actions, id, i, j) >= 2
  {
    hide Next; hide Inv; hide Init; hide Step; hide Throws;
    forall k | i <= k <= j ensures id in states[k].sessions {
      StillThere(max, states, actions, id, i, k);
    }
    if i < j {
      BegunInTurns(max, states, actions, id, i, j - 1);
      RunKeepsInv(max, states, actions, j - 1);
      IdIsOld(max, states[j - 1], id);
      OwnSteps(max, states[j - 1], actions[j - 1], states[j], id);
      var x, y := states[j - 1].sessions[id], states[j].sessions[id];
      if actions[j - 1] == SessionStep(id) { OneTurn(x, y); }
    }
  }

  lemma {:induction false} BegunAdds(states: seq<State>, id: nat, i: nat, d: nat, j: nat)
    requires i <= d <= j < |states|
    requires forall k | i <= k <= j :: id in states[k].sessions
    ensures Begun(states, id, i, j) == Begun(states, id, i, d) + Begun(states, id, d, j)
  {
    if d < j { BegunAdds(states, id, i, d, j - 1); }
  }

  /** Counted from any moment `i`, such as the drain call, to the delivery of the message
      at `d` and ever after: a session begins at most one response for each turn it has
      before the delivery, and one more if it is between responses then. */
  lemma BoundFromTheCall(max: nat, states: seq<State>, actions: seq<Action>, id: nat,
                         i: nat, d: nat, j: nat)
    requires IsRun(max, states, actions) && i <= d <= j < |states| && id in states[i].sessions
    requires id in states[d].sessions && Leaving(states[d].sessions[id])
    ensures forall k | i <= k <= j :: id in states[k].sessions
    ensures Begun(states, id, i, j)
            <= Turns(states, actions, id, i, d)
               + if Before(states[d].sessions[id].phase) && !OnTurn(states[d].sessions[id].phase)
                 then 1 else 0
  {
    hide Next; hide Inv; hide Init;
    forall k | i <= k <= j ensures id in states[k].sessions {
      StillThere(max, states, actions, id, i, k);
    }
    BegunInTurns(max, states, actions, id, i, d);
    OneMoreResponse(max, states, actions, id, d, j);
    BegunAdds(states, id, i, d, j);
  }

  /** Counted from the drain call at `i`: if the executor keeps its order, so that the
      session gets at most one turn before the message is delivered at `d`, it begins
      at most one more response ever, besides the one that may be under way. */
  lemma OneMoreFromTheCall(max: nat, states: seq<State>, actions: seq<Action>, id: nat,
                           i: nat, d: nat, j: nat)
    requires IsRun(max, states, actions) && i <= d <= j < |states| && id in states[i].sessions
    requires (forall k | i <= k <= d :: id in states[k].sessions)
             && Turns(states, actions, id, i, d) <= 1
    requires Leaving(states[d].sessions[id])
    ensures forall k | i <= k <= j :: id in states[k].sessions
    ensures Begun(states, id, i, j) <= 1
  {
    hide Next; hide Inv; hide Init;
    forall k | i <= k <= j ensures id in states[k].sessions {
      StillThere(max, states, actions, id, i, k);
    }
    BegunInTurns(max, states, actions, id, i, d);
    OneMoreResponse(max, states, actions, id, d, j);
    BegunAdds(states, id, i, d, j);
  }

  /** The run below: one session, told to drain, whose message is late. */
  function LateState(life: Life, phase: Phase): State {
    State(map[1 := Session(life, phase, NoReason, false, false, false)], 2, {1}, {},
          true, true, {1}, [], false, false, false, map[], [], false)
  }

  function LatePhases(): seq<Phase> {
    [NotStarted, LoopTop, Parsing, Handling, Writing, LoopTop, Parsing, Handling]
  }

  function LateMoment(k: nat): State
    requires k < 8
  {
    LateState(if k == 0 then Created else Running, LatePhases()[k])
  }

  lemma LateStep(k: nat)
    requires k < 7
    ensures Next(1, LateMoment(k), SessionStep(1), LateMoment(k + 1))
  {
    var s, s' := LateMoment(k), LateMoment(k + 1);
    var x, y := s.sessions[1], s'.sessions[1];
    assert Step(x, y) by {
      if x.phase == Writing { assert y == AfterResponse(x.(reason := x.reason), true); }
    }
    assert s'.sessions == s.sessions[1 := y];
    assert s' == s.(sessions := s.sessions[1 := y]);
  }

  /** The order matters: here, with the message delayed past several turns, which a
      first-in-first-out executor does not do, a session that was told to drain begins a
      second response. */
  lemma LateMessageServesMore() returns (states: seq<State>, actions: seq<Action>)
    ensures IsRun(1, states, actions) && |states| == 11
    ensures states[3].toldAll && forall k | 3 <= k <= 10 :: 1 in states[k].drainMsgs
    ensures (forall k | 3 <= k <= 10 :: 1 in states[k].sessions) && Begun(states, 1, 3, 10) == 2
  {
    hide Step;
    var s0 := State(map[], 1, {}, {}, false, false, {}, [], false, false, false, map[], [], false);
    var s1 := s0.(sessions := map[1 := NEW_SESSION], nextId := 2, registry := {1});
    var s2 := s1.(draining := true);
    var later := seq(8, k requires 0 <= k < 8 => LateMoment(k));
    states := [s0, s1, s2] + later;
    actions := [Accept, MarkDraining, TellSessions] + seq(7, _ => SessionStep(1));
    LateStart(s0, s1, s2);
    forall i | 0 <= i < 10 ensures Next(1, states[i], actions[i], states[i + 1]) {
      if i >= 3 { LateStep(i - 3); }
    }
    LateCount(states);
  }

  lemma LateStart(s0: State, s1: State, s2: State)
    requires Init(s0)
    requires s1 == s0.(sessions := map[1 := NEW_SESSION], nextId := 2, registry := {1})
    requires s2 == s1.(draining := true)
    ensures Next(1, s0, Accept, s1) && Next(1, s1, MarkDraining, s2)
    ensures Next(1, s2, TellSessions, LateMoment(0))
  {
    assert Live(s0) == {} && {} + {1} == {1};
    assert s0.sessions[1 := NEW_SESSION] == map[1 := NEW_SESSION];
    assert Live(s2) == {1} && {} + {1} == {1};
  }

  lemma LateCount(states: seq<State>)
    requires |states| == 11 && forall k | 0 <= k < 8 :: states[k + 3] == LateMoment(k)
    ensures (forall k | 3 <= k <= 10 :: 1 in states[k].sessions) && Begun(states, 1, 3, 10) == 2
  {
    forall k | 3 <= k <= 10 ensures 1 in states[k].sessions {
      LatePhase(states, k);
    }
    hide LateMoment;
    BegunIs(states, 10);
  }

  lemma LatePhase(states: seq<State>, k: nat)
    requires |states| == 11 && forall k | 0 <= k < 8 :: states[k + 3] == LateMoment(k)
    requires 3 <= k <= 10
    ensures 1 in states[k].sessions && states[k].sessions[1].phase == LatePhases()[k - 3]
  {
    assert states[(k - 3) + 3] == LateMoment(k - 3);
  }

  lemma {:induction false} BegunIs(states: seq<State>, k: nat)
    requires |states| == 11 && forall k | 0 <= k < 8 :: states[k + 3] == LateMoment(k)
    requires 3 <= k <= 10 && forall k | 3 <= k <= 10 :: 1 in states[k].sessions
    ensures Begun(states, 1, 3, k) == if k < 6 then 0 else if k < 10 then 1 else 2
  {
    hide LateMoment;
    if k > 3 {
      BegunIs(states, k - 1);
      LatePhase(states, k - 1);
      LatePhase(states, k);
    }
  }

  // ------------------------------------------------------ accounts and the callback

  /** Every connection is registered, waiting to be counted, or counted once, under a
      real reason; the registry holds exactly the open sessions and keeps its limit. */
  lemma CountedOnce(max: nat, states: seq<State>, actions: seq<Action>, i: nat, id: nat)
    requires IsRun(max, states, actions) && i < |states|
    ensures LoggedIds(states[i].log)[id] <= 1
    ensures id in states[i].sessions ==>
              (id in states[i].registry <==> LoggedIds(states[i].log)[id] == 0)
    ensures id in states[i].sessions && id !in states[i].registry ==>
              states[i].sessions[id].life == Closed
    ensures forall e | e in states[i].log :: e.reason != NoReason
    ensures |states[i].registry| <= max
  {
    hide LoggedIds; hide Sound; hide Told; hide ChecksOk; hide Next; hide Init;
    RunKeepsInv(max, states, actions, i);
  }

  /** After the drain call has told the sessions, each one still registered is
      leaving or has the message on its way. */
  lemma EverySessionTold(max: nat, states: seq<State>, actions: seq<Action>, i: nat, id: nat)
    requires IsRun(max, states, actions) && i < |states| && states[i].toldAll
    requires id in states[i].registry
    ensures id in states[i].sessions
    ensures id in states[i].drainMsgs || Leaving(states[i].sessions[id])
  {
    hide LoggedIds; hide Sound; hide ChecksOk; hide Next; hide Init;
    RunKeepsInv(max, states, actions, i);
  }

  /** A check that found the registry empty before the deadline did so at a moment of
      the run. */
  lemma {:induction false} InTimeMoment(
      max: nat, states: seq<State>, actions: seq<Action>, i: nat) returns (j: nat)
    requires IsRun(max, states, actions) && i < |states| && states[i].inTime
    ensures j <= i && !states[j].expired && states[j].registry == {} && states[j].draining
  {
    hide Live; hide SessionNext; hide RegistryNext;
    assert i > 0 && Next(max, states[i - 1], actions[i - 1], states[i]);
    if states[i - 1].inTime {
      j := InTimeMoment(max, states, actions, i - 1);
    } else {
      InTimeOnlyByLoad(max, states[i - 1], actions[i - 1], states[i]);
      RunKeepsInv(max, states, actions, i - 1);
      j := i - 1;
      assert Past(states[i - 1]);
    }
  }

  lemma InTimeOnlyByLoad(max: nat, s: State, a: Action, s': State)
    requires Next(max, s, a, s') && s'.inTime && !s.inTime
    ensures a.LoadExpired? && AtCheck(s, a.t, SawEmpty) && !s.expired
  {
    hide SessionNext; hide RegistryNext; hide ServerNext;
    if a.SessionStep? || a.DeliverDrain? || a.StopSession? {
      SessionFrame(s, a, s');
    } else if a.Accept? || a.RecordRefused? || a.Unregister? || a.Destroy? || a.MarkDraining?
              || a.TellSessions? {
      RegistryFrame(max, s, a, s');
    } else {
      ServerInTime(s, a, s');
    }
  }

  lemma SessionFrame(s: State, a: Action, s': State)
    requires a.SessionStep? || a.DeliverDrain? || a.StopSession?
    requires Idle(s, a.id) && SessionNext(s, a, s')
    ensures s'.inTime == s.inTime
  {
    hide Step; hide Throws; hide Drain; hide Close;
    match a
    case SessionStep(id) =>
    case DeliverDrain(id) =>
    case StopSession(id, reason) =>
  }

  lemma RegistryFrame(max: nat, s: State, a: Action, s': State)
    requires a.Accept? || a.RecordRefused? || a.Unregister? || a.Destroy?
          || a.MarkDraining? || a.TellSessions?
    requires RegistryNext(max, s, a, s')
    ensures s'.inTime == s.inTime
  {
    hide Live;
    match a
    case Accept =>
    case RecordRefused(id) =>
    case Unregister(id) =>
    case Destroy(id) =>
    case MarkDraining =>
    case TellSessions =>
  }

  lemma ServerInTime(s: State, a: Action, s': State)
    requires a.CallBeginDrain? || a.SpawnCheck? || a.Expire? || a.LoadFinished? || a.CountSessions?
          || a.LoadExpired? || a.Finish?
    requires ServerNext(s, a, s') && s'.inTime && !s.inTime
    ensures a.LoadExpired? && AtCheck(s, a.t, SawEmpty) && !s.expired
  {
    hide Live;
  }

  /** The callback fires at most once, only when every admitted session is closed and
      the registry is empty for good. It reports true only if all sessions were gone
      at some moment before the deadline, and false only after the deadline. */
  lemma CallbackIsRight(max: nat, states: seq<State>, actions: seq<Action>, i: nat)
    requires IsRun(max, states, actions) && i < |states|
    ensures |states[i].callbacks| <= 1
    ensures states[i].callbacks != [] ==>
              && states[i].draining && states[i].registry == {}
              && forall id | id in states[i].sessions :: states[i].sessions[id].life == Closed
    ensures states[i].callbacks == [true] ==>
              exists j :: 0 <= j <= i && !states[j].expired && states[j].registry == {}
                          && states[j].draining
    ensures states[i].callbacks == [false] ==> states[i].expired
  {
    RunKeepsInv(max, states, actions, i);
    hide LoggedIds; hide Sound; hide Told; hide Next; hide Init; hide LogOk;
    if states[i].callbacks == [true] {
      assert true in states[i].callbacks;
      var j := InTimeMoment(max, states, actions, i);
    }
  }
}
