/** What a drain message does to the session it reaches, and under which reason a session
    is counted. */
module DrainExact {
  import opened SessionLife
  import opened Draining

  // -------------------------------------------------------------- the message arrives

  /** What is left of a session that waits for its client no more: closed, or with its
      last response under way. */
  predicate Finishing(x: Session) {
    x.life == Closed || (x.life == Draining && !Before(x.phase))
  }

  lemma FinishingGoesOn(x: Session, y: Session)
    requires Finishing(x) && (Step(x, y) || Throws(x, y))
    ensures Finishing(y)
  {}

  lemma DrainFinishes(x: Session)
    requires x.phase != NotStarted && !OnTurn(x.phase)
    ensures Finishing(Drain(x))
    ensures x.phase == Reading ==> Drain(x).life == Closed
    ensures x.phase != Reading && x.life != Closed ==> Drain(x) == x.(life := Draining)
    ensures x.phase == Reading && x.life != Closed ==>
              Drain(x).reason == if x.reason == NoReason then ServerShutdown else x.reason
  {}

  /** A drain message that finds a started session suspended ends its waiting: one that was
      waiting for its client is closed there and then, and none that is still open ever
      waits for its client again. */
  lemma {:induction false} DrainedWaitsNoMore(
      max: nat, states: seq<State>, actions: seq<Action>, id: nat, i: nat, j: nat)
    requires IsRun(max, states, actions) && i < j < |states| && actions[i] == DeliverDrain(id)
    requires id in states[i].sessions
    requires var p := states[i].sessions[id].phase; p != NotStarted && !OnTurn(p)
    ensures id in states[j].sessions && Finishing(states[j].sessions[id])
    ensures states[j].sessions[id].phase == Reading ==> states[j].sessions[id].life == Closed
    ensures states[i].sessions[id].phase == Reading ==> states[i + 1].sessions.Keys == states[i].sessions.Keys
                                                        && states[i + 1].sessions[id].life == Closed
  {
    hide Next; hide Inv; hide Init; hide Finishing;
    assert Next(max, states[i], actions[i], states[i + 1]);
    Delivered(max, states[i], states[i + 1], id);
    if i + 1 < j {
      DrainedWaitsNoMore(max, states, actions, id, i, j - 1);
      RunKeepsInv(max, states, actions, j - 1);
      assert Next(max, states[j - 1], actions[j - 1], states[j]);
      StaysFinishing(max, states[j - 1], actions[j - 1], states[j], id);
    }
    FinishingReader(states[j].sessions[id]);
  }

  lemma FinishingReader(x: Session)
    requires Finishing(x)
    ensures x.phase == Reading ==> x.life == Closed
  {}

  lemma Delivered(max: nat, s: State, s': State, id: nat)
    requires Next(max, s, DeliverDrain(id), s') && id in s.sessions
    requires var p := s.sessions[id].phase; p != NotStarted && !OnTurn(p)
    ensures id in s'.sessions && Finishing(s'.sessions[id])
    ensures s'.sessions.Keys == s.sessions.Keys && s'.sessions[id] == Drain(s.sessions[id])
    ensures s.sessions[id].phase == Reading ==> s'.sessions[id].life == Closed
  {
    hide RegistryNext; hide ServerNext; hide Drain; hide Finishing;
    DrainFinishes(s.sessions[id]);
  }

  lemma StaysFinishing(max: nat, s: State, a: Action, s': State, id: nat)
    requires Inv(max, s) && Next(max, s, a, s') && id in s.sessions && Finishing(s.sessions[id])
    ensures id in s'.sessions && Finishing(s'.sessions[id])
  {
    hide Next; hide Step; hide Throws;
    assert id < s.nextId by { IdIsOld(max, s, id); }
    hide Inv;
    SeenFrom(max, s, a, s', id);
    var x, y := s.sessions[id], s'.sessions[id];
    if Step(x, y) || Throws(x, y) { FinishingGoesOn(x, y); }
  }

  // ------------------------------------------------------------------ the reason counted

  /** A reason once given stays, but that a malformed request overrides it. */
  lemma ReasonSticks(x: Session, y: Session, why: Reason)
    requires x.reason != NoReason
    ensures Step(x, y) || Throws(x, y) ==>
              y.reason == x.reason ||
              (x.phase == Parsing && y.phase == WritingError && y.reason == ProtocolError)
    ensures Close(x, why).reason == x.reason && Drain(x).reason == x.reason
  {}

  /** Closed under `reason` and not yet counted, or counted under it. */
  ghost predicate CountedUnder(s: State, id: nat, reason: Reason) {
    || (id in s.sessions && s.sessions[id].removing && s.sessions[id].reason == reason)
    || Entry(id, reason) in s.log
  }

  lemma LogGrows(max: nat, s: State, a: Action, s': State)
    requires Next(max, s, a, s')
    ensures s.log <= s'.log
  {
    hide Step; hide Throws; hide Drain; hide Close; hide Live;
    if a.SessionStep? || a.DeliverDrain? || a.StopSession? {
      hide RegistryNext; hide ServerNext;
    } else if a.Accept? || a.RecordRefused? || a.Unregister? || a.Destroy? || a.MarkDraining?
              || a.TellSessions? {
      hide SessionNext; hide ServerNext;
    } else {
      hide SessionNext; hide RegistryNext;
      ServerFrame(s, a, s');
    }
  }

  /** While a closed session is being taken out of the registry, nothing else touches it. */
  lemma CountingGoesOn(max: nat, s: State, a: Action, s': State, id: nat)
    requires Inv(max, s) && Next(max, s, a, s') && id in s.sessions && s.sessions[id].removing
    ensures CountedUnder(s', id, s.sessions[id].reason)
  {
    hide Step; hide Throws; hide Drain; hide Close; hide Live; hide LogOk; hide Told; hide ChecksOk;
    hide Sound;
    if a.SessionStep? || a.DeliverDrain? || a.StopSession? {
      hide RegistryNext; hide ServerNext;
      assert a.id != id;
    } else if a.Accept? || a.RecordRefused? || a.Unregister? || a.Destroy? || a.MarkDraining?
              || a.TellSessions? {
      hide SessionNext; hide ServerNext;
      if a == Unregister(id) { assert Entry(id, s.sessions[id].reason) in s'.log; }
    } else {
      hide SessionNext; hide RegistryNext;
      ServerFrame(s, a, s');
    }
  }

  /** A closed session is counted under the reason it had when it was closed. */
  lemma {:induction false} ClosingReasonIsCounted(
      max: nat, states: seq<State>, actions: seq<Action>, id: nat, reason: Reason, i: nat, j: nat)
    requires IsRun(max, states, actions) && i <= j < |states| && CountedUnder(states[i], id, reason)
    ensures CountedUnder(states[j], id, reason)
  {
    hide Next; hide Inv; hide Init; hide CountedUnder;
    if i < j {
      ClosingReasonIsCounted(max, states, actions, id, reason, i, j - 1);
      assert Next(max, states[j - 1], actions[j - 1], states[j]);
      RunKeepsInv(max, states, actions, j - 1);
      StaysCounted(max, states[j - 1], actions[j - 1], states[j], id, reason);
    }
  }

  lemma StaysCounted(max: nat, s: State, a: Action, s': State, id: nat, reason: Reason)
    requires Inv(max, s) && Next(max, s, a, s') && CountedUnder(s, id, reason)
    ensures CountedUnder(s', id, reason)
  {
    hide Next; hide Inv;
    if Entry(id, reason) in s.log {
      LogGrows(max, s, a, s');
      var k :| 0 <= k < |s.log| && s.log[k] == Entry(id, reason);
      assert s'.log[k] == s.log[k];
    } else {
      CountingGoesOn(max, s, a, s', id);
    }
  }

  /** A session that waits for its client when the drain message arrives is counted under
      the server's shutdown, unless it had a reason before. */
  lemma DrainedReaderIsCounted(
      max: nat, states: seq<State>, actions: seq<Action>, id: nat, i: nat, j: nat)
    requires IsRun(max, states, actions) && i < j < |states| && actions[i] == DeliverDrain(id)
    requires id in states[i].sessions && states[i].sessions[id].phase == Reading
    requires states[i].sessions[id].life != Closed && states[i].sessions[id].reason == NoReason
    ensures CountedUnder(states[j], id, ServerShutdown)
  {
    hide Init; hide CountedUnder; hide Next; hide Inv;
    assert Next(max, states[i], actions[i], states[i + 1]);
    RunKeepsInv(max, states, actions, i);
    Delivered(max, states[i], states[i + 1], id);
    SoundDelivery(max, states[i], id);
    BeingCounted(states[i + 1], id);
    ClosingReasonIsCounted(max, states, actions, id, ServerShutdown, i + 1, j);
  }

  lemma BeingCounted(s: State, id: nat)
    requires id in s.sessions && s.sessions[id].removing
    ensures CountedUnder(s, id, s.sessions[id].reason)
  {}

  lemma SoundDelivery(max: nat, s: State, id: nat)
    requires Inv(max, s) && id in s.sessions && s.sessions[id].phase == Reading
    requires s.sessions[id].life != Closed && s.sessions[id].reason == NoReason
    ensures Drain(s.sessions[id]).removing && Drain(s.sessions[id]).reason == ServerShutdown
  {
    hide LogOk; hide Told; hide ChecksOk;
    assert Sound(s.sessions[id]);
  }
}
