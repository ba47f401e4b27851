/** The registry and the lifecycle calls of a session as objects, proved against the
    steps of the drain protocol. The registry's counters are tied to the log of all
    counts made; a weak entry of a destroyed session is left out, since destroyed
    sessions are never registered. */
module SessionObjects {
  import opened SessionLife
  import opened Draining

  /** How often a reason was counted. */
  function Times(log: seq<Entry>, reason: Reason): nat {
    if log == [] then 0
    else Times(log[..|log| - 1], reason) + if log[|log| - 1].reason == reason then 1 else 0
  }

  lemma TimesSnoc(log: seq<Entry>, e: Entry, reason: Reason)
    ensures Times(log + [e], reason) == Times(log, reason) + if e.reason == reason then 1 else 0
  {
    assert (log + [e])[..|log|] == log;
  }

  class SessionRegistry {
    const maximum: nat
    var sessions: set<nat>
    var closedCounts: map<Reason, nat>
    var draining: bool
    ghost var log: seq<Entry>

    /** Every counter is the number of times its reason was logged. */
    ghost predicate Valid()
      reads this
    {
      && |sessions| <= maximum
      && forall r: Reason :: (if r in closedCounts then closedCounts[r] else 0) == Times(log, r)
    }

    constructor (max: nat)
      requires max > 0
      ensures Valid() && maximum == max && sessions == {} && log == [] && !draining
    {
      maximum, sessions, closedCounts, draining, log := max, {}, map[], false, [];
    }

    method TryAdd(id: nat) returns (added: bool)
      requires Valid()
      modifies this`sessions
      ensures Valid()
      ensures added <==> !draining && |old(sessions)| < maximum && id !in old(sessions)
      ensures sessions == if added then old(sessions) + {id} else old(sessions)
    {
      if draining || |sessions| >= maximum { return false; }
      added := id !in sessions;
      sessions := sessions + {id};
    }

    method RecordRejected(id: nat, reason: Reason)
      requires Valid()
      modifies this`closedCounts, this`log
      ensures Valid() && log == old(log) + [Entry(id, reason)]
    {
      var count := if reason in closedCounts then closedCounts[reason] else 0;
      closedCounts := closedCounts[reason := count + 1];
      log := log + [Entry(id, reason)];
      forall r: Reason
        ensures (if r in closedCounts then closedCounts[r] else 0) == Times(log, r)
      {
        TimesSnoc(old(log), Entry(id, reason), r);
      }
    }

    /** Only the first removal of an id counts. */
    method Remove(id: nat, reason: Reason)
      requires Valid()
      modifies this`sessions, this`closedCounts, this`log
      ensures Valid() && sessions == old(sessions) - {id}
      ensures log == if id in old(sessions) then old(log) + [Entry(id, reason)] else old(log)
    {
      if id in sessions {
        sessions := sessions - {id};
        RecordRejected(id, reason);
      }
    }

    /** Sets the flag and then takes the list of sessions to tell. */
    method BeginDrain() returns (live: set<nat>)
      requires Valid()
      modifies this`draining
      ensures Valid() && draining && live == sessions
    {
      draining := true;
      live := sessions;
    }
  }

  class SessionControl {
    const id: nat
    const registry: SessionRegistry
    var life: Life
    var phase: Phase
    var reason: Reason
    var closeRecorded: bool

    ghost function Value(): Session
      reads this
    {
      Session(life, phase, reason, closeRecorded, false, false)
    }

    /** A sound session, registered exactly while it is not closed. */
    ghost predicate Valid()
      reads this, registry
    {
      Sound(Value()) && registry.Valid() && (id in registry.sessions <==> life != Closed)
    }

    constructor (i: nat, r: SessionRegistry)
      ensures id == i && registry == r && Value() == NEW_SESSION
    {
      id, registry := i, r;
      life, phase, reason, closeRecorded := Created, NotStarted, NoReason, false;
    }

    /** Closing and leaving the registry, once, under the first reason. */
    method CloseInExecutor(why: Reason)
      requires Valid() && why != NoReason
      modifies this`life, this`reason, this`closeRecorded
      modifies registry`sessions, registry`closedCounts, registry`log
      ensures Value() == Close(old(Value()), why).(removing := false)
      ensures registry.sessions == old(registry.sessions) - {id}
      ensures registry.log == if old(life) == Closed then old(registry.log)
                              else old(registry.log) + [Entry(id, reason)]
      ensures Valid()
    {
      if life == Closed { return; }
      if reason == NoReason { reason := why; }
      life := Closed;
      if !closeRecorded {
        closeRecorded := true;
        registry.Remove(id, reason);
      }
    }

    method BeginDrainInExecutor()
      requires Valid()
      modifies this`life, this`reason, this`closeRecorded
      modifies registry`sessions, registry`closedCounts, registry`log
      ensures Value() == Drain(old(Value())).(removing := false)
      ensures Leaving(Value()) && Valid()
    {
      if life == Closed { return; }
      life := Draining;
      if phase == Reading { CloseInExecutor(ServerShutdown); }
    }

    /** The end of the coroutine. */
    method Leave()
      requires Valid() && phase == Exiting
      modifies this`life, this`reason, this`closeRecorded, this`phase
      modifies registry`sessions, registry`closedCounts, registry`log
      ensures Value() == Close(old(Value()), OrPeerClosed(old(reason))).(removing := false, phase := Finished)
      ensures Valid() && id !in registry.sessions
    {
      if life != Closed { CloseInExecutor(if reason == NoReason then PeerClosed else reason); }
      phase := Finished;
    }
  }
}
