/** One session's life: the coroutine that reads and answers requests, and the
    calls that drain or close it. All of these run on the session's own executor,
    so one step is the code between two suspension points. The state between
    `Closing` and `Closed` is never seen by another step. */
module SessionLife {

  datatype Reason =
    | NoReason | PeerClosed | ProtocolError | HeaderTimeout | BodyTimeout | IdleTimeout
    | ServerShutdown | ResourceLimit | InternalError

  datatype Life = Created | Running | Draining | Closed

  /** Where the coroutine is suspended, or about to go on. */
  datatype Phase =
    | NotStarted | LoopTop | Parsing | Reading | Handling | Writing | WritingError | Exiting | Finished

  /** `removing`: closed, with the call that takes it out of the registry still to
      come. `destroyed`: the object no longer exists. */
  datatype Session = Session(
    life: Life, phase: Phase, reason: Reason, recorded: bool, removing: bool, destroyed: bool)

  const NEW_SESSION := Session(Created, NotStarted, NoReason, false, false, false)

  /** A response is under way. */
  predicate Answering(p: Phase) { p == Handling || p == Writing || p == WritingError }

  /** The next response of the coroutine, if any, is still to come. */
  predicate Before(p: Phase) { p == NotStarted || p == LoopTop || p == Parsing || p == Reading }

  /** Draining, or closed. */
  predicate Leaving(x: Session) { x.life == Draining || x.life == Closed }

  /** `closeInExecutor`, up to the call into the registry. */
  function Close(x: Session, reason: Reason): Session {
    if x.life == Closed then x
    else
      x.(life := Closed, reason := if x.reason == NoReason then reason else x.reason,
         recorded := true, removing := x.removing || !x.recorded)
  }

  /** `beginDrainInExecutor`. */
  function Drain(x: Session): Session {
    if x.life == Closed then x else
    var y := x.(life := Draining);
    if x.phase == Reading then Close(y, ServerShutdown) else y
  }

  function OrPeerClosed(r: Reason): Reason { if r == NoReason then PeerClosed else r }

  /** One step of the coroutine. Whatever the peer, the parser and the handler do is
      a free choice. */
  ghost predicate Step(x: Session, y: Session) {
    match x.phase
    case NotStarted =>
      y == x.(phase := LoopTop, life := if x.life == Created then Running else x.life)
    case LoopTop =>
      y == x.(phase := if x.life == Running || x.life == Draining then Parsing else Exiting)
    case Parsing =>
      || y == (if x.life == Closed then x.(phase := Exiting) else x.(phase := Handling))
      || y == x.(phase := WritingError, reason := ProtocolError)
      || y == x.(phase := Reading)
    case Reading =>
      || y == x.(phase := Parsing)
      || y == x.(phase := Exiting, reason := OrPeerClosed(x.reason))
    case Handling => y == x.(phase := Writing) || y == x.(phase := Writing, reason := OrPeerClosed(x.reason))
    case Writing =>
      exists reason, goOn ::
        && (reason == x.reason || reason == OrPeerClosed(x.reason))
        && y == AfterResponse(x.(reason := reason), goOn)
    case WritingError =>
      y == x.(phase := Exiting) || y == x.(phase := Exiting, reason := OrPeerClosed(x.reason))
    case Exiting => y == Close(x, OrPeerClosed(x.reason)).(phase := Finished)
    case Finished => false
  }

  /** After a response: on to the next request, unless the connection is to close. */
  function AfterResponse(x: Session, keepAlive: bool): Session {
    x.(phase := if keepAlive && x.life == Running then LoopTop else Exiting)
  }

  /** An exception in the coroutine. */
  ghost predicate Throws(x: Session, y: Session) {
    && x.phase != Finished && x.phase != NotStarted
    && y == Close(x, InternalError).(phase := Finished)
  }

  /** What holds of a session at every moment. */
  ghost predicate Sound(x: Session) {
    && (x.recorded <==> x.life == Closed) && (x.removing ==> x.recorded)
    && (x.life == Closed ==> x.reason != NoReason)
    && (x.phase == Finished ==> x.life == Closed)
    && (x.destroyed ==> x.phase == Finished && !x.removing)
  }

  lemma CloseIsSound(x: Session, reason: Reason)
    requires Sound(x) && reason != NoReason
    ensures Sound(Close(x, reason)) && Close(x, reason).life == Closed
    ensures Close(x, reason).removing == (x.removing || x.life != Closed)
  {}

  lemma DrainIsSound(x: Session)
    requires Sound(x)
    ensures Sound(Drain(x)) && Leaving(Drain(x))
  {}

  lemma StepIsSound(x: Session, y: Session)
    requires Sound(x) && (Step(x, y) || Throws(x, y))
    ensures Sound(y)
    ensures y.removing == (x.removing || (x.life != Closed && y.life == Closed))
    ensures (x.life == Closed ==> y.life == Closed) && (Leaving(x) ==> Leaving(y))
    ensures y.destroyed == x.destroyed
  {}

  /** A leaving session that has begun its response, or is past it, begins no other. */
  lemma LeavingGoesOn(x: Session, y: Session)
    requires Leaving(x) && (Step(x, y) || Throws(x, y))
    ensures Leaving(y) && (Before(y.phase) ==> Before(x.phase))
    ensures !Answering(x.phase) && Answering(y.phase) ==> Before(x.phase) && !Before(y.phase)
  {}
}
