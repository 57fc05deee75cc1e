/**
 * The protocol state machine of app_cmd.c as values: state_set, mode_set,
 * state_handler and the on_cmd_* events.
 *
 * In the source, state_handler runs the side effect of entering a state and,
 * for RSP_SENT, ERR_SEND, ERR_TIMEOUT and (outside HOST mode) ERR_RECEIVE,
 * calls state_set(IDLE) again. Here that re-entry is an explicit
 * "back to idle" step of the table, so the table is not recursive.
 */
module CmdSession {
  import opened CmdDefs

  /** A deferred dispatcher queued with app_sched_event_put. */
  datatype Dispatch = ReqDispatch | RspDispatch

  /**
   * The session: mode and state, whether the response-wait timer is
   * running, and the scheduler's FIFO of pending dispatchers.
   */
  datatype Session = Session(mode: Mode, state: CmdState, timerArmed: bool, pending: seq<Dispatch>)

  /** The transport and parser events that drive the machine. */
  datatype Signal = SendStart | SendComplete | SendError | ReceiveStart | ReceiveComplete | ReceiveError

  /** state_set(IDLE) from any state other than IDLE: IDLE's entry forces mode IDLE. */
  function BackToIdle(s: Session): Session
  {
    s.(state := Idle, mode := IdleMode)
  }

  /** state_handler: the side effect of entering `s.state`. */
  function Entry(s: Session): Session
  {
    match s.state
    case Idle => s.(mode := IdleMode)
    case ReqSending => s.(mode := HostMode)
    case ReqSent => s.(timerArmed := true)
    case RspReceiving => s
    case RspReceived => s.(timerArmed := false, pending := s.pending + [RspDispatch])
    case ReqReceiving => s.(mode := SlaveMode)
    case ReqReceived => s.(pending := s.pending + [ReqDispatch])
    case ErrTimeout => BackToIdle(s)
    case ErrReceive => if s.mode != HostMode then BackToIdle(s) else s
    case RspSent => BackToIdle(s)
    case ErrSend => BackToIdle(s)
    case RspSending => s
  }

  /** state_set: nothing when the state is unchanged, else the new state and its entry effect. */
  function Transition(s: Session, ns: CmdState): Session
  {
    if s.state == ns then s else Entry(s.(state := ns))
  }

  /** The on_cmd_* event functions. */
  function OnSignal(s: Session, sig: Signal): Session
  {
    match sig
    case SendStart => Transition(s, if s.mode == SlaveMode then RspSending else ReqSending)
    case SendComplete =>
      if s.mode == HostMode then Transition(s, ReqSent)
      else if s.mode == SlaveMode then Transition(s, RspSent)
      else s
    case SendError => Transition(s, ErrSend)
    case ReceiveStart => Transition(s, if s.mode == HostMode then RspReceiving else ReqReceiving)
    case ReceiveComplete =>
      if s.mode == HostMode then Transition(s, RspReceived)
      else if s.mode == SlaveMode then Transition(s, ReqReceived)
      else s
    case ReceiveError => Transition(s, ErrReceive)
  }

  /** States that the machine never rests in: each one falls back to IDLE in the call that enters it. */
  predicate Transient(st: CmdState)
  {
    st == RspSent || st == ErrSend || st == ErrTimeout
  }

  /**
   * A session between events: no transient state, ERR_RECEIVE only in HOST
   * mode, and IDLE state only in IDLE or HOST mode (HOST while
   * app_cmd_request is sending its first byte).
   */
  predicate Settled(s: Session)
  {
    && !Transient(s.state)
    && (s.state == ErrReceive ==> s.mode == HostMode)
    && (s.state == Idle ==> s.mode != SlaveMode)
  }

  /**
   * Settled, and the mode is IDLE exactly when the state is: the mode leaves
   * IDLE only by entering REQ_SENDING or REQ_RECEIVING, and returns to it
   * only by entering IDLE.
   */
  predicate Coherent(s: Session)
  {
    Settled(s) && (s.state == Idle <==> s.mode == IdleMode)
  }

  const INITIAL: Session := Session(IdleMode, Idle, false, [])

  /** The state machine never rests in a transient state: settled sessions stay settled. */
  lemma TransitionSettles(s: Session, ns: CmdState)
    requires Settled(s)
    ensures Settled(Transition(s, ns))
  {
  }

  /** Every event keeps a settled session settled. */
  lemma SignalSettles(s: Session, sig: Signal)
    requires Settled(s)
    ensures Settled(OnSignal(s, sig))
  {
  }

  /**
   * Which transitions collapse back to IDLE: entering IDLE, RSP_SENT,
   * ERR_SEND or ERR_TIMEOUT always ends in state and mode IDLE, and entering
   * ERR_RECEIVE does exactly when the mode is not HOST.
   */
  lemma CollapseToIdle(s: Session, ns: CmdState)
    requires Settled(s) && s.state != ns
    ensures var t := Transition(s, ns);
      (t.state == Idle && t.mode == IdleMode) <==>
      (ns == Idle || Transient(ns) || (ns == ErrReceive && s.mode != HostMode))
    ensures ns == ErrReceive && s.mode == HostMode ==>
      Transition(s, ns).state == ErrReceive && Transition(s, ns).mode == HostMode
  {
  }

  /**
   * Mode forcing: a change into REQ_SENDING makes the mode HOST, into
   * REQ_RECEIVING makes it SLAVE, and into IDLE makes it IDLE; no other
   * state changes the mode except by falling back to IDLE.
   */
  lemma TransitionMode(s: Session, ns: CmdState)
    requires s.state != ns
    ensures ns == ReqSending ==> Transition(s, ns).mode == HostMode
    ensures ns == ReqReceiving ==> Transition(s, ns).mode == SlaveMode
    ensures ns == Idle ==> Transition(s, ns).mode == IdleMode
    ensures ns !in {Idle, ReqSending, ReqReceiving} ==>
      Transition(s, ns).mode == s.mode || Transition(s, ns).mode == IdleMode
  {
  }

  /**
   * Timer and scheduler side effects: the timer is started only by entering
   * REQ_SENT and stopped only by entering RSP_RECEIVED, which also queues
   * the response dispatcher; REQ_RECEIVED queues the request dispatcher.
   * Nothing else touches the timer or the queue.
   */
  lemma TransitionEffects(s: Session, ns: CmdState)
    ensures var t := Transition(s, ns);
      && (t.timerArmed != s.timerArmed ==> (ns == ReqSent && t.timerArmed) || (ns == RspReceived && !t.timerArmed))
      && (s.state != ns && ns == RspReceived ==> t.pending == s.pending + [RspDispatch])
      && (s.state != ns && ns == ReqReceived ==> t.pending == s.pending + [ReqDispatch])
      && (ns != RspReceived && ns != ReqReceived ==> t.pending == s.pending)
      && (s.state != ns && ns == ReqSent ==> t.timerArmed)
  {
  }

  /**
   * The host's cycle: from IDLE, a send that starts, completes, then a
   * response that starts and completes leaves RSP_RECEIVED in HOST mode with
   * the timer stopped and the response dispatcher queued.
   */
  lemma HostCycle(s: Session)
    requires s.mode == HostMode && s.state == Idle
    ensures var a := OnSignal(s, SendStart);
      var b := OnSignal(a, SendComplete);
      var c := OnSignal(b, ReceiveStart);
      var d := OnSignal(c, ReceiveComplete);
      && a.state == ReqSending && b.state == ReqSent && b.timerArmed
      && c.state == RspReceiving && c.timerArmed
      && d == Session(HostMode, RspReceived, false, s.pending + [RspDispatch])
  {
  }

  /**
   * The slave's cycle: from IDLE a request that starts and completes leaves
   * REQ_RECEIVED with the request dispatcher queued; the response's send
   * start and completion then return the session to IDLE.
   */
  lemma SlaveCycle(s: Session)
    requires s.mode == IdleMode && s.state == Idle
    ensures var a := OnSignal(s, ReceiveStart);
      var b := OnSignal(a, ReceiveComplete);
      var c := OnSignal(b, SendStart);
      var d := OnSignal(c, SendComplete);
      && a.state == ReqReceiving && a.mode == SlaveMode
      && b.state == ReqReceived && b.pending == s.pending + [ReqDispatch]
      && c.state == RspSending && c.mode == SlaveMode
      && d == b.(state := Idle, mode := IdleMode)
  {
  }

  /** send-complete of a request arms the response timer in REQ_SENT. */
  lemma RequestSent(s: Session)
    requires s.mode == HostMode && s.state == ReqSending
    ensures OnSignal(s, SendComplete) == s.(state := ReqSent, timerArmed := true)
  {
  }

  /** send-complete of a response passes through RSP_SENT back to IDLE. */
  lemma ResponseSent(s: Session)
    requires s.mode == SlaveMode && s.state == RspSending
    ensures OnSignal(s, SendComplete) == s.(mode := IdleMode, state := Idle)
  {
  }

  /** Every event keeps a coherent session coherent. */
  lemma SignalCoherent(s: Session, sig: Signal)
    requires Coherent(s)
    ensures Coherent(OnSignal(s, sig))
  {
  }

  /** Falling back to IDLE (proc_rsp_handler, the timeout, app_cmd_init) leaves a coherent session. */
  lemma IdleCoherent(s: Session)
    requires s.mode == IdleMode || s.state != Idle
    ensures Coherent(Transition(s, Idle))
    ensures Transition(s, Idle).state == Idle && Transition(s, Idle).mode == IdleMode
  {
  }

  /** The initial session is coherent. */
  lemma InitialCoherent()
    ensures Coherent(INITIAL)
  {
  }

  /** A send error always returns a settled session to IDLE. */
  lemma SendErrorRecovers(s: Session)
    requires Settled(s)
    ensures OnSignal(s, SendError).state == Idle && OnSignal(s, SendError).mode == IdleMode
  {
  }

  /** A receive error returns to IDLE exactly outside HOST mode; in HOST mode it rests in ERR_RECEIVE. */
  lemma ReceiveErrorRecovers(s: Session)
    requires Settled(s)
    ensures var t := OnSignal(s, ReceiveError);
      && (s.mode != HostMode <==> t.state == Idle)
      && (s.mode == HostMode ==> t.state == ErrReceive && t.mode == HostMode)
  {
  }
}
