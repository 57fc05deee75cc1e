/**
 * Writes outside the receive pool in on_uart_rx_ready.
 *
 * As written, a frame whose length field announces more than the pool holds
 * signals receive-error but keeps the cycle open. In SLAVE mode the error
 * returns the engine to IDLE, where the role gate no longer filters bytes,
 * so every further byte is stored at the next index until the 16-bit count
 * reaches the announced size: the 1041st byte lands past the pool. The
 * corrected receiver ends the cycle on an oversized frame and takes the
 * length field at full width; it never writes outside the pool.
 */
module CmdOverrun {
  import opened Bytes
  import opened CmdDefs
  import opened CmdFrame
  import opened CmdSession
  import opened CmdSpec
  import opened CmdProtocol

  /** A request whose length field announces 0x1000 bytes, followed by zeros: 1041 bytes in all. */
  const OVERSIZED: seq<byte> := [START_REQ, 0x00, 0x10] + Zeros(PACKET_LENGTH - 2)

  /** The receive pool while OVERSIZED accumulates: its header, then zeros. */
  const OVERSIZED_POOL: seq<byte> := [START_REQ, 0x00, 0x10] + Zeros(PACKET_LENGTH - 3)

  /** The announced total size: 0x1000 + 5. */
  const OVERSIZED_LEN: u16 := 0x1005

  /** The bytes of OVERSIZED: its three header bytes, then zeros. */
  lemma OversizedBytes()
    ensures |OVERSIZED| == PACKET_LENGTH + 1
    ensures OVERSIZED[0] == START_REQ && OVERSIZED[1] == 0x00 && OVERSIZED[2] == 0x10
    ensures forall i :: 3 <= i < |OVERSIZED| ==> OVERSIZED[i] == 0
  {
  }

  /** The pool after the three header bytes; later zeros leave it as it is. */
  lemma OversizedPoolBytes()
    ensures |OVERSIZED_POOL| == PACKET_LENGTH
    ensures Zeros(PACKET_LENGTH)[0 := START_REQ][1 := 0x00][2 := 0x10] == OVERSIZED_POOL
    ensures forall i :: 3 <= i < PACKET_LENGTH ==> OVERSIZED_POOL[i] == 0
    ensures LenField(OVERSIZED_POOL) == 0x1000
    ensures CmdLenGet(OVERSIZED_POOL, 3) == OVERSIZED_LEN
  {
    var z := Zeros(PACKET_LENGTH)[0 := START_REQ][1 := 0x00][2 := 0x10];
    assert forall i :: 0 <= i < PACKET_LENGTH ==> z[i] == OVERSIZED_POOL[i];
  }

  /** The header facts the third byte of OVERSIZED needs. */
  lemma OversizedLength()
    ensures Zeros(PACKET_LENGTH)[0 := START_REQ][1 := 0x00][2 := 0x10] == OVERSIZED_POOL
    ensures FrameLen(OVERSIZED_POOL) > PACKET_LENGTH && CmdLenGet(OVERSIZED_POOL, 3) == OVERSIZED_LEN
  {
    OversizedPoolBytes();
  }

  /** The third byte of an oversized frame signals receive-error but leaves the cycle open. */
  lemma RxOversize(p: EngineState, b: byte, cfg: Config)
    requires Wf(p) && p.rxStarted && RxGate(p.session) && p.rx.attached && p.rx.length == 2 && p.cmdLen == 0
    requires CmdLenGet(p.rxPool[2 := b], 3) > PACKET_LENGTH
    ensures RxReady(p, b, cfg) ==
      Stored(p, b).(cmdLen := CmdLenGet(p.rxPool[2 := b], 3), session := OnSignal(p.session, ReceiveError))
  {
    var c1 := RxStore(RxStart(p), b);
    assert c1 == Stored(p, b);
  }

  /** The engine while OVERSIZED accumulates, after its first `k` bytes. */
  function Overrunning(c: EngineState, k: nat): EngineState
    requires k <= PACKET_LENGTH
  {
    c.(rxStarted := true, rx := Buf(true, k, 0), rxPool := OVERSIZED_POOL, cmdLen := OVERSIZED_LEN)
  }

  /** An idle engine after the first two bytes of OVERSIZED, in SLAVE REQ_RECEIVING. */
  function Opened(c: EngineState): EngineState
  {
    c.(session := c.session.(mode := SlaveMode, state := ReqReceiving), rxStarted := true,
       rx := Buf(true, 2, 0), rxPool := Zeros(PACKET_LENGTH)[0 := START_REQ][1 := 0x00], cmdLen := 0)
  }

  /** As written: the first two bytes of OVERSIZED open a cycle as a slave. */
  lemma OversizedOpens(c: EngineState, cfg: Config)
    requires Wf(c) && !c.rxStarted && c.session.mode == IdleMode && c.session.state == Idle
    ensures Feed(c, OVERSIZED[..2], cfg) == Opened(c)
  {
    OversizedBytes();
    FeedSnoc(c, OVERSIZED, 2, cfg);
    FeedSnoc(c, OVERSIZED, 1, cfg);
    assert OVERSIZED[..0] == [];
    RxFirst(c, START_REQ, cfg);
    RxMiddle(Feed(c, OVERSIZED[..1], cfg), 0x00, cfg);
  }

  /**
   * As written: the first three bytes of OVERSIZED take an idle engine
   * through SLAVE REQ_RECEIVING and, on the receive-error, back to IDLE,
   * with the cycle still open.
   */
  lemma OversizedHeader(c: EngineState, cfg: Config)
    requires Wf(c) && !c.rxStarted && c.session.mode == IdleMode && c.session.state == Idle
    ensures Feed(c, OVERSIZED[..3], cfg) == Overrunning(c, 3)
  {
    OversizedBytes();
    OversizedOpens(c, cfg);
    FeedSnoc(c, OVERSIZED, 3, cfg);
    OpenedOversize(c, cfg);
  }

  /** As written: the length byte 0x10 takes an opened cycle back to IDLE, still open. */
  lemma OpenedOversize(c: EngineState, cfg: Config)
    requires Wf(c) && !c.rxStarted && c.session.mode == IdleMode && c.session.state == Idle
    ensures RxReady(Opened(c), 0x10, cfg) == Overrunning(c, 3)
  {
    OversizedLength();
    var p := Opened(c);
    RxOversize(p, 0x10, cfg);
    assert Stored(p, 0x10).rxPool == OVERSIZED_POOL;
    assert OnSignal(p.session, ReceiveError) == c.session;
  }

  /** As written: in IDLE, with cmd_len 0x1005, a zero byte inside the pool is just stored. */
  lemma OversizedNext(c: EngineState, k: nat, cfg: Config)
    requires Wf(c) && c.session.mode == IdleMode && c.session.state == Idle
    requires 3 <= k < PACKET_LENGTH
    ensures RxReady(Overrunning(c, k), 0, cfg) == Overrunning(c, k + 1)
  {
    OversizedPoolBytes();
    assert OVERSIZED_POOL[k := 0] == OVERSIZED_POOL;
    RxMiddle(Overrunning(c, k), 0, cfg);
  }

  /**
   * As written: from an idle engine, after the first k (3 <= k <= 1040)
   * bytes of OVERSIZED the engine is back in IDLE with the cycle still
   * open, k bytes counted and cmd_len 0x1005, and nothing has been written
   * outside the pool yet.
   */
  lemma {:induction false} OversizedPrefix(c: EngineState, cfg: Config, k: nat)
    requires Wf(c) && !c.rxStarted && c.session.mode == IdleMode && c.session.state == Idle
    requires 3 <= k <= PACKET_LENGTH
    ensures Feed(c, OVERSIZED[..k], cfg) == Overrunning(c, k)
    decreases k
  {
    if k == 3 {
      OversizedHeader(c, cfg);
    } else {
      OversizedPrefix(c, cfg, k - 1);
      OversizedBytes();
      FeedSnoc(c, OVERSIZED, k, cfg);
      OversizedNext(c, k - 1, cfg);
    }
  }

  /**
   * As written: the 1041st byte of OVERSIZED is written past the end of the
   * receive pool, while the engine sits in IDLE.
   */
  lemma OversizedOverruns(c: EngineState, cfg: Config)
    requires Wf(c) && !c.rxStarted && !c.rxFault && c.session.mode == IdleMode && c.session.state == Idle
    ensures |OVERSIZED| == PACKET_LENGTH + 1
    ensures !Feed(c, OVERSIZED[..PACKET_LENGTH], cfg).rxFault
    ensures Feed(c, OVERSIZED, cfg).rxFault
    ensures Feed(c, OVERSIZED, cfg).session == c.session
  {
    OversizedBytes();
    OversizedPrefix(c, cfg, PACKET_LENGTH);
    FeedSnoc(c, OVERSIZED, PACKET_LENGTH + 1, cfg);
    assert OVERSIZED[..PACKET_LENGTH + 1] == OVERSIZED;
    OverrunStep(c, cfg);
  }

  /** As written: the byte after a full pool, in IDLE with cmd_len 0x1005, lands outside the pool. */
  lemma OverrunStep(c: EngineState, cfg: Config)
    requires Wf(c) && c.session.mode == IdleMode && c.session.state == Idle
    ensures var r := RxReady(Overrunning(c, PACKET_LENGTH), 0, cfg);
      r.rxFault && r.session == c.session
  {
    var c1 := RxStore(RxStart(Overrunning(c, PACKET_LENGTH)), 0);
    assert c1.rxFault && c1.cmdLen == OVERSIZED_LEN && c1.rx.length == PACKET_LENGTH + 1;
  }

  // ---------------------------------------------------------------------
  // The corrected receiver

  /**
   * on_uart_rx_ready as evidently intended: the length field is taken at
   * full width (no 16-bit wrap of cmd_len), and a frame that does not fit
   * the pool ends the cycle together with its receive-error.
   */
  function RxReadyChecked(c: EngineState, b: byte, cfg: Config): (r: EngineState)
    requires Wf(c)
    ensures Wf(r)
  {
    if !RxGate(c.session) then c
    else
      var c1 := RxStore(RxStart(c), b);
      if c1.cmdLen != 0 then
        if c1.rx.length < c1.cmdLen then c1 else RxFinish(c1, cfg)
      else
        var c2 := if c1.rx.length == 1 then Sig(c1, ReceiveStart) else c1;
        if c1.rx.length != SIZE_START + SIZE_LEN then c2
        else if FrameLen(c1.rxPool) > PACKET_LENGTH then Sig(c2, ReceiveError).(rxStarted := false)
        else c2.(cmdLen := FrameLen(c1.rxPool))
  }

  /** A byte stream delivered to the corrected receiver. */
  function FeedChecked(c: EngineState, bytes: seq<byte>, cfg: Config): (r: EngineState)
    requires Wf(c)
    ensures Wf(r)
    decreases |bytes|
  {
    if |bytes| == 0 then c
    else RxReadyChecked(FeedChecked(c, bytes[..|bytes| - 1], cfg), bytes[|bytes| - 1], cfg)
  }

  /**
   * The receive invariant: during a cycle the buffer has its pool, and the
   * filled length stays below the header size while the total is unknown,
   * and below a total that fits the pool once it is known.
   */
  predicate RxSafe(c: EngineState)
  {
    && Wf(c)
    && (c.rxStarted ==>
          && c.rx.attached
          && (c.cmdLen == 0 ==> c.rx.length < SIZE_START + SIZE_LEN)
          && (c.cmdLen != 0 ==> c.rx.length < c.cmdLen <= PACKET_LENGTH))
  }

  /** Each byte the corrected receiver takes keeps the invariant and is stored inside the pool. */
  lemma CheckedStep(c: EngineState, b: byte, cfg: Config)
    requires RxSafe(c)
    ensures RxSafe(RxReadyChecked(c, b, cfg))
    ensures RxReadyChecked(c, b, cfg).rxFault == c.rxFault
  {
  }

  /** Whatever bytes arrive, the corrected receiver never writes outside the receive pool. */
  lemma {:induction false} CheckedNeverOverruns(c: EngineState, bytes: seq<byte>, cfg: Config)
    requires RxSafe(c)
    ensures RxSafe(FeedChecked(c, bytes, cfg))
    ensures FeedChecked(c, bytes, cfg).rxFault == c.rxFault
    decreases |bytes|
  {
    if |bytes| > 0 {
      CheckedNeverOverruns(c, bytes[..|bytes| - 1], cfg);
      CheckedStep(FeedChecked(c, bytes[..|bytes| - 1], cfg), bytes[|bytes| - 1], cfg);
    }
  }

  /** Feeding one byte more to the corrected receiver. */
  lemma FeedCheckedSnoc(c: EngineState, bytes: seq<byte>, k: nat, cfg: Config)
    requires Wf(c) && 0 < k <= |bytes|
    ensures FeedChecked(c, bytes[..k], cfg) == RxReadyChecked(FeedChecked(c, bytes[..k - 1], cfg), bytes[k - 1], cfg)
  {
    assert bytes[..k][..k - 1] == bytes[..k - 1];
  }

  /** The corrected receiver, like the original, opens a cycle with its first byte. */
  lemma CheckedFirst(c: EngineState, b: byte, cfg: Config)
    requires Wf(c) && !c.rxStarted && c.session.mode == IdleMode && c.session.state == Idle
    ensures RxReadyChecked(c, b, cfg) ==
      c.(session := c.session.(mode := SlaveMode, state := ReqReceiving), rxStarted := true,
         rx := Buf(true, 1, 0), rxPool := Zeros(PACKET_LENGTH)[0 := b], cmdLen := 0)
  {
  }

  /** The second byte is only stored. */
  lemma CheckedSecond(p: EngineState, b: byte, cfg: Config)
    requires Wf(p) && p.rxStarted && RxGate(p.session) && p.rx.attached && p.rx.length == 1 && p.cmdLen == 0
    ensures RxReadyChecked(p, b, cfg) == Stored(p, b)
  {
  }

  /** The corrected receiver, like the original, opens a cycle with the first two bytes of OVERSIZED. */
  lemma CheckedOpens(c: EngineState, cfg: Config)
    requires Wf(c) && !c.rxStarted && c.session.mode == IdleMode && c.session.state == Idle
    ensures FeedChecked(c, OVERSIZED[..2], cfg) == Opened(c)
  {
    OversizedBytes();
    FeedCheckedSnoc(c, OVERSIZED, 2, cfg);
    FeedCheckedSnoc(c, OVERSIZED, 1, cfg);
    assert OVERSIZED[..0] == [];
    CheckedFirst(c, START_REQ, cfg);
    CheckedSecond(FeedChecked(c, OVERSIZED[..1], cfg), 0x00, cfg);
  }

  /** A third byte that makes the frame too large for the pool ends the cycle with receive-error. */
  lemma CheckedOversize(p: EngineState, b: byte, cfg: Config)
    requires Wf(p) && p.rxStarted && RxGate(p.session) && p.rx.attached && p.rx.length == 2 && p.cmdLen == 0
    requires FrameLen(p.rxPool[2 := b]) > PACKET_LENGTH
    ensures RxReadyChecked(p, b, cfg) == Sig(Stored(p, b), ReceiveError).(rxStarted := false)
  {
    var c1 := RxStore(RxStart(p), b);
    assert c1 == Stored(p, b);
  }

  /** The corrected receiver closes the cycle of OVERSIZED at its third byte, back in IDLE. */
  lemma CheckedRejectsOversized(c: EngineState, cfg: Config)
    requires Wf(c) && !c.rxStarted && c.session.mode == IdleMode && c.session.state == Idle
    ensures var r := FeedChecked(c, OVERSIZED[..3], cfg);
      !r.rxStarted && r.session == c.session && r.rxFault == c.rxFault
  {
    OversizedBytes();
    CheckedOpens(c, cfg);
    FeedCheckedSnoc(c, OVERSIZED, 3, cfg);
    OpenedCheckedOversize(c, cfg);
  }

  /** The corrected receiver: the length byte 0x10 closes an opened cycle. */
  lemma OpenedCheckedOversize(c: EngineState, cfg: Config)
    requires Wf(c) && !c.rxStarted && c.session.mode == IdleMode && c.session.state == Idle
    ensures var r := RxReadyChecked(Opened(c), 0x10, cfg);
      !r.rxStarted && r.session == c.session && r.rxFault == c.rxFault
  {
    OversizedLength();
    var p := Opened(c);
    CheckedOversize(p, 0x10, cfg);
    assert OnSignal(p.session, ReceiveError) == c.session;
  }

  // ---------------------------------------------------------------------
  // Re-initialisation during a cycle

  /**
   * As written: app_cmd_init detaches the receive buffer but cannot clear
   * on_uart_rx_ready's `rx_started`, so when it runs in the middle of a
   * cycle the next byte is written through the detached buffer.
   */
  lemma ReinitFault(c: EngineState, b: byte, cfg: Config)
    requires c.rxStarted
    ensures RxReady(Init(c), b, cfg).rxFault
  {
  }

  /** app_cmd_init as evidently intended: it also ends any open receive cycle. */
  function InitChecked(c: EngineState): (r: EngineState)
    ensures RxSafe(r) && Coherent(r.session)
    ensures r == Init(c).(rxStarted := false)
  {
    Init(c).(rxStarted := false)
  }

  /** After the corrected initialisation, no byte stream makes the corrected receiver write outside the pool. */
  lemma ReinitCheckedSafe(c: EngineState, bytes: seq<byte>, cfg: Config)
    ensures FeedChecked(InitChecked(c), bytes, cfg).rxFault == c.rxFault
  {
    CheckedNeverOverruns(InitChecked(c), bytes, cfg);
  }
}
