/** The interrupt-driven refresh: `queue_refresh` and the I2C interrupt
    handler that streams the framebuffer to the panel. One call of Step is
    one run of the handler, which the I2C peripheral raises after each start
    condition, byte or stop condition it has put on the bus. */
module Transfer {
  import opened Framebuffer

  /** 7-bit I2C address of the panel (ssd1306.h). */
  const PanelAddress: bv8 := 0x3C
  /** The address byte of a write: the address shifted left, R/W bit 0. */
  const AddressByte: bv8 := PanelAddress << 1
  /** Control byte with Co = 0 and D/C# = 1: every following byte is data. */
  const DataControl: bv8 := 0x40

  /** The handler's `i2c_irq_phase` 0..4; Idle is the value 5 it is left at
      when no further refresh is queued. */
  datatype Phase = SendAddress | SendControl | SendData | SendStop | Finish | Idle

  /** What a handler run, or a refresh request, puts on the bus. */
  datatype BusEvent = Start | Write(b: bv8) | Stop

  datatype Option<T> = None | Some(value: T)

  /** The transfer variables: phase, `i2c_data_count`, `i2c_refresh_queued`
      and `i2c_in_transfer`. */
  datatype Transfer = Transfer(phase: Phase, count: nat, queued: bool, inTransfer: bool)

  /** No transfer running and none queued. */
  const Quiet: Transfer := Transfer(Idle, 0, false, false)

  /** The invariant every operation keeps: the data index stays inside the
      buffer, a queued refresh belongs to a running transfer, and a
      transfer runs exactly while the phase is not Idle. */
  predicate TransferOk(t: Transfer) {
    && t.count <= Size
    && (t.phase == SendData ==> t.count < Size)
    && (t.queued ==> t.inTransfer)
    && t.inTransfer == (t.phase != Idle)
  }

  /** `queue_refresh`: marks a refresh as queued and, when no transfer is
      running, starts one at the address phase. */
  function Request(t: Transfer): (r: Transfer)
    requires TransferOk(t)
    ensures TransferOk(r) && r.queued && r.inTransfer
    ensures t.inTransfer ==> r == t.(queued := true)
    ensures !t.inTransfer ==> r.phase == SendAddress
  {
    if t.inTransfer then t.(queued := true)
    else Transfer(SendAddress, t.count, true, true)
  }

  /** Requesting twice is requesting once: refreshes coalesce. */
  lemma RequestIdempotent(t: Transfer)
    requires TransferOk(t)
    ensures Request(Request(t)) == Request(t)
  {
  }

  /** The start condition `queue_refresh` puts on the bus (SEN = 1), if any. */
  function RequestEvents(t: Transfer): seq<BusEvent> {
    if t.inTransfer then [] else [Start]
  }

  /** One run of the interrupt handler over screen s. */
  function Step(t: Transfer, s: Screen): (r: (Transfer, Option<BusEvent>))
    requires TransferOk(t)
    ensures TransferOk(r.0)
    ensures t.phase == Idle <==> r.0 == t
    ensures r.0.queued ==> t.queued
    ensures t.queued && !r.0.queued <==> t.phase == SendControl && t.queued
    ensures t.phase == Finish ==> (r.0.phase == SendAddress <==> t.queued)
    ensures t.phase == Finish ==> (r.0.inTransfer <==> t.queued)
  {
    match t.phase
    case SendAddress => (t.(phase := SendControl), Some(Write(AddressByte)))
    case SendControl => (t.(phase := SendData, count := 0, queued := false), Some(Write(DataControl)))
    case SendData =>
      var c := t.count + 1;
      (t.(count := c, phase := if c >= Size then SendStop else SendData), Some(Write(s[t.count])))
    case SendStop => (t.(phase := Finish), Some(Stop))
    case Finish =>
      if t.queued then (t.(phase := SendAddress), Some(Start))
      else (t.(phase := Idle, inTransfer := false), None)
    case Idle => (t, None)
  }

  function Emitted(e: Option<BusEvent>): seq<BusEvent> {
    if e.Some? then [e.value] else []
  }

  /** The transfer state after n consecutive handler runs over a screen
      that does not change meanwhile. */
  function After(t: Transfer, s: Screen, n: nat): (r: Transfer)
    requires TransferOk(t)
    ensures TransferOk(r)
    decreases n
  {
    if n == 0 then t else After(Step(t, s).0, s, n - 1)
  }

  /** The bus events of those n handler runs, in order. */
  function Trace(t: Transfer, s: Screen, n: nat): (es: seq<BusEvent>)
    requires TransferOk(t)
    ensures |es| <= n
    decreases n
  {
    if n == 0 then [] else Emitted(Step(t, s).1) + Trace(Step(t, s).0, s, n - 1)
  }

  /** Running a + b steps is running a steps and then b more. */
  lemma {:induction false} AfterAppend(t: Transfer, s: Screen, a: nat, b: nat)
    requires TransferOk(t)
    ensures After(t, s, a + b) == After(After(t, s, a), s, b)
    decreases a
  {
    if a > 0 {
      AfterAppend(Step(t, s).0, s, a - 1, b);
    }
  }

  lemma {:induction false} TraceAppend(t: Transfer, s: Screen, a: nat, b: nat)
    requires TransferOk(t)
    ensures Trace(t, s, a + b) == Trace(t, s, a) + Trace(After(t, s, a), s, b)
    decreases a
  {
    if a > 0 {
      var t1 := Step(t, s).0;
      TraceAppend(t1, s, a - 1, b);
      assert Trace(t, s, a + b) == Emitted(Step(t, s).1) + Trace(t1, s, (a - 1) + b);
    }
  }

  /** The data bytes of a screen, in buffer order. */
  function DataBytes(s: Screen): (es: seq<BusEvent>)
    ensures |es| == Size
    ensures forall i | 0 <= i < Size :: es[i] == Write(s[i])
  {
    seq(Size, i requires 0 <= i < Size => Write(s[i]))
  }

  /** The data phase from byte c on sends bytes c.. of the screen, one per
      step, and then moves to the stop phase. */
  lemma {:induction false} DataRun(t: Transfer, s: Screen)
    requires TransferOk(t) && t.phase == SendData
    ensures After(t, s, Size - t.count) == t.(phase := SendStop, count := Size)
    ensures Trace(t, s, Size - t.count) == DataBytes(s)[t.count..]
    decreases Size - t.count
  {
    var t1 := Step(t, s).0;
    if t.count + 1 < Size {
      DataRun(t1, s);
      assert DataBytes(s)[t.count..] == [Write(s[t.count])] + DataBytes(s)[t.count + 1..];
    } else {
      assert DataBytes(s)[t.count..] == [Write(s[t.count])];
    }
  }

  /** Handler runs from the address phase to the run that ends the transfer. */
  const FrameSteps: nat := Size + 4

  /** The bytes of one refresh after its start condition: the address byte,
      the data control byte, the 1024 screen bytes and the stop condition. */
  function Frame(s: Screen): (es: seq<BusEvent>)
    ensures |es| == Size + 3
    ensures es[0] == Write(AddressByte) && es[1] == Write(DataControl) && es[Size + 2] == Stop
    ensures forall i | 0 <= i < Size :: es[i + 2] == Write(s[i])
  {
    [Write(AddressByte), Write(DataControl)] + DataBytes(s) + [Stop]
  }

  /** The first two runs of a transfer send the address and control bytes
      and take the queued request, if any, as served. */
  lemma HeaderRun(t: Transfer, s: Screen)
    requires TransferOk(t) && t.phase == SendAddress
    ensures After(t, s, 2) == t.(phase := SendData, count := 0, queued := false)
    ensures Trace(t, s, 2) == [Write(AddressByte), Write(DataControl)]
  {
    var t1 := Step(t, s).0;
    assert Trace(t1, s, 1) == [Write(DataControl)];
  }

  /** The last two runs of a transfer with nothing queued send the stop
      condition and go quiet. */
  lemma TrailerRun(t: Transfer, s: Screen)
    requires TransferOk(t) && t.phase == SendStop && !t.queued
    ensures After(t, s, 2) == Transfer(Idle, t.count, false, false)
    ensures Trace(t, s, 2) == [Stop]
  {
    var t1 := Step(t, s).0;
    assert Trace(t1, s, 1) == [];
  }

  /** From the first data byte to the end of a transfer with nothing queued. */
  lemma BodyRun(t: Transfer, s: Screen)
    requires TransferOk(t) && t.phase == SendData && t.count == 0 && !t.queued
    ensures After(t, s, Size + 2) == Transfer(Idle, Size, false, false)
    ensures Trace(t, s, Size + 2) == DataBytes(s) + [Stop]
  {
    var t3 := t.(phase := SendStop, count := Size);
    DataRun(t, s);
    assert After(t, s, Size) == t3;
    assert Trace(t, s, Size) == DataBytes(s) by {
      assert DataBytes(s)[t.count..] == DataBytes(s);
    }
    TrailerRun(t3, s);
    AfterAppend(t, s, Size, 2);
    TraceAppend(t, s, Size, 2);
  }

  /** A transfer at the address phase, left to itself, sends exactly one
      frame of the screen and goes quiet. */
  lemma FrameRun(t: Transfer, s: Screen)
    requires TransferOk(t) && t.phase == SendAddress
    ensures After(t, s, FrameSteps) == Transfer(Idle, Size, false, false)
    ensures Trace(t, s, FrameSteps) == Frame(s)
  {
    FrameRunState(t, s);
    FrameRunTrace(t, s);
  }

  lemma FrameRunState(t: Transfer, s: Screen)
    requires TransferOk(t) && t.phase == SendAddress
    ensures After(t, s, FrameSteps) == Transfer(Idle, Size, false, false)
  {
    HeaderRun(t, s);
    BodyRun(t.(phase := SendData, count := 0, queued := false), s);
    AfterAppend(t, s, 2, Size + 2);
  }

  lemma FrameRunTrace(t: Transfer, s: Screen)
    requires TransferOk(t) && t.phase == SendAddress
    ensures Trace(t, s, FrameSteps) == Frame(s)
  {
    HeaderRun(t, s);
    BodyRun(t.(phase := SendData, count := 0, queued := false), s);
    TraceAppend(t, s, 2, Size + 2);
    FrameSplit(s);
  }

  /** A frame is its two header bytes followed by the body. */
  lemma FrameSplit(s: Screen)
    ensures Frame(s) == [Write(AddressByte), Write(DataControl)] + (DataBytes(s) + [Stop])
  {
  }

  /** A refresh requested while the bus is quiet produces one start
      condition followed by one frame of the screen, and then nothing. */
  lemma RefreshFromQuiet(t: Transfer, s: Screen)
    requires TransferOk(t) && !t.inTransfer
    ensures RequestEvents(t) + Trace(Request(t), s, FrameSteps) == [Start] + Frame(s)
    ensures After(Request(t), s, FrameSteps).phase == Idle
  {
    FrameRun(Request(t), s);
  }

  /* ---- Every transfer ends, and a queued refresh sends the whole screen ---- */

  /** Handler runs left until the bus goes quiet: the rest of the current
      transfer and, when a refresh is queued after the control byte, one
      more whole transfer. */
  function Left(t: Transfer): (n: nat)
    requires TransferOk(t)
    ensures n <= 2 * FrameSteps
    ensures n == 0 <==> t.phase == Idle
  {
    var extra := if t.queued then FrameSteps else 0;
    match t.phase
    case SendAddress => FrameSteps
    case SendControl => FrameSteps - 1
    case SendData => Size - t.count + 2 + extra
    case SendStop => 2 + extra
    case Finish => 1 + extra
    case Idle => 0
  }

  /** Each handler run of a running transfer brings the end one run nearer. */
  lemma StepLeft(t: Transfer, s: Screen)
    requires TransferOk(t) && t.phase != Idle
    ensures Left(Step(t, s).0) == Left(t) - 1
  {
  }

  /** Left to itself, the handler chain stops after Left(t) runs with nothing
      queued and no transfer running. */
  lemma {:induction false} Drains(t: Transfer, s: Screen)
    requires TransferOk(t)
    ensures After(t, s, Left(t)).phase == Idle
    ensures !After(t, s, Left(t)).queued && !After(t, s, Left(t)).inTransfer
    decreases Left(t)
  {
    if t.phase != Idle {
      StepLeft(t, s);
      Drains(Step(t, s).0, s);
    }
  }

  predicate EndsWith(es: seq<BusEvent>, f: seq<BusEvent>) {
    |f| <= |es| && es[|es| - |f|..] == f
  }

  /** What the panel receives of a served refresh: the data control byte,
      the whole screen and the stop condition. */
  function ServedFrame(s: Screen): (es: seq<BusEvent>)
    ensures es == Frame(s)[1..]
  {
    FrameTail(s);
    [Write(DataControl)] + DataBytes(s) + [Stop]
  }

  /** Dropping the address byte from a frame leaves the control byte, the
      data and the stop condition. */
  lemma FrameTail(s: Screen)
    ensures Frame(s)[1..] == [Write(DataControl)] + DataBytes(s) + [Stop]
  {
    var f, e := Frame(s), [Write(DataControl)] + DataBytes(s) + [Stop];
    forall i | 0 <= i < |e|
      ensures f[1..][i] == e[i]
    {
      if 1 <= i <= Size {
        assert f[(i - 1) + 2] == Write(s[i - 1]);
      }
    }
  }

  /** A queued refresh is never lost: whatever phase the transfer is in,
      the bus events until it goes quiet end with the data control byte and
      all 1024 bytes of the screen, all sent after the request. */
  lemma {:induction false} QueuedIsServed(t: Transfer, s: Screen)
    requires TransferOk(t) && t.queued
    ensures EndsWith(Trace(t, s, Left(t)), ServedFrame(s))
    decreases Left(t)
  {
    var t1 := Step(t, s).0;
    StepLeft(t, s);
    var rest := Trace(t1, s, Left(t1));
    assert Trace(t, s, Left(t)) == Emitted(Step(t, s).1) + rest;
    if t1.queued {
      QueuedIsServed(t1, s);
      EndsWithExtend(Emitted(Step(t, s).1), rest, ServedFrame(s));
    } else {
      assert t.phase == SendControl && Left(t1) == Size + 2;
      BodyRun(t1, s);
      assert Trace(t, s, Left(t)) == ServedFrame(s);
    }
  }

  lemma EndsWithExtend(a: seq<BusEvent>, es: seq<BusEvent>, f: seq<BusEvent>)
    requires EndsWith(es, f)
    ensures EndsWith(a + es, f)
  {
    assert (a + es)[|a + es| - |f|..] == es[|es| - |f|..];
  }
}
