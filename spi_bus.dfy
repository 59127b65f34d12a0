/** The signals of a MIPI DBI type C (4-line serial) link as the drivers
    drive them: the active-low chip select, the D/CX line (low for a command
    byte, high for parameters and pixel data), the connector mutex and the
    bytes clocked out. */
module SpiBus {
  import opened Common
  import Dcs

  /** The two GPIO lines the drivers set by hand. */
  datatype Line = CS | DCX

  /** One observable step of a transaction. */
  datatype BusEvent =
    | Acquire                       // connector mutex taken
    | Release                       // connector mutex released
    | Pin(line: Line, high: bool)   // a GPIO line driven
    | Write(bytes: seq<bv8>)        // a blocking SPI write

  /** Line levels and whether the connector holds its mutex. */
  datatype Lines = Lines(cs: bool, dcx: bool, locked: bool)

  /** Between transactions: chip select inactive (high), mutex free. */
  predicate Idle(st: Lines) {
    st.cs && !st.locked
  }

  function Effect(st: Lines, ev: BusEvent): Lines {
    match ev
    case Acquire => st.(locked := true)
    case Release => st.(locked := false)
    case Pin(CS, h) => st.(cs := h)
    case Pin(DCX, h) => st.(dcx := h)
    case Write(_) => st
  }

  /** The levels after a run of events. */
  function After(st: Lines, evs: seq<BusEvent>): Lines
    decreases |evs|
  {
    if evs == [] then st else After(Effect(st, evs[0]), evs[1..])
  }

  /** When an event may happen. The mutex is not recursive; a transaction
      starts only from an inactive chip select; bytes go out only while
      the chip is selected. With `guarded`, the connector must also hold
      the mutex to select the chip and to write. */
  predicate Allowed(guarded: bool, st: Lines, ev: BusEvent) {
    match ev
    case Acquire => !st.locked
    case Release => st.locked
    case Pin(CS, h) => h || (st.cs && (!guarded || st.locked))
    case Pin(DCX, _) => true
    case Write(_) => !st.cs && (!guarded || st.locked)
  }

  predicate Legal(guarded: bool, st: Lines, evs: seq<BusEvent>)
    decreases |evs|
  {
    evs == [] || (Allowed(guarded, st, evs[0]) && Legal(guarded, Effect(st, evs[0]), evs[1..]))
  }

  /** Each write with the D/CX level it went out under: `false` marks
      command bytes, `true` parameter or pixel bytes. */
  function DataWrites(st: Lines, evs: seq<BusEvent>): seq<(bool, seq<bv8>)>
    decreases |evs|
  {
    if evs == [] then []
    else
      (if evs[0].Write? then [(st.dcx, evs[0].bytes)] else []) +
      DataWrites(Effect(st, evs[0]), evs[1..])
  }

  lemma {:induction false} AfterAppend(st: Lines, a: seq<BusEvent>, b: seq<BusEvent>)
    ensures After(st, a + b) == After(After(st, a), b)
    decreases |a|
  {
    if a != [] {
      assert (a + b)[0] == a[0] && (a + b)[1..] == a[1..] + b;
      AfterAppend(Effect(st, a[0]), a[1..], b);
    } else {
      assert a + b == b;
    }
  }

  /** A run is legal exactly when its first part is, and the second part is
      legal from where the first leaves the lines. */
  lemma {:induction false} LegalAppend(g: bool, st: Lines, a: seq<BusEvent>, b: seq<BusEvent>)
    ensures Legal(g, st, a + b) <==> Legal(g, st, a) && Legal(g, After(st, a), b)
    decreases |a|
  {
    if a != [] {
      assert (a + b)[0] == a[0] && (a + b)[1..] == a[1..] + b;
      LegalAppend(g, Effect(st, a[0]), a[1..], b);
    } else {
      assert a + b == b;
    }
  }

  lemma {:induction false} DataWritesAppend(st: Lines, a: seq<BusEvent>, b: seq<BusEvent>)
    ensures DataWrites(st, a + b) == DataWrites(st, a) + DataWrites(After(st, a), b)
    decreases |a|
  {
    if a != [] {
      assert (a + b)[0] == a[0] && (a + b)[1..] == a[1..] + b;
      DataWritesAppend(Effect(st, a[0]), a[1..], b);
    } else {
      assert a + b == b;
    }
  }

  /** The three views of a run that starts with a given event. */
  lemma ConsFacts(g: bool, st: Lines, ev: BusEvent, rest: seq<BusEvent>)
    ensures Legal(g, st, [ev] + rest) == (Allowed(g, st, ev) && Legal(g, Effect(st, ev), rest))
    ensures After(st, [ev] + rest) == After(Effect(st, ev), rest)
    ensures DataWrites(st, [ev] + rest) ==
      (if ev.Write? then [(st.dcx, ev.bytes)] else []) + DataWrites(Effect(st, ev), rest)
  {
    assert ([ev] + rest)[0] == ev && ([ev] + rest)[1..] == rest;
  }

  /** `_SPI_BEGIN_TX`: take the mutex, then select the chip. */
  const BeginTx: seq<BusEvent> := [Acquire, Pin(CS, false)]

  /** `_SPI_END_TX`: release the mutex, then deselect the chip. */
  const EndTx: seq<BusEvent> := [Release, Pin(CS, true)]

  /** A register write: the opcode byte with D/CX low, then the parameter
      bytes with D/CX high. */
  function CmdBody(cmd: bv8, params: seq<bv8>): seq<BusEvent> {
    [Pin(DCX, false), Write([cmd]), Pin(DCX, true), Write(params)]
  }

  /** The controller's register write (src/mipi_spi_ctr.c). */
  function CtrCmdFrame(cmd: bv8, params: seq<bv8>): seq<BusEvent> {
    BeginTx + CmdBody(cmd, params) + EndTx
  }

  /** The controller's frame-buffer flush: pixel bytes with D/CX high only. */
  function CtrFlushFrame(pixels: seq<bv8>): seq<BusEvent> {
    BeginTx + [Pin(DCX, true), Write(pixels)] + EndTx
  }

  /** The unguarded connector's register write (src/mipi_spi_connector.c). */
  function ConnCmdFrame(cmd: bv8, params: seq<bv8>): seq<BusEvent> {
    [Pin(CS, false)] + CmdBody(cmd, params) + [Pin(CS, true)]
  }

  /** The unguarded connector's flush: a RAMWR command byte, then the pixels. */
  function ConnFlushFrame(pixels: seq<bv8>): seq<BusEvent> {
    [Pin(CS, false), Pin(DCX, false), Write([Dcs.RAMWR]), Pin(DCX, true), Write(pixels), Pin(CS, true)]
  }

  /** The register-write body from any state: legal once the chip is
      selected, D/CX left high, chip select and mutex untouched. */
  lemma CmdBodyFacts(g: bool, st: Lines, cmd: bv8, params: seq<bv8>)
    requires !st.cs && (!g || st.locked)
    ensures Legal(g, st, CmdBody(cmd, params))
    ensures After(st, CmdBody(cmd, params)) == st.(dcx := true)
    ensures DataWrites(st, CmdBody(cmd, params)) == [(false, [cmd]), (true, params)]
  {
    var w4: seq<BusEvent> := [Write(params)] + [];
    var w3 := [Pin(DCX, true)] + w4;
    var w2 := [Write([cmd])] + w3;
    assert CmdBody(cmd, params) == [Pin(DCX, false)] + w2;
    var s1 := st.(dcx := false);
    var s3 := st.(dcx := true);
    ConsFacts(g, s3, Write(params), []);
    ConsFacts(g, s1, Pin(DCX, true), w4);
    ConsFacts(g, s1, Write([cmd]), w3);
    ConsFacts(g, st, Pin(DCX, false), w2);
  }

  /** Taking the mutex and selecting the chip from between transactions;
      releasing both from inside one. */
  lemma BeginEndFacts(st: Lines, mid: Lines)
    requires Idle(st) && !mid.cs && mid.locked
    ensures Legal(true, st, BeginTx) && After(st, BeginTx) == Lines(false, st.dcx, true)
    ensures DataWrites(st, BeginTx) == []
    ensures Legal(true, mid, EndTx) && After(mid, EndTx) == Lines(true, mid.dcx, false)
    ensures DataWrites(mid, EndTx) == []
  {
    assert BeginTx == [Acquire] + ([Pin(CS, false)] + []);
    ConsFacts(true, st.(locked := true), Pin(CS, false), []);
    ConsFacts(true, st, Acquire, [Pin(CS, false)] + []);
    assert EndTx == [Release] + ([Pin(CS, true)] + []);
    ConsFacts(true, mid.(locked := false), Pin(CS, true), []);
    ConsFacts(true, mid, Release, [Pin(CS, true)] + []);
  }

  /** A register write through the controller, started between
      transactions, is legal, selects the chip only while holding the mutex,
      and ends between transactions with D/CX high; the opcode is the only
      byte sent with D/CX low. */
  lemma CtrCmdFrameFacts(st: Lines, cmd: bv8, params: seq<bv8>)
    requires Idle(st)
    ensures Legal(true, st, CtrCmdFrame(cmd, params))
    ensures After(st, CtrCmdFrame(cmd, params)) == Lines(true, true, false)
    ensures DataWrites(st, CtrCmdFrame(cmd, params)) == [(false, [cmd]), (true, params)]
  {
    var sel := Lines(false, st.dcx, true);
    var body := CmdBody(cmd, params);
    CmdBodyFacts(true, sel, cmd, params);
    BeginEndFacts(st, sel.(dcx := true));
    LegalAppend(true, st, BeginTx, body);
    AfterAppend(st, BeginTx, body);
    DataWritesAppend(st, BeginTx, body);
    LegalAppend(true, st, BeginTx + body, EndTx);
    AfterAppend(st, BeginTx + body, EndTx);
    DataWritesAppend(st, BeginTx + body, EndTx);
  }

  /** A flush through the controller: legal from between transactions, back
      between transactions after, and every pixel byte sent with D/CX high. */
  lemma CtrFlushFrameFacts(st: Lines, pixels: seq<bv8>)
    requires Idle(st)
    ensures Legal(true, st, CtrFlushFrame(pixels))
    ensures After(st, CtrFlushFrame(pixels)) == Lines(true, true, false)
    ensures DataWrites(st, CtrFlushFrame(pixels)) == [(true, pixels)]
  {
    var sel := Lines(false, st.dcx, true);
    var body: seq<BusEvent> := [Pin(DCX, true), Write(pixels)];
    var mid := sel.(dcx := true);
    BeginEndFacts(st, mid);
    assert body == [Pin(DCX, true)] + ([Write(pixels)] + []);
    ConsFacts(true, mid, Write(pixels), []);
    ConsFacts(true, sel, Pin(DCX, true), [Write(pixels)] + []);
    LegalAppend(true, st, BeginTx, body);
    AfterAppend(st, BeginTx, body);
    DataWritesAppend(st, BeginTx, body);
    LegalAppend(true, st, BeginTx + body, EndTx);
    AfterAppend(st, BeginTx + body, EndTx);
    DataWritesAppend(st, BeginTx + body, EndTx);
  }

  /** The connector's register write, without a mutex: the chip is selected
      for the whole frame and released after it. */
  lemma ConnCmdFrameFacts(st: Lines, cmd: bv8, params: seq<bv8>)
    requires st.cs
    ensures Legal(false, st, ConnCmdFrame(cmd, params))
    ensures After(st, ConnCmdFrame(cmd, params)) == st.(dcx := true)
    ensures DataWrites(st, ConnCmdFrame(cmd, params)) == [(false, [cmd]), (true, params)]
  {
    var sel := st.(cs := false);
    var body := CmdBody(cmd, params);
    var mid := sel.(dcx := true);
    var open: seq<BusEvent> := [Pin(CS, false)];
    var close: seq<BusEvent> := [Pin(CS, true)];
    assert open == [Pin(CS, false)] + [] && close == [Pin(CS, true)] + [];
    ConsFacts(false, st, Pin(CS, false), []);
    CmdBodyFacts(false, sel, cmd, params);
    ConsFacts(false, mid, Pin(CS, true), []);
    LegalAppend(false, st, open, body);
    AfterAppend(st, open, body);
    DataWritesAppend(st, open, body);
    LegalAppend(false, st, open + body, close);
    AfterAppend(st, open + body, close);
    DataWritesAppend(st, open + body, close);
  }

  /** The connector's flush is its register write of RAMWR with the pixels
      as parameters. */
  lemma ConnFlushIsRamwr(pixels: seq<bv8>)
    ensures ConnFlushFrame(pixels) == ConnCmdFrame(Dcs.RAMWR, pixels)
  {
  }

  /** The controller frame as written when the mutex is not obtained: the
      lock result is ignored, so the frame goes out without the `Acquire` event
      and ends by releasing a mutex it does not hold. */
  function CtrCmdFrameUnlocked(cmd: bv8, params: seq<bv8>): seq<BusEvent> {
    [Pin(CS, false)] + CmdBody(cmd, params) + EndTx
  }

  /** That frame is never legal between transactions: it selects the chip
      without the mutex. */
  lemma UnlockedFrameIllegal(st: Lines, cmd: bv8, params: seq<bv8>)
    requires Idle(st)
    ensures !Legal(true, st, CtrCmdFrameUnlocked(cmd, params))
  {
    assert CtrCmdFrameUnlocked(cmd, params)[0] == Pin(CS, false);
  }
}
