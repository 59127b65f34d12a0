/** The mutex-guarded SPI controller (src/mipi_spi_ctr.c with the
    transaction macros of include/mipi_dbi_spi.h): every transaction takes
    the connector mutex and selects the chip, and failures are OR-ed into the
    controller's `errno`. The hardware is observed through the bus trace. */
module MipiSpiCtr {
  import opened Common
  import opened SpiBus

  /** Line levels before the connector is initialised: GPIO outputs low,
      mutex free. */
  const PowerOn: Lines := Lines(false, false, false)

  /** The bytes a write with `len` bytes from `params` sends; an absent
      buffer sends none. */
  function Payload(params: Option<seq<bv8>>, len: nat): (p: seq<bv8>)
    requires params.Some? ==> len <= |params.value|
    ensures params.Some? ==> p == params.value[..len]
    ensures params.None? ==> p == []
  {
    if params.None? then [] else params.value[..len]
  }

  /** Whether `mipi_spi_send_cmd` as written goes on to the bus: its NULL
      check ignores `len`. */
  predicate SendsAsWritten(params: Option<seq<bv8>>, len: nat) {
    params.Some?
  }

  /** Whether the prototype's `nonnull_if_nonzero(3, 4)` contract and the
      register-write contract of `mipi_io_ctr` let a call through: the
      buffer may be NULL exactly when the length is 0. */
  predicate SendsPerContract(params: Option<seq<bv8>>, len: nat) {
    params.Some? || len == 0
  }

  /** A command without parameters, sent as the register-write contract
      asks (NULL, 0), is refused by the code as written and accepted by
      the contract; the two agree on every other call. */
  lemma ParamlessCommandRefused()
    ensures !SendsAsWritten(None, 0) && SendsPerContract(None, 0)
    ensures forall p: Option<seq<bv8>>, n: nat :: p.Some? || n > 0 ==>
      (SendsAsWritten(p, n) <==> SendsPerContract(p, n))
  {
  }

  /** A run of one event, as `After` and `DataWrites` read it. */
  lemma AfterOne(st: Lines, ev: BusEvent)
    ensures After(st, [ev]) == Effect(st, ev)
  {
    ConsFacts(false, st, ev, []);
    assert [ev] + [] == [ev];
  }

  class SpiCtr {
    const sck: nat
    const mosi: nat
    const miso: nat
    const cs: nat
    const dcx: nat
    /** Current levels of CS and D/CX and whether the mutex is held. */
    var lines: Lines
    /** Error codes of failed transactions, OR-ed together. */
    var errno: Errno
    /** Every bus event since construction, in order. */
    var trace: seq<BusEvent>

    /** The recorded levels are those the trace leaves behind. */
    predicate Valid()
      reads this
    {
      After(PowerOn, trace) == lines
    }

    /** `mipi_spi_ctr`: records the pin numbers unchanged; nothing is
        driven yet. */
    constructor (sck: nat, mosi: nat, miso: nat, cs: nat, dcx: nat)
      ensures this.sck == sck && this.mosi == mosi && this.miso == miso
      ensures this.cs == cs && this.dcx == dcx
      ensures errno == 0 && trace == [] && lines == PowerOn
      ensures Valid()
    {
      this.sck := sck;
      this.mosi := mosi;
      this.miso := miso;
      this.cs := cs;
      this.dcx := dcx;
      errno := 0;
      trace := [];
      lines := PowerOn;
    }

    /** Drives one bus event. */
    method Emit(ev: BusEvent)
      requires Valid()
      modifies this
      ensures Valid()
      ensures trace == old(trace) + [ev] && lines == Effect(old(lines), ev)
      ensures errno == old(errno)
    {
      AfterAppend(PowerOn, trace, [ev]);
      AfterOne(lines, ev);
      trace := trace + [ev];
      lines := Effect(lines, ev);
    }

    /** `mipi_dbi_spi_connector_init`: chip select and D/CX both driven
        high, so the connector is between transactions. */
    method Init()
      requires Valid()
      modifies this
      ensures Valid()
      ensures trace == old(trace) + [Pin(CS, true), Pin(DCX, true)]
      ensures lines == old(lines).(cs := true, dcx := true)
      ensures errno == old(errno)
      ensures !old(lines.locked) ==> Idle(lines)
    {
      Emit(Pin(CS, true));
      Emit(Pin(DCX, true));
    }

    /** Takes the mutex if it is free and `granted`, the outcome of the
        platform's lock call, says so; returns whether it is now held. */
    method LockTimeout(ms: nat, granted: bool) returns (ok: bool)
      requires Valid()
      modifies this
      ensures Valid()
      ensures ok == (granted && !old(lines.locked))
      ensures ok ==> trace == old(trace) + [Acquire] && lines == old(lines).(locked := true)
      ensures !ok ==> trace == old(trace) && lines == old(lines)
      ensures errno == old(errno)
    {
      ok := granted && !lines.locked;
      if ok {
        Emit(Acquire);
      }
    }

    /** Try-lock: the timed lock with no waiting. */
    method TryLock(free: bool) returns (ok: bool)
      requires Valid()
      modifies this
      ensures Valid()
      ensures ok == (free && !old(lines.locked))
      ensures ok ==> trace == old(trace) + [Acquire] && lines == old(lines).(locked := true)
      ensures !ok ==> trace == old(trace) && lines == old(lines)
      ensures errno == old(errno)
    {
      ok := LockTimeout(0, free);
    }

    /** Releases the mutex. */
    method Unlock()
      requires Valid()
      modifies this
      ensures Valid()
      ensures trace == old(trace) + [Release] && lines == old(lines).(locked := false)
      ensures errno == old(errno)
    {
      Emit(Release);
    }

    /** `mipi_spi_send_cmd`, the controller's `write_panel_reg`. An absent
        buffer is accepted only with length 0, as the prototype's
        `nonnull_if_nonzero` attribute and the register-write contract of
        `mipi_io_ctr` allow for commands without parameters; the code as
        written refuses it whatever `len` is (see `SendsAsWritten` and the
        findings). `lockOk` is the outcome of the timed lock in `_SPI_BEGIN_TX`; the
        source ignores it, here a failed lock aborts with EBUSY (see the
        findings). On success: the mutex, chip select, the opcode with D/CX
        low, the `len` parameter bytes with D/CX high, release. */
    method SendCmd(cmd: bv8, params: Option<seq<bv8>>, len: nat, lockOk: bool)
      requires Valid()
      requires params.Some? ==> len <= |params.value|
      modifies this
      ensures Valid()
      ensures !SendsPerContract(params, len) ==>
        errno == OrErrno(old(errno), EINVAL) && trace == old(trace) && lines == old(lines)
      ensures SendsPerContract(params, len) && !(lockOk && !old(lines.locked)) ==>
        errno == OrErrno(old(errno), EBUSY) && trace == old(trace) && lines == old(lines)
      ensures SendsPerContract(params, len) && lockOk && !old(lines.locked) ==>
        errno == old(errno) && trace == old(trace) + CtrCmdFrame(cmd, Payload(params, len)) &&
        lines == old(lines).(cs := true, dcx := true)
      ensures lines.locked == old(lines.locked)
    {
      if !SendsPerContract(params, len) {
        errno := OrErrno(errno, EINVAL);
        return;
      }
      var bytes := Payload(params, len);
      if !(lockOk && !lines.locked) {
        errno := OrErrno(errno, EBUSY);
        return;
      }
      ghost var t0 := trace;
      ghost var l0 := lines;
      Emit(Acquire);
      Emit(Pin(CS, false));
      Emit(Pin(DCX, false));
      Emit(Write([cmd]));
      Emit(Pin(DCX, true));
      Emit(Write(bytes));
      Emit(Release);
      Emit(Pin(CS, true));
      assert trace == t0 + CtrCmdFrame(cmd, bytes);
      assert lines == l0.(cs := true, dcx := true, locked := false);
    }

    /** `mipi_spi_recieve_params`: reading is not supported; sets ENOTSUP,
        touches no line and reports -1 as the read contract asks. */
    method RecvParams(cmd: bv8, len: nat) returns (r: int)
      requires Valid()
      modifies this
      ensures Valid()
      ensures r == -1
      ensures errno == OrErrno(old(errno), ENOTSUP) && trace == old(trace) && lines == old(lines)
    {
      errno := OrErrno(errno, ENOTSUP);
      r := -1;
    }

    /** `mipi_spi_flush_fmbf`: an absent buffer sets EINVAL with no bus
        activity; otherwise the mutex, chip select, the `len` pixel bytes
        with D/CX high, release. The destination bounds are not used. */
    method FlushFmbf(pixels: Option<seq<bv8>>, len: nat, lockOk: bool)
      requires Valid()
      requires pixels.Some? ==> len <= |pixels.value|
      modifies this
      ensures Valid()
      ensures pixels.None? ==>
        errno == OrErrno(old(errno), EINVAL) && trace == old(trace) && lines == old(lines)
      ensures pixels.Some? && !(lockOk && !old(lines.locked)) ==>
        errno == OrErrno(old(errno), EBUSY) && trace == old(trace) && lines == old(lines)
      ensures pixels.Some? && lockOk && !old(lines.locked) ==>
        errno == old(errno) && trace == old(trace) + CtrFlushFrame(pixels.value[..len]) &&
        lines == old(lines).(cs := true, dcx := true)
      ensures lines.locked == old(lines.locked)
    {
      if pixels.None? {
        errno := OrErrno(errno, EINVAL);
        return;
      }
      var bytes := pixels.value[..len];
      if !(lockOk && !lines.locked) {
        errno := OrErrno(errno, EBUSY);
        return;
      }
      ghost var t0 := trace;
      ghost var l0 := lines;
      Emit(Acquire);
      Emit(Pin(CS, false));
      Emit(Pin(DCX, true));
      Emit(Write(bytes));
      Emit(Release);
      Emit(Pin(CS, true));
      assert trace == t0 + CtrFlushFrame(bytes);
      assert lines == l0.(cs := true, dcx := true, locked := false);
    }
  }
}
