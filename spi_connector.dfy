/** The unguarded SPI panel connector (src/mipi_spi_connector.c): the same
    4-line framing as the controller, bracketed by chip select alone, and a
    flush that issues RAMWR itself. */
module MipiSpiConnector {
  import opened Common
  import opened SpiBus
  import Dcs

  const DEFAULT_MOSI_PIN: nat := 19
  const DEFAULT_MISO_PIN: nat := 16
  const DEFAULT_SCK_PIN: nat := 18
  const DEFAULT_CS_PIN: nat := 17
  const DEFAULT_DCX_PIN: nat := 20

  const PowerOn: Lines := Lines(false, false, false)

  class SpiConnector {
    const sck: nat
    const mosi: nat
    const miso: nat
    const cs: nat
    const dcx: nat
    var lines: Lines
    var errno: Errno
    var trace: seq<BusEvent>

    predicate Valid()
      reads this
    {
      After(PowerOn, trace) == lines && !lines.locked
    }

    /** `MIPI_DBI_SPI_DEFAULT_CONFIG`: the default pin assignment. */
    constructor ()
      ensures sck == DEFAULT_SCK_PIN && mosi == DEFAULT_MOSI_PIN && miso == DEFAULT_MISO_PIN
      ensures cs == DEFAULT_CS_PIN && dcx == DEFAULT_DCX_PIN
      ensures errno == 0 && trace == [] && lines == PowerOn
      ensures Valid()
    {
      sck := DEFAULT_SCK_PIN;
      mosi := DEFAULT_MOSI_PIN;
      miso := DEFAULT_MISO_PIN;
      cs := DEFAULT_CS_PIN;
      dcx := DEFAULT_DCX_PIN;
      errno := 0;
      trace := [];
      lines := PowerOn;
    }

    /** Drives one line or writes bytes; this connector has no mutex. */
    method Emit(ev: BusEvent)
      requires Valid() && !ev.Acquire?
      modifies this
      ensures Valid()
      ensures trace == old(trace) + [ev] && lines == Effect(old(lines), ev)
      ensures errno == old(errno)
    {
      AfterAppend(PowerOn, trace, [ev]);
      ConsFacts(false, lines, ev, []);
      assert [ev] + [] == [ev];
      trace := trace + [ev];
      lines := Effect(lines, ev);
    }

    /** `mipi_dbi_spi_connector_init`: chip select and D/CX driven high. */
    method Init()
      requires Valid()
      modifies this
      ensures Valid()
      ensures trace == old(trace) + [Pin(CS, true), Pin(DCX, true)]
      ensures lines == Lines(true, true, false) && Idle(lines)
      ensures errno == old(errno)
    {
      Emit(Pin(CS, true));
      Emit(Pin(DCX, true));
    }

    /** `mipi_spi_send_cmd`: an absent parameter buffer sets EINVAL and
        leaves the bus alone; otherwise chip select, the opcode with D/CX
        low, `len` parameter bytes with D/CX high, deselect. */
    method SendCmd(cmd: bv8, params: Option<seq<bv8>>, len: nat)
      requires Valid()
      requires params.Some? ==> len <= |params.value|
      modifies this
      ensures Valid()
      ensures params.None? ==>
        errno == OrErrno(old(errno), EINVAL) && trace == old(trace) && lines == old(lines)
      ensures params.Some? ==>
        errno == old(errno) && trace == old(trace) + ConnCmdFrame(cmd, params.value[..len])
      ensures params.Some? ==> lines.cs && lines.dcx
      ensures old(lines.cs) ==> lines.cs
    {
      if params.None? {
        errno := OrErrno(errno, EINVAL);
        return;
      }
      ghost var t0 := trace;
      ghost var l0 := lines;
      Emit(Pin(CS, false));
      Emit(Pin(DCX, false));
      Emit(Write([cmd]));
      Emit(Pin(DCX, true));
      Emit(Write(params.value[..len]));
      Emit(Pin(CS, true));
      assert trace == t0 + ConnCmdFrame(cmd, params.value[..len]);
    }

    /** `mipi_spi_flush_fmbf`: an absent buffer sets EINVAL and leaves the
        bus alone; otherwise RAMWR with D/CX low, then `len` pixel bytes with
        D/CX high, inside one chip-select bracket. */
    method FlushFmbf(pixels: Option<seq<bv8>>, len: nat)
      requires Valid()
      requires pixels.Some? ==> len <= |pixels.value|
      modifies this
      ensures Valid()
      ensures pixels.None? ==>
        errno == OrErrno(old(errno), EINVAL) && trace == old(trace) && lines == old(lines)
      ensures pixels.Some? ==>
        errno == old(errno) && trace == old(trace) + ConnFlushFrame(pixels.value[..len])
      ensures pixels.Some? ==> lines.cs && lines.dcx
      ensures old(lines.cs) ==> lines.cs
    {
      if pixels.None? {
        errno := OrErrno(errno, EINVAL);
        return;
      }
      ghost var t0 := trace;
      Emit(Pin(CS, false));
      Emit(Pin(DCX, false));
      Emit(Write([Dcs.RAMWR]));
      Emit(Pin(DCX, true));
      Emit(Write(pixels.value[..len]));
      Emit(Pin(CS, true));
      assert trace == t0 + ConnFlushFrame(pixels.value[..len]);
    }
  }
}
