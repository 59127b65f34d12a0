# pico_mipi_dbi in Dafny

A model of the core of `pico_mipi_dbi`, a driver for MIPI DBI display panels
on the Raspberry Pi Pico, and of the graphics layer above it. It covers:

- **Panel init sequences.** A `u8` table of `[opcode][count][params…][delay?]`
  entries ends at the `NOP` opcode. The walk decodes entries (`Dcs`). The
  ST7735 table is proved well formed byte by byte (`St7735`). The writer sends
  one register write per entry through the controller (`DcsWriter`).
- **Pixel formats.** The RGB565 packing of `_ifpf_cvt_rgb565` and the
  `MIPI_PANEL_FMT` table (`PixelCodec`).
- **Error reporting.** The `MIPI_ERR_*` flags, their OR-accumulation and
  `_MIPI_ERR_STRING` (`MipiErrors`), plus the POSIX `errno` fields of
  connectors and devices (`Common`).
- **The SPI link** (MIPI DBI type C, 4-line). A bus trace of mutex, chip
  select, D/CX and byte writes, with a legality predicate (`SpiBus`). The
  mutex-guarded controller (`MipiSpiCtr.SpiCtr`) and the unguarded connector
  (`MipiSpiConnector.SpiConnector`) are classes that append to that trace.
- **Device bring-up.** `mipi_dbi_dev_create`, `mipi_dbi_dev_init` and the
  output format switch (`MipiDbi`).
- **The event tick loop**, as a sequential abstraction (`MglTick.TickLoop`).
  It covers one loop iteration, callback registration, suspend, start and
  reset. The clock reading, allocation and lock outcomes are inputs.
- **The z-ordered graphics object table** (`GfxTable.GfxCtx`). It covers push,
  pop, exchange, clear, destroy, the per-object locks and the frame-buffer
  lock, taken from the declarations and their documentation.
- **Byte buffers and views** (`ByteBuffers`), over a flat memory `seq<bv8>`.

Two facts about the init-sequence format:

- **Delay byte.** A delay byte is a literal number of milliseconds. No code
  clamps 255, and `MIPI_MAX_TM` (include/mipi.h:46, 500 ms) serves only as
  a mutex timeout, never as a delay (`Dcs.CallsOfEntry`).
- **No leading count byte.** The sequence has no count byte in front of
  its entries: the ST7735 table starts with its first opcode.

Where the code evidently does not do what it was written to do, the model
keeps both versions: the code as written and the intended behaviour.
"## Findings" lists each such place.

## Model

| member | source | states |
|---|---|---|
| MipiErrors.CodesAreDistinctBits | include/mipi.h:54-59 | the six error codes are single bits and pairwise disjoint |
| MipiErrors.Accumulate | include/mipi_dcs.h:137 | OR-accumulating a flag keeps every bit already set and sets the new flag |
| MipiErrors.ErrString | src/runtime.c:4-11 | a message exists exactly for INV, NO_MEM, IO, INTERRUPT and RES_LOCKED; the table is keyed by flag value, so OP_NOT_IMPL and every non-flag code have none |
| MipiErrors.CheckFlags | include/mipi.h:115-124 | the check macro exits exactly when the accumulated code is non-zero |
| MipiErrors.CombinedFlagsHaveNoMessage | include/mipi.h:117-120 | two different flags accumulated together exit with no message, because the lookup uses the whole code |
| Common.OrErrno | include/mipi_dbi_spi.h:83-88 | recording an error in a connector's `errno` never clears an earlier bit and always sets the new one |
| Common.OrErrnoTwice | include/mipi_dbi_spi.h:83-88 | recording the same error twice is the same as recording it once |
| PixelCodec.XorIsOr | include/mipi.h:462-463 | in both RGB565 bytes the XOR-ed operands occupy disjoint bits, so XOR equals OR |
| PixelCodec.UnpackPack | include/mipi.h:462-463 | unpacking the two bytes gives back `r>>3`, `g>>2`, `b>>3` |
| PixelCodec.PackEqualIff | include/mipi.h:462-463 | two colours pack to the same bytes if and only if they agree on the top 5/6/5 bits |
| PixelCodec.PackAllAt | include/mipi.h:460-464 | colour `i` occupies bytes `2i` and `2i+1`, and the output has two bytes per colour |
| PixelCodec.PackAllLength | include/mipi.h:456-459 | the packed buffer holds `N * bytes_per_px` = `2N` bytes |
| PixelCodec.UnpackAllPackAll | include/mipi.h:460-464 | unpacking a packed buffer gives every colour, in order, truncated to 5-6-5 |
| PixelCodec.ConvertRgb565 | include/mipi.h:449-466 | a new zero-initialised buffer of `2N` bytes holds the packed colours, and the returned count is its length |
| PixelCodec.AsWrittenOverlaps | include/mipi.h:460-464 | with the loop's `[i]`/`[i+1]` indexing, a white then a black pixel come out as `FF 00 00 00`, not `FF FF 00 00` |
| PixelCodec.AsWrittenByteCountWrong | include/mipi.h:465 | returning `sizeof` a pointer (4) is wrong for every colour count other than 2 |
| PixelCodec.PanelFormat | src/mipi_dbi.c:9-28 | only RGB_565 and RGB_888 have entries, and each entry is for the format asked for |
| PixelCodec.PassThroughAt | src/mipi_dbi.c:17-27 | with no converter, colour `i` goes out unchanged as bytes `3i..3i+2` (r, g, b) |
| PixelCodec.EncodePixelsLength | src/mipi_dbi.c:9-28 | every table entry yields exactly `bytes_per_px` bytes per colour (2 for RGB_565, 3 for RGB_888) |
| Dcs.ParamCount | include/mipi_dcs.h:95 | the parameter count is below 128: the delay flag is not part of it |
| Dcs.CountBits | include/mipi_dcs.h:95 | the count is the low seven bits of the count byte, and the delay flag is bit 0x80 |
| Dcs.CountByte | include/mipi_dcs.h:95 | an entry's count byte carries its parameter count, and the flag is set exactly when the entry has a delay |
| Dcs.Encode | include/mipi_dcs.h:96 | an encoded sequence always ends with the `END_DCS_SEQ` sentinel |
| Dcs.EntryAt | include/mipi_dcs.h:147-157 | a decoded entry moves the cursor forward by at least opcode and count, and never past the end of the table |
| Dcs.WalkEncode | include/mipi_dcs.h:141-159 | walking an encoded sequence from any offset gives back exactly its entries and stops on its sentinel |
| Dcs.EntryAtEncodes | include/mipi_dcs.h:147-157 | an entry decoded at an opcode position is well formed, and encoding it gives back exactly the bytes it was decoded from |
| Dcs.WalkIsEncoding | include/mipi_dcs.h:141-159 | the converse round trip: a completed walk yields well-formed entries, and the bytes from the start up to and including its sentinel are exactly their encoding |
| Dcs.DecodeEncode | include/mipi_dcs.h:141-159 | decoding an encoded sequence gives back its entries; the result index is the sentinel's |
| Dcs.WalkDoneAtSentinel | include/mipi_dcs.h:144-145 | a completed walk always stops on a `0x00` byte at an opcode position |
| Dcs.AsWrittenIteration | include/mipi_dcs.h:141-158 | one pass of the loop as written returns only on a leading sentinel. Otherwise it writes the count byte `s[1]` as the register, with `s[1]` parameters that start at the count byte itself (`s[1 .. 1 + s[1]]`) |
| Dcs.AsWrittenNeverAdvances | include/mipi_dcs.h:142-157 | on `[INVOFF, 0, NOP]` the loop as written writes register `0x00` every pass, while the walk yields one INVOFF entry and stops at index 2 |
| Dcs.WritesOfCalls | include/mipi_dcs.h:151-156 | there is exactly one register write per entry, in table order, with that entry's opcode and parameters |
| Dcs.WritesOfEntry | include/mipi_dcs.h:151-156 | an entry's calls contain exactly one register write, whether or not a delay follows it |
| Dcs.WritesOfAppend | include/mipi_dcs.h:141-159 | the register writes of consecutive runs of calls are concatenated |
| St7735.RowsEncodeEntries | include/mipi_init.h:29-78 | each row of the ST7735 table is the encoding of the entry listed for it, and the last row is the sentinel |
| St7735.TableEncodesEntries | include/mipi_init.h:27-79 | the whole table is the encoding of its 21 entries |
| St7735.WalkTable | include/mipi_init.h:27-79 | walking the table yields all 21 entries and stops exactly on its final `END_DCS_SEQ` byte; the zero parameters of CASET/RASET do not end it |
| St7735.TableCalls | include/mipi_init.h:29-78 | the table makes 25 calls. The sleeps of 150, 255, 10 and 100 ms come directly after the writes of SWRST, SLPOUT, NORON and DISPON. Every other call is the register write of the entry in its position |
| St7735.TableWrites | include/mipi_init.h:29-76 | the table gives 21 writes, SWRST first and DISPON last. Both PWCTRL3 entries are written, in order. INVOFF has no parameters. COLMOD gets `IFPF_16_BIT`. The entries SWRST, SLPOUT, NORON and DISPON carry delays of 150, 255, 10 and 100 ms, and no other entry has one |
| SpiBus.CmdBodyFacts | src/mipi_spi_ctr.c:84-96 | D/CX is low for exactly the one opcode byte and high for the parameter bytes |
| SpiBus.BeginEndFacts | include/mipi_dbi_spi.h:35-47 | a transaction takes the mutex before selecting the chip (active low), and releases it before deselecting |
| SpiBus.CtrCmdFrameFacts | src/mipi_spi_ctr.c:82-98 | from an idle bus, a controller register write is legal, sends `[(cmd, D/CX low), (params, D/CX high)]` and leaves the bus idle |
| SpiBus.CtrFlushFrameFacts | src/mipi_spi_ctr.c:141-165 | from an idle bus, a controller flush is legal, sends the pixel bytes with D/CX high only, and leaves the bus idle |
| SpiBus.ConnCmdFrameFacts | src/mipi_spi_connector.c:86-103 | an unguarded register write is bracketed by chip select and sends the opcode with D/CX low, then the parameters with D/CX high |
| SpiBus.ConnFlushIsRamwr | src/mipi_spi_connector.c:136-153 | the unguarded flush is exactly a RAMWR (0x2C) register write carrying the pixel bytes |
| SpiBus.UnlockedFrameIllegal | include/mipi_dbi_spi.h:35-40 | a frame sent after an ignored lock failure selects the chip without the mutex, so it is never legal |
| MipiSpiCtr.ParamlessCommandRefused | src/mipi_spi_ctr.c:71-78 | the NULL check as written refuses `(NULL, 0)`, which the prototype's contract admits; on every other call the two agree |
| MipiSpiCtr.SpiCtr.constructor | src/mipi_spi_ctr.c:20-37 | the pin numbers are stored unchanged; no error and no bus activity yet |
| MipiSpiCtr.SpiCtr.Init | src/mipi_spi_ctr.c:39-60 | chip select and D/CX are driven high, in that order |
| MipiSpiCtr.SpiCtr.LockTimeout | include/mipi_dbi_spi.h:137-141 | the timed lock succeeds exactly when granted within the timeout and the mutex is free, and takes it only then |
| MipiSpiCtr.SpiCtr.TryLock | include/mipi_dbi_spi.h:143-144 | the try-lock succeeds exactly when the mutex is free, without waiting |
| MipiSpiCtr.SpiCtr.Unlock | include/mipi_dbi_spi.h:146-147 | unlocking releases the mutex |
| MipiSpiCtr.SpiCtr.SendCmd | src/mipi_spi_ctr.c:62-107 | NULL with a non-zero length sets EINVAL with no bus activity. A lock not obtained sets EBUSY with no bus activity. Otherwise the full framed register write of `len` bytes is sent and the mutex is released again |
| MipiSpiCtr.SpiCtr.RecvParams | src/mipi_spi_ctr.c:109-120 | reading is unsupported: ENOTSUP is OR-ed in, the result is -1 and the bus is untouched |
| MipiSpiCtr.SpiCtr.FlushFmbf | src/mipi_spi_ctr.c:122-175 | a NULL buffer sets EINVAL with no bus activity; a lock not obtained sets EBUSY; otherwise `len` pixel bytes go out with D/CX high inside one framed transaction |
| MipiSpiConnector.SpiConnector.constructor | src/mipi_spi_connector.c:13-35 | the default pins: MOSI 19, MISO 16, SCK 18, CS 17, D/CX 20 |
| MipiSpiConnector.SpiConnector.Init | src/mipi_spi_connector.c:47-68 | chip select and D/CX end high and the bus is idle |
| MipiSpiConnector.SpiConnector.SendCmd | src/mipi_spi_connector.c:70-109 | a NULL buffer sets EINVAL and leaves the bus alone; otherwise exactly the chip-select-bracketed opcode and `len` parameter bytes are sent, ending with CS and D/CX high |
| MipiSpiConnector.SpiConnector.FlushFmbf | src/mipi_spi_connector.c:121-160 | a NULL buffer sets EINVAL and does nothing else; otherwise RAMWR, then `len` pixel bytes, then chip select goes high, ending with CS and D/CX high |
| DcsWriter.ParamBuffer | include/mipi.h:304-308 | the buffer is NULL exactly for an entry without parameters. The call it makes is admitted by the register-write contract and sends exactly the entry's parameter bytes. For a parameterless entry the controller as written refuses it |
| DcsWriter.FramesOfFacts | include/mipi_dcs.h:141-159 | the writer's bus traffic is legal, leaves the bus idle, and consists of exactly the granted register writes, in entry order |
| DcsWriter.WriteEntry | include/mipi_dcs.h:151-156 | one entry becomes one framed register write with its opcode and parameters, or EBUSY with no bus activity |
| DcsWriter.WriteSeq | include/mipi_dcs.h:131-160 | a missing controller or sequence gives -1, ORs `MIPI_ERR_INV` and touches nothing. Otherwise every decoded entry is written once, in order. The result is the sentinel's index, or -1 with `MIPI_ERR_INV` when the sequence is truncated |
| MipiDbi.Device.constructor | src/mipi_dbi.c:31-46 | width, height, format and init sequence are stored unchanged |
| MipiDbi.Device.SetOutputIfpf | include/mipi.h:432-442 | a format without a table entry is refused; otherwise it becomes active, and changing it invalidates the frame buffer |
| MipiDbi.DevInit | src/mipi_dbi.c:48-79 | a missing connector or init sequence sets `errno` to exactly EINVAL and sends nothing. Otherwise the connector is bound and the whole sequence is written through it: the controller's mutex ends as it began, and its `errno` gains EBUSY exactly when some register write was refused its lock. The device's pixel format and frame-buffer flag are never touched |
| MglTick.Delta | out.cl.c:146 | the delta is the time elapsed from the last reading to now, across a wrap of the 32-bit clock |
| MglTick.SleepTime | out.cl.c:164-172 | the loop sleeps exactly when the delta is under the 16 ms tick budget |
| MglTick.DeltaElapsed | out.cl.c:146 | the delta recovers any elapsed time modulo 2^32 |
| MglTick.TickPeriod | out.cl.c:143-174 | within one iteration, a delta under the 16 ms (`1000/60`) budget is followed by a sleep of the remainder, so delta plus sleep is exactly the budget |
| MglTick.SleepEveryOtherTick | out.cl.c:143-174 | the next delta includes that sleep: with a constant work time `w` under the budget the deltas alternate `w` and 16, the loop sleeps every other iteration, and two iterations last `16 + w` ms |
| MglTick.AsWrittenNeverSleeps | out.cl.c:146-166 | with the delta computed as `last_tm - now`, any positive elapsed time gives a huge delta and the loop never sleeps |
| MglTick.DispatchAt | out.cl.c:147-154 | every registered callback is invoked exactly once per iteration, head to tail, with its own context and the same delta |
| MglTick.NewestFirst | out.cl.c:236-252 | after a registration, the new callback is dispatched first and the earlier ones follow unchanged |
| MglTick.TickLoop.constructor | out.cl.c:31-45 | no callbacks, not running, zero ticks |
| MglTick.TickLoop.Start | out.cl.c:307-319 | the loop is running and its last time is the start time; callbacks and ticks are unchanged |
| MglTick.TickLoop.Iterate | out.cl.c:140-175 | a failed try-lock skips dispatch, sleep, the time update and the tick. Otherwise all callbacks run once with the delta, the loop sleeps the remaining budget if positive, `last_tm` becomes now and `_ticks` grows by one modulo 2^32 |
| MglTick.TickLoop.Register | out.cl.c:230-264 | with allocation and lock, the callback is prepended; otherwise the list is unchanged |
| MglTick.TickLoop.Suspend | out.cl.c:178-204 | the loop is stopped, and the result says whether it was running |
| MglTick.TickLoop.Reset | out.cl.c:325-355 | nothing changes if suspend did not end a running loop; otherwise the callback list is emptied and `_ticks` is 0 |
| GfxTable.LookupPresent | include/mipi_gfx.h:114-117 | a handle finds an object if and only if it is in the table |
| GfxTable.InsertFresh | include/mipi_gfx.h:114-117 | inserting under a new handle keeps handles unique |
| GfxTable.LookupInsert | include/mipi_gfx.h:110-117 | after a push, the new handle finds the pushed copy and every other handle finds what it found before |
| GfxTable.LookupRemove | include/mipi_gfx.h:186-190 | after a pop, the popped handle finds nothing and every other handle is unaffected |
| GfxTable.LookupReplace | include/mipi_gfx.h:192-197 | after an exchange, the handle finds the new object if it was present; other handles are unaffected |
| GfxTable.ReplaceKeepsOrder | include/mipi_gfx.h:192-197 | an exchange keeps every object's z position |
| GfxTable.RemoveAbsent | include/mipi_gfx.h:186-190 | popping a handle that is not in the table changes nothing |
| GfxTable.RemoveAt | include/mipi_gfx.h:123-135 | popping an object removes exactly its slot and keeps the z-order of the rest |
| GfxTable.PushPopRoundTrip | include/mipi_gfx.h:179-190 | pushing an object and then popping its handle gives back the original table |
| GfxTable.RemoveHandles | include/mipi_gfx.h:186-190 | after a pop the handles stay unique, and the remaining handles are the old ones except the popped one |
| GfxTable.GfxCtx.constructor | src/mgl/mgl.h:115-130 | an empty table with no locks held |
| GfxTable.GfxCtx.Push | include/mipi_gfx.h:179-184 | push fails with -1 exactly when the table holds 256 objects or `z` is not a position. Otherwise it returns a fresh handle and inserts the copy at `z`, on top for -1. The handle counter grows by one exactly on success, so a popped handle is never issued again |
| GfxTable.GfxCtx.Pop | include/mipi_gfx.h:186-190 | the object under the handle is removed, along with its lock |
| GfxTable.GfxCtx.Exchange | include/mipi_gfx.h:192-197 | the object under the handle is replaced in its z position |
| GfxTable.GfxCtx.Clear | include/mipi_gfx.h:199-200 | the table and all object locks are emptied |
| GfxTable.GfxCtx.Destroy | src/mgl/mgl.h:231-241 | callable only inside a tick callback or with the object's lock held; removes the object and its lock |
| GfxTable.GfxCtx.TryLockObj | src/mgl/mgl.h:243-248 | succeeds exactly when the object exists, this context does not hold its lock, and the mutex try-lock (`free`, which covers other holders) succeeds; then it holds the lock and returns the object, otherwise nothing changes |
| GfxTable.GfxCtx.LockObjTimeout | src/mgl/mgl.h:250-256 | succeeds exactly when the object exists, this context does not hold its lock, and the mutex was obtained within `tm` (`released`, which covers other holders); otherwise nothing changes |
| GfxTable.GfxCtx.UnlockObj | src/mgl/mgl.h:258-262 | releases the object's lock and nothing else |
| GfxTable.GfxCtx.TryLockFmbf | src/mgl/mgl.h:280-281 | succeeds exactly when this context does not hold the frame-buffer lock and the mutex try-lock (`free`) succeeds; it holds the lock afterwards exactly when it did before or succeeded; the object locks are untouched |
| GfxTable.GfxCtx.UnlockFmbf | src/mgl/mgl.h:286-287 | releases the frame-buffer lock and nothing else |
| ByteBuffers.MakeBuffer | include/bbuff.h:29-40 | the buffer designates exactly `buff_sz` bytes starting at `buff` |
| ByteBuffers.View | include/bbuff.h:53-65 | a view has size `len` |
| ByteBuffers.ViewBytes | include/bbuff.h:53-65 | a view that fits inside its source covers exactly source bytes `offset .. offset+len-1` |
| ByteBuffers.ViewOfView | include/bbuff.h:53-65 | a view of a view is the view at the summed offset |
| ByteBuffers.MakeCopy | include/bbuff.h:42-51 | the copy is fresh storage with the same size and bytes as its source, and earlier memory is unchanged |
| ByteBuffers.CopyIsIndependent | include/bbuff.h:42-51 | writing into the copy leaves the source bytes unchanged |

## Left out

- Hardware and time.
  - SPI and GPIO hardware is a trace of `BusEvent`s. Baud rate, `spi_init`, `gpio_set_function` and `gpio_set_dir` are not modelled.
  - The clock (`get_time_ms`), `sleep_ms`, malloc outcomes and mutex outcomes are inputs (the `now`, `allocOk`, `lockOk`, `grant`, `granted`, `free`, `released` parameters). Another task holding a mutex shows only through these outcomes. Sleeping is recorded as a requested duration.
- Concurrency. Core-1 launch, `async_context` polling and workers, atomics and the real interleaving of the tick loop with registration are not modelled. Each operation is one atomic step.
- Debug logging (`_mipi_dbg`) is not modelled.
- Floating point (`scale`, normalised `double` points) is not modelled: point lists are opaque values.
- The MADCTL parameter `MX | SWAP_XY | BGR` uses macros the source does not define. It is a free byte in `St7735`, and every fact holds for any value.
- Other files are not part of this model:
  - include/mgl.h (an older duplicate of src/mgl/mgl.h);
  - include/asio.h, include/ll.h, include/osal.h, src/pico_runtime_osal.c and main.c;
  - the rasteriser prototypes of src/mgl/mgl_draw_gfx.c;
  - the `mgl_create_*` constructors, event subscription, bounds and render buffer setters, and `mipi_panel_get_ifpf`.
- Pixel formats: mono, RGB_666, YCbCr and HSV have no `MIPI_PANEL_FMT` entry and are refused. The `stride` field and the unused `mipi_clr_rgb_565` bitfield struct are not modelled.
- MipiSpiCtr.SpiCtr.SendCmd: when `params` is NULL the source ORs EINVAL through `spi_conn` before assigning it. The model ORs it into this controller's `errno`. The `ENODEV` branch cannot be reached, since `self` was already used, and is not modelled. The macro's `spi_ctr->spi_dev` typo is read as this controller.
- MipiSpiCtr.SpiCtr.FlushFmbf: the same NULL-path reading as `SendCmd`. The `bounds` argument is unused in the source and is not a parameter.
- MipiSpiCtr.SpiCtr.RecvParams: the source has no return statement. The model returns -1, as the read contract in include/mipi.h asks of a write-only panel.
- MipiSpiConnector.SpiConnector.SendCmd: modelled as written. A NULL buffer is refused even with length 0, and the NULL path writes through `spi_conn` as for the controller. The connector's `mipi_spi_recieve_params` has an empty body and is not modelled.
- MipiDbi.DevInit: a NULL device is left alone, where the source writes `dev->errno` through the NULL pointer.
- Dcs.Walk: the source has no bounds check. A count or delay byte that runs past the table, or a table without sentinel, ends the walk as `Truncated`, and the writer then returns -1 with `MIPI_ERR_INV`.
- MglTick.TickLoop.Suspend: only the compare-exchange path is modelled, and it returns whether the loop was running. In the source that path returns no value. The mutex path (no atomics) is left out.
- MglTick.TickLoop.Reset: the source frees the callback nodes but leaves `_evt_tk_cbs` pointing at freed memory. The model empties the list. `async_context_deinit` is not modelled.
- GfxTable.GfxCtx.Push: only declarations and comments describe it. The model treats `z == -1` as the top and `0..count` as an insertion position, and refuses any other `z` with -1. Handles come from a counter that never wraps, where the source's `ssize_t` would.
- GfxTable.GfxCtx.UnlockObj: keyed by handle. `mgl_unlock_gfx_obj` takes the owned object (src/mgl/mgl.h:258-262), and the model reads its handle.
- MglTick.TickPeriod: states delta plus sleep within one iteration only. `last_tm` is the reading taken before the sleep, so the loop does not keep a 16 ms period: SleepEveryOtherTick shows the mean period is `(16 + w) / 2` for a constant work time `w`.
- `mgl_lock_fmbf_timeout_ms` returns `void`, so it has no outcome to state; it is not modelled.
- ByteBuffers.MakeCopy: the source does not compile as written. It reads `.size`, copies into nothing and returns a pointer as a struct. The model is the evident copy, and a failed allocation is not modelled.
- ByteBuffers.View: the source reads an undeclared `buff`. The model uses the source buffer's storage.

## Findings

| source | as written | input that shows it | evidently intended | confidence | as-written member | corrected member |
|---|---|---|---|---|---|---|
| include/mipi_dcs.h:141-158 | `i` is declared inside the loop, so it restarts at 0 each pass. The register passed is the count byte, and `params` points at the count byte | `[INVOFF, 0, NOP]`: register `0x00` is written forever | walk entry by entry: opcode, count, parameters, optional delay; stop at the sentinel | not executed | Dcs.AsWrittenNeverAdvances | Dcs.DecodeEncode |
| include/mipi.h:460-464 | colour `i` is written to bytes `i` and `i+1`, overwriting the previous colour's second byte | a white then a black pixel give `FF 00 00 00` | bytes `2i` and `2i+1` | not executed | PixelCodec.AsWrittenOverlaps | PixelCodec.ConvertRgb565 |
| include/mipi.h:465 | returns `sizeof(*clr_buff)`, the size of a pointer | any colour count other than 2 | the byte count `2N` | not executed | PixelCodec.AsWrittenByteCountWrong | PixelCodec.ConvertRgb565 |
| include/mipi_dbi_spi.h:36 | the result of the timed lock is discarded, and the chip is selected anyway | a register write while another holder keeps the mutex | abort without bus activity when the lock is not obtained | not executed | SpiBus.UnlockedFrameIllegal | MipiSpiCtr.SpiCtr.SendCmd |
| src/mipi_spi_ctr.c:71 | a NULL buffer is refused whatever the length | `send_cmd(SWRST, NULL, 0)`, the call the register-write contract prescribes | NULL admitted when the length is 0 (`nonnull_if_nonzero(3,4)`) | not executed | MipiSpiCtr.ParamlessCommandRefused | MipiSpiCtr.SpiCtr.SendCmd |
| out.cl.c:146 | `delta_tm = last_tm - now` in unsigned 32-bit arithmetic | `last_tm = 0`, `now = 5`: the delta is 2^32 - 5 and the loop never sleeps | `now - last_tm` | not executed | MglTick.AsWrittenNeverSleeps | MglTick.TickPeriod |
