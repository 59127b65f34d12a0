/** `_mipi_dcs_write_seq` (include/mipi_dcs.h): walks an init sequence and
    sends each entry through the controller's `write_panel_reg`, which is
    `mipi_spi_send_cmd` (src/mipi_spi_ctr.c:13-18). The walk follows the
    entry layout the header documents; see the findings for the loop as
    written. */
module DcsWriter {
  import opened Common
  import opened MipiErrors
  import opened Dcs
  import opened SpiBus
  import opened MipiSpiCtr

  /** The parameter buffer handed to `write_panel_reg`: NULL for an entry
      without parameters, as the register-write contract of `mipi_io_ctr`
      asks; otherwise the entry's parameter bytes. */
  function ParamBuffer(e: Entry): (b: Option<seq<bv8>>)
    ensures b.None? <==> e.params == []
    ensures b.Some? ==> b.value == e.params
    ensures SendsPerContract(b, |e.params|)
    ensures Payload(b, |e.params|) == e.params
    ensures e.params == [] ==> !SendsAsWritten(b, 0)
  {
    if e.params == [] then None else Some(e.params)
  }

  /** The bus frame of one register write: the full frame when the mutex is
      obtained, nothing otherwise. */
  function FrameFor(e: Entry, granted: bool): seq<BusEvent> {
    if granted then CtrCmdFrame(e.opcode, e.params) else []
  }

  /** The frames of a run of register writes; the `k`-th write obtains the
      mutex when `grant(k)` holds and the caller did not already hold it. */
  function FramesOf(es: seq<Entry>, grant: nat -> bool, held: bool): seq<BusEvent>
    decreases |es|
  {
    if es == [] then []
    else FramesOf(es[..|es| - 1], grant, held) + FrameFor(es[|es| - 1], grant(|es| - 1) && !held)
  }

  /** The parameter and command bytes those frames carry, each with its D/CX
      level. */
  function WritesFor(es: seq<Entry>, grant: nat -> bool): seq<(bool, seq<bv8>)>
    decreases |es|
  {
    if es == [] then []
    else
      WritesFor(es[..|es| - 1], grant) +
      (if grant(|es| - 1) then [(false, [es[|es| - 1].opcode]), (true, es[|es| - 1].params)] else [])
  }

  /** Whether some of the first `n` writes found the mutex taken. */
  predicate Refused(grant: nat -> bool, held: bool, n: nat) {
    n > 0 && (held || exists k :: 0 <= k < n && !grant(k))
  }

  /** Started between transactions, the writes form a legal run that ends
      between transactions: the chip is never selected without the mutex
      and is released after each entry; every opcode goes out alone with
      D/CX low, every parameter block with D/CX high, in table order. */
  lemma {:induction false} FramesOfFacts(st: Lines, es: seq<Entry>, grant: nat -> bool)
    requires Idle(st)
    ensures Legal(true, st, FramesOf(es, grant, false))
    ensures Idle(After(st, FramesOf(es, grant, false)))
    ensures DataWrites(st, FramesOf(es, grant, false)) == WritesFor(es, grant)
    decreases |es|
  {
    if es != [] {
      var init := es[..|es| - 1];
      var e := es[|es| - 1];
      var ok := grant(|es| - 1);
      FramesOfFacts(st, init, grant);
      var pre := FramesOf(init, grant, false);
      var mid := After(st, pre);
      LegalAppend(true, st, pre, FrameFor(e, ok));
      AfterAppend(st, pre, FrameFor(e, ok));
      DataWritesAppend(st, pre, FrameFor(e, ok));
      if ok {
        CtrCmdFrameFacts(mid, e.opcode, e.params);
      }
    }
  }

  lemma FramesOfSnoc(es: seq<Entry>, e: Entry, grant: nat -> bool, held: bool)
    ensures FramesOf(es + [e], grant, held) == FramesOf(es, grant, held) + FrameFor(e, grant(|es|) && !held)
  {
    assert (es + [e])[..|es|] == es;
  }

  lemma CallsOfSnoc(es: seq<Entry>, e: Entry)
    ensures CallsOf(es + [e]) == CallsOf(es) + CallsOfEntry(e)
  {
    assert (es + [e])[..|es|] == es;
  }

  lemma RefusedStep(grant: nat -> bool, held: bool, n: nat)
    ensures Refused(grant, held, n + 1) <==> Refused(grant, held, n) || !(grant(n) && !held)
  {
    if !Refused(grant, held, n) && !grant(n) {
      assert 0 <= n < n + 1 && !grant(n);
    }
  }

  /** One walk step inside the writer loop. */
  lemma WalkAdvance(s: seq<bv8>, i: nat, done: seq<Entry>, e: Entry, next: nat)
    requires Prepend(done, Walk(s, i)) == Walk(s, 0)
    requires i < |s| && s[i] != END_DCS_SEQ && EntryAt(s, i) == Some((e, next))
    ensures Prepend(done + [e], Walk(s, next)) == Walk(s, 0)
  {
    PrependAssoc(done, [e], Walk(s, next));
  }

  lemma AppendAssoc(a: seq<BusEvent>, b: seq<BusEvent>, c: seq<BusEvent>)
    ensures (a + b) + c == a + (b + c)
  {
  }

  /** Where the writer loop stops: on a sentinel the walk is done; past the
      end of the buffer or inside a cut-off entry it is truncated. */
  lemma WalkStops(s: seq<bv8>, i: nat, done: seq<Entry>)
    requires Prepend(done, Walk(s, i)) == Walk(s, 0)
    requires i >= |s| || s[i] == END_DCS_SEQ || EntryAt(s, i).None?
    ensures i < |s| && s[i] == END_DCS_SEQ ==> Walk(s, 0) == Done(done, i)
    ensures !(i < |s| && s[i] == END_DCS_SEQ) ==> Walk(s, 0) == Truncated(done, i)
  {
    assert done + [] == done;
  }

  /** One `write_panel_reg` call for an entry: NULL parameters when it has
      none. */
  method WriteEntry(io: SpiCtr, e: Entry, lockOk: bool)
    requires io.Valid()
    modifies io
    ensures io.Valid()
    ensures io.trace == old(io.trace) + FrameFor(e, lockOk && !old(io.lines.locked))
    ensures io.lines.locked == old(io.lines.locked)
    ensures io.errno == if lockOk && !old(io.lines.locked) then old(io.errno) else OrErrno(old(io.errno), EBUSY)
  {
    io.SendCmd(e.opcode, ParamBuffer(e), |e.params|, lockOk);
  }

  /** The writer. `io` and `initSeq` stand for the possibly-NULL pointers;
      `grant(k)` is the outcome of the mutex wait in the `k`-th register
      write; `err` is the global `mipi_err_code` before the call.
      Returns the index of the sentinel, or -1 with `MIPI_ERR_INV` OR-ed in
      when an argument is absent or the sequence ends inside an entry or
      before a sentinel; `calls` lists the register writes and delays in
      order. */
  method WriteSeq(io: SpiCtr?, initSeq: Option<seq<bv8>>, grant: nat -> bool, err: ErrCode)
    returns (r: int, calls: seq<PanelCall>, errOut: ErrCode)
    requires io != null ==> io.Valid()
    modifies io
    ensures io != null ==> io.Valid()
    ensures io == null || initSeq.None? ==>
      r == -1 && calls == [] && errOut == Accumulate(err, MIPI_ERR_INV) &&
      (io != null ==> io.trace == old(io.trace) && io.errno == old(io.errno) && io.lines == old(io.lines))
    ensures io != null && initSeq.Some? ==>
      var w := Walk(initSeq.value, 0);
      calls == CallsOf(w.entries) &&
      io.trace == old(io.trace) + FramesOf(w.entries, grant, old(io.lines.locked)) &&
      io.lines.locked == old(io.lines.locked) &&
      io.errno == (if Refused(grant, old(io.lines.locked), |w.entries|) then OrErrno(old(io.errno), EBUSY) else old(io.errno)) &&
      (w.Done? ==> r == w.end && errOut == err) &&
      (w.Truncated? ==> r == -1 && errOut == Accumulate(err, MIPI_ERR_INV))
  {
    if io == null || initSeq.None? {
      return -1, [], Accumulate(err, MIPI_ERR_INV);
    }
    var s := initSeq.value;
    ghost var t0 := io.trace;
    ghost var e0 := io.errno;
    ghost var held := io.lines.locked;
    var i: nat := 0;
    var n: nat := 0;
    ghost var done: seq<Entry> := [];
    calls := [];
    assert Prepend([], Walk(s, 0)) == Walk(s, 0) by {
      match Walk(s, 0)
      case Done(es, k) => assert [] + es == es;
      case Truncated(es, k) => assert [] + es == es;
    }
    while true
      invariant io.Valid()
      invariant i <= |s| + 1
      invariant Prepend(done, Walk(s, i)) == Walk(s, 0)
      invariant n == |done|
      invariant calls == CallsOf(done)
      invariant io.trace == t0 + FramesOf(done, grant, held)
      invariant io.lines.locked == held
      invariant io.errno == (if Refused(grant, held, |done|) then OrErrno(e0, EBUSY) else e0)
      decreases |s| - i
    {
      if i >= |s| {
        // The source has no bounds check: running off the end is an error.
        WalkStops(s, i, done);
        return -1, calls, Accumulate(err, MIPI_ERR_INV);
      }
      if s[i] == END_DCS_SEQ {
        WalkStops(s, i, done);
        return i, calls, err;
      }
      match EntryAt(s, i)
      case None =>
        WalkStops(s, i, done);
        return -1, calls, Accumulate(err, MIPI_ERR_INV);
      case Some((e, next)) =>
        var k := n;
        WriteEntry(io, e, grant(k));
        RefusedStep(grant, held, k);
        OrErrnoTwice(e0, EBUSY);
        FramesOfSnoc(done, e, grant, held);
        AppendAssoc(t0, FramesOf(done, grant, held), FrameFor(e, grant(k) && !held));
        CallsOfSnoc(done, e);
        WalkAdvance(s, i, done, e, next);
        done := done + [e];
        calls := calls + CallsOfEntry(e);
        n := n + 1;
        i := next;
    }
  }
}
