/** The event-tick scheduler of out.cl.c, one iteration at a time: the
    registered tick callbacks, the running flag and the tick counter. The
    clock, the try-lock on the callback list and the allocator are inputs;
    the callbacks themselves are foreign code, observed as the list of
    invocations they receive; `sleep_ms` is observed as the list of
    requested sleeps. */
module MglTick {

  /** `uint32_t`, and `mgl_delta_tm_T`: millisecond readings wrap at 2^32. */
  const U32_MOD: int := 0x1_0000_0000
  type U32 = x: int | 0 <= x < U32_MOD

  /** `MGL_EVT_TICK_PER_SEC` (src/mgl/mgl.h). */
  const TICKS_PER_SEC: int := 60
  /** `_MGL_TICK_TIME_MS`: the tick budget in integer milliseconds. */
  const TICK_MS: int := 1000 / TICKS_PER_SEC

  /** A registered callback: the graphics context it is given and the
      function (identified, since it is foreign code). */
  datatype TickNode = TickNode(ctx: nat, cb: nat)

  /** One call `cb(ctx, delta)`. */
  datatype Invocation = Invocation(ctx: nat, cb: nat, delta: U32)

  /** Milliseconds between two clock readings, across a wrap of the
      32-bit clock. */
  function Delta(last: U32, now: U32): (d: U32)
    ensures (last + d) % U32_MOD == now
  {
    (now - last) % U32_MOD
  }

  /** The budget minus the delta, in signed 64-bit arithmetic: the delta
      (at most 2^32 - 1) cannot overflow it. */
  function SleepTime(delta: U32): (slp: int)
    ensures slp > 0 <==> delta < TICK_MS
  {
    TICK_MS - delta
  }

  /** Within one iteration, a delta under the budget is topped up by a
      sleep to exactly the budget. */
  lemma TickPeriod(last: U32, elapsed: U32)
    requires elapsed < TICK_MS
    ensures var now := (last + elapsed) % U32_MOD;
      Delta(last, now) == elapsed && SleepTime(Delta(last, now)) > 0 &&
      Delta(last, now) + SleepTime(Delta(last, now)) == TICK_MS
  {
    var now := (last + elapsed) % U32_MOD;
    DeltaElapsed(last, elapsed);
  }

  /** The delta is measured from the previous clock reading, which was
      taken before the previous sleep; so the sleep is counted again in the
      next delta. With a constant work time `w` under the budget the
      deltas alternate `w` and the budget, the loop sleeps only every other
      iteration, and two iterations take `TICK_MS + w` ms instead of
      `2 * TICK_MS`. */
  lemma SleepEveryOtherTick(t0: U32, w: U32)
    requires w < TICK_MS
    ensures var now1 := (t0 + w) % U32_MOD;
      var d1 := Delta(t0, now1);
      var now2 := (now1 + SleepTime(d1) + w) % U32_MOD;
      var d2 := Delta(now1, now2);
      var now3 := (now2 + w) % U32_MOD;
      d1 == w && SleepTime(d1) == TICK_MS - w &&
      d2 == TICK_MS && SleepTime(d2) <= 0 &&
      Delta(now2, now3) == w
  {
    var now1 := (t0 + w) % U32_MOD;
    DeltaElapsed(t0, w);
    var now2 := (now1 + TICK_MS) % U32_MOD;
    DeltaElapsed(now1, TICK_MS);
    DeltaElapsed(now2, w);
  }

  /** The delta recovers the elapsed time whenever less than 2^32 ms
      passed, also when the clock wrapped in between. */
  lemma DeltaElapsed(last: U32, elapsed: U32)
    ensures Delta(last, (last + elapsed) % U32_MOD) == elapsed
  {
    var now := (last + elapsed) % U32_MOD;
    if last + elapsed < U32_MOD {
      assert now == last + elapsed;
    } else {
      assert now == last + elapsed - U32_MOD;
      assert now - last == elapsed - U32_MOD;
    }
  }

  /** The delta as out.cl.c:146 computes it: `last_tm - now`. */
  function DeltaAsWritten(last: U32, now: U32): U32 {
    (last - now) % U32_MOD
  }

  /** With the reversed subtraction, an iteration that took between 1 ms
      and 2^32 - 16 ms gets a delta of at least 16, so the loop never
      sleeps; the corrected delta sleeps whenever less than 16 ms passed. */
  lemma AsWrittenNeverSleeps(last: U32, elapsed: U32)
    requires 0 < elapsed <= U32_MOD - TICK_MS
    ensures var now := (last + elapsed) % U32_MOD;
      DeltaAsWritten(last, now) == U32_MOD - elapsed &&
      SleepTime(DeltaAsWritten(last, now)) <= 0
  {
    var now := (last + elapsed) % U32_MOD;
    if last + elapsed < U32_MOD {
      assert now == last + elapsed;
    } else {
      assert now == last + elapsed - U32_MOD;
    }
  }

  /** The invocations one dispatch makes: every node, head to tail. */
  function Dispatch(cbs: seq<TickNode>, delta: U32): seq<Invocation>
    decreases |cbs|
  {
    if cbs == [] then []
    else Dispatch(cbs[..|cbs| - 1], delta) + [Invocation(cbs[|cbs| - 1].ctx, cbs[|cbs| - 1].cb, delta)]
  }

  /** Every registered node is invoked exactly once, in list order, with
      its own context and the same delta. */
  lemma {:induction false} DispatchAt(cbs: seq<TickNode>, delta: U32)
    ensures |Dispatch(cbs, delta)| == |cbs|
    ensures forall i :: 0 <= i < |cbs| ==>
      Dispatch(cbs, delta)[i] == Invocation(cbs[i].ctx, cbs[i].cb, delta)
    decreases |cbs|
  {
    if cbs != [] {
      var init := cbs[..|cbs| - 1];
      DispatchAt(init, delta);
      forall i | 0 <= i < |cbs|
        ensures Dispatch(cbs, delta)[i] == Invocation(cbs[i].ctx, cbs[i].cb, delta)
      {
        if i < |init| {
          assert init[i] == cbs[i];
        }
      }
    }
  }

  /** The newest registration is dispatched first. */
  lemma NewestFirst(n: TickNode, cbs: seq<TickNode>, delta: U32)
    ensures Dispatch([n] + cbs, delta)[0] == Invocation(n.ctx, n.cb, delta)
    ensures Dispatch([n] + cbs, delta)[1..] == Dispatch(cbs, delta)
  {
    DispatchAt([n] + cbs, delta);
    DispatchAt(cbs, delta);
    var a := Dispatch([n] + cbs, delta)[1..];
    var b := Dispatch(cbs, delta);
    assert |a| == |b|;
    forall i | 0 <= i < |a| ensures a[i] == b[i] {
      assert ([n] + cbs)[i + 1] == cbs[i];
    }
  }

  /** The scheduler's globals: `_evt_tk_cbs` (head first), `_evt_tk_running`,
      `_ticks`, and the loop's `last_tm`. */
  class TickLoop {
    var cbs: seq<TickNode>
    var running: bool
    var ticks: U32
    var lastTm: U32
    /** Callback invocations so far. */
    var invoked: seq<Invocation>
    /** Sleeps requested so far, in milliseconds. */
    var slept: seq<nat>

    constructor ()
      ensures cbs == [] && !running && ticks == 0 && lastTm == 0
      ensures invoked == [] && slept == []
    {
      cbs := [];
      running := false;
      ticks := 0;
      lastTm := 0;
      invoked := [];
      slept := [];
    }

    /** `mgl_start_evt_tick_loop` together with the loop's first clock
        reading: the loop runs from `now`. */
    method Start(now: U32)
      modifies this
      ensures running && lastTm == now
      ensures cbs == old(cbs) && ticks == old(ticks)
      ensures invoked == old(invoked) && slept == old(slept)
    {
      running := true;
      lastTm := now;
    }

    /** One pass of `_mgl_evt_tick_loop`. Returns false when the loop has
        been stopped. If the try-lock on the list fails, nothing else
        happens. Otherwise every node is invoked with the delta since the
        last dispatch, the loop sleeps when the dispatch took less than the
        budget, `last_tm` becomes `now` and the tick count goes up by one. */
    method Iterate(now: U32, lockOk: bool) returns (continued: bool)
      modifies this
      ensures continued == old(running)
      ensures cbs == old(cbs) && running == old(running)
      ensures !(old(running) && lockOk) ==>
        ticks == old(ticks) && lastTm == old(lastTm) &&
        invoked == old(invoked) && slept == old(slept)
      ensures old(running) && lockOk ==>
        var d := Delta(old(lastTm), now);
        invoked == old(invoked) + Dispatch(cbs, d) &&
        slept == old(slept) + (if SleepTime(d) > 0 then [SleepTime(d) as nat] else []) &&
        lastTm == now && ticks == (old(ticks) + 1) % U32_MOD
    {
      if !running {
        return false;
      }
      continued := true;
      if !lockOk {
        return;
      }
      var delta := Delta(lastTm, now);
      var k := 0;
      while k < |cbs|
        invariant 0 <= k <= |cbs|
        invariant invoked == old(invoked) + Dispatch(cbs[..k], delta)
        invariant cbs == old(cbs) && running && slept == old(slept)
        invariant lastTm == old(lastTm) && ticks == old(ticks)
      {
        assert cbs[..k + 1][..k] == cbs[..k];
        invoked := invoked + [Invocation(cbs[k].ctx, cbs[k].cb, delta)];
        k := k + 1;
      }
      assert cbs[..k] == cbs;
      var slp := SleepTime(delta);
      if slp > 0 {
        slept := slept + [slp as nat];
      }
      lastTm := now;
      ticks := (ticks + 1) % U32_MOD;
    }

    /** `mgl_set_evt_tick_cb`: the new node goes to the head of the list,
        provided it could be allocated and the list lock was obtained;
        otherwise the list is unchanged. */
    method Register(ctx: nat, cb: nat, allocOk: bool, lockOk: bool)
      modifies this
      ensures allocOk && lockOk ==> cbs == [TickNode(ctx, cb)] + old(cbs)
      ensures !(allocOk && lockOk) ==> cbs == old(cbs)
      ensures running == old(running) && ticks == old(ticks) && lastTm == old(lastTm)
      ensures invoked == old(invoked) && slept == old(slept)
    {
      if allocOk && lockOk {
        cbs := [TickNode(ctx, cb)] + cbs;
      }
    }

    /** `mgl_suspend_evt_tick`: stops the loop; reports whether it was
        running, the outcome of the compare-and-exchange from true to
        false. */
    method Suspend() returns (ended: bool)
      modifies this
      ensures ended == old(running) && !running
      ensures cbs == old(cbs) && ticks == old(ticks) && lastTm == old(lastTm)
      ensures invoked == old(invoked) && slept == old(slept)
    {
      ended := running;
      running := false;
    }

    /** `mgl_reset_evt_tick_subsys`: nothing more happens unless suspending
        ended a running loop; then every node is freed and the tick count
        returns to zero. */
    method Reset()
      modifies this
      ensures !running
      ensures !old(running) ==> cbs == old(cbs) && ticks == old(ticks)
      ensures old(running) ==> cbs == [] && ticks == 0
      ensures lastTm == old(lastTm) && invoked == old(invoked) && slept == old(slept)
    {
      var ended := Suspend();
      if !ended {
        return;
      }
      while cbs != []
        invariant !running && lastTm == old(lastTm) && ticks == old(ticks)
        invariant invoked == old(invoked) && slept == old(slept)
        invariant |cbs| <= |old(cbs)| && cbs == old(cbs)[|old(cbs)| - |cbs|..]
        decreases |cbs|
      {
        cbs := cbs[1..];
      }
      ticks := 0;
    }
  }
}
