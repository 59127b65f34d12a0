/** The MIPI Display Command Set byte stream used for panel bring-up
    (include/mipi_dcs.h): opcodes, the entry layout and its walk. */
module Dcs {
  import opened Common

  // Opcodes of the MIPI Display Command Set used in this driver.
  const NOP: bv8 := 0x00
  const SWRST: bv8 := 0x01
  const SLPOUT: bv8 := 0x11
  const NORON: bv8 := 0x13
  const INVOFF: bv8 := 0x20
  const DISPON: bv8 := 0x29
  const CASET: bv8 := 0x2A
  const RASET: bv8 := 0x2B
  const RAMWR: bv8 := 0x2C
  const MADCTL: bv8 := 0x36
  const COLMOD: bv8 := 0x3A
  const FRMCTRL1: bv8 := 0xB1
  const FRMCTRL2: bv8 := 0xB2
  const FRMCTRL3: bv8 := 0xB3
  const INVCTRL: bv8 := 0xB4
  const PWCTRL1: bv8 := 0xC0
  const PWCTRL2: bv8 := 0xC1
  const PWCTRL3: bv8 := 0xC2
  const PWCTRL4: bv8 := 0xC3
  const PWCTRL5: bv8 := 0xC4
  const SET_POS_GAMMA: bv8 := 0xE0
  const SET_NEG_GAMMA: bv8 := 0xE1

  /** Flag bit of the count byte announcing a trailing delay byte. */
  const MIPI_DELAY: bv8 := 0x80
  /** The no-op opcode doubles as the end-of-sequence sentinel. */
  const END_DCS_SEQ: bv8 := NOP
  /** COLMOD parameter selecting 16 bits per pixel (RGB 5-6-5). */
  const IFPF_16_BIT: bv8 := 0x05

  /** One entry of an init sequence: opcode, parameters, optional delay in
      milliseconds. */
  datatype Entry = Entry(opcode: bv8, params: seq<bv8>, delay: Option<bv8>)

  /** An entry that can be encoded: its opcode is not the sentinel and its
      parameter count fits the seven low bits of the count byte. */
  predicate ValidEntry(e: Entry) {
    e.opcode != END_DCS_SEQ && |e.params| < 128
  }

  predicate AllValid(es: seq<Entry>) {
    forall i :: 0 <= i < |es| ==> ValidEntry(es[i])
  }

  /** The parameter count: the low seven bits of the count byte. */
  function ParamCount(count: bv8): (n: nat)
    ensures n < 128
  {
    (count & 0x7F) as nat
  }

  /** The delay flag: bit 0x80 of the count byte. */
  predicate HasDelay(count: bv8) {
    count & MIPI_DELAY != 0
  }

  /** The count byte read as a number: the mask and the flag test above
      are the remainder and the range test of that number. */
  lemma CountBits(c: bv8)
    ensures ParamCount(c) == c as int % 128
    ensures HasDelay(c) <==> c as int >= 128
  {
  }

  /** The byte holding a number below 256. */
  function ByteOf(n: nat): (b: bv8)
    requires n < 256
    ensures b as int == n
  {
    if n == 0 then 0 else ByteOf(n - 1) + 1
  }

  /** The count byte of an entry: the parameter count, plus the delay flag
      when the entry has a delay. */
  function CountByte(e: Entry): (c: bv8)
    requires |e.params| < 128
    ensures ParamCount(c) == |e.params|
    ensures HasDelay(c) <==> e.delay.Some?
  {
    var c := ByteOf(|e.params| + if e.delay.Some? then 128 else 0);
    CountBits(c);
    c
  }

  function DelayBytes(e: Entry): seq<bv8> {
    if e.delay.Some? then [e.delay.value] else []
  }

  function EncodeEntry(e: Entry): (bytes: seq<bv8>)
    requires ValidEntry(e)
  {
    [e.opcode, CountByte(e)] + e.params + DelayBytes(e)
  }

  /** A whole sequence: the entries in order, then the sentinel. */
  function Encode(es: seq<Entry>): (bytes: seq<bv8>)
    requires AllValid(es)
    ensures |bytes| > 0 && bytes[|bytes| - 1] == END_DCS_SEQ
    decreases |es|
  {
    if es == [] then [END_DCS_SEQ] else EncodeEntry(es[0]) + Encode(es[1..])
  }

  /** Decodes the entry whose opcode is at `i`, with the cursor of the next
      opcode; `None` when the count byte, a parameter or the delay byte would
      lie past the end of the buffer. */
  function EntryAt(s: seq<bv8>, i: nat): (r: Option<(Entry, nat)>)
    requires i < |s|
    ensures r.Some? ==> i + 2 <= r.value.1 <= |s|
  {
    if i + 1 >= |s| then None
    else
      var n := ParamCount(s[i + 1]);
      var next := i + 2 + n + (if HasDelay(s[i + 1]) then 1 else 0);
      if next > |s| then None
      else
        var delay := if HasDelay(s[i + 1]) then Some(s[i + 2 + n]) else None;
        Some((Entry(s[i], s[i + 2 .. i + 2 + n], delay), next))
  }

  /** The result of walking a sequence: the entries read and either the
      index of the sentinel or the cursor at which the buffer ran out. */
  datatype WalkResult =
    | Done(entries: seq<Entry>, end: nat)
    | Truncated(entries: seq<Entry>, at: nat)

  function Prepend(done: seq<Entry>, w: WalkResult): WalkResult {
    match w
    case Done(es, k) => Done(done + es, k)
    case Truncated(es, k) => Truncated(done + es, k)
  }

  /** Walks entry by entry from cursor `i`. Only bytes at opcode positions
      are compared with the sentinel. */
  function Walk(s: seq<bv8>, i: nat): WalkResult
    decreases |s| - i
  {
    if i >= |s| then Truncated([], i)
    else if s[i] == END_DCS_SEQ then Done([], i)
    else match EntryAt(s, i)
      case None => Truncated([], i)
      case Some((e, next)) => Prepend([e], Walk(s, next))
  }

  lemma PrependAssoc(a: seq<Entry>, b: seq<Entry>, w: WalkResult)
    ensures Prepend(a, Prepend(b, w)) == Prepend(a + b, w)
  {
    match w
    case Done(es, k) => assert a + (b + es) == (a + b) + es;
    case Truncated(es, k) => assert a + (b + es) == (a + b) + es;
  }

  /** Where the parts of an encoded entry sit once a prefix and a suffix
      surround it. */
  lemma EntryLayout(p: seq<bv8>, op: bv8, c: bv8, params: seq<bv8>, d: seq<bv8>, rest: seq<bv8>)
    ensures var s := p + ([op, c] + params + d) + rest;
      var i := |p|;
      |s| == i + 2 + |params| + |d| + |rest| &&
      s[i] == op && s[i + 1] == c &&
      s[i + 2 .. i + 2 + |params|] == params &&
      (|d| == 1 ==> s[i + 2 + |params|] == d[0])
  {
    var s := p + ([op, c] + params + d) + rest;
    var i := |p|;
    assert s == (p + [op, c]) + params + (d + rest);
    assert s[i + 2 .. i + 2 + |params|] == params;
  }

  lemma EncodeEntryAt(p: seq<bv8>, e: Entry, rest: seq<bv8>)
    requires ValidEntry(e)
    ensures var s := p + EncodeEntry(e) + rest;
      |p| < |s| && s[|p|] == e.opcode &&
      EntryAt(s, |p|) == Some((e, |p| + |EncodeEntry(e)|))
  {
    var c := CountByte(e);
    EntryLayout(p, e.opcode, c, e.params, DelayBytes(e), rest);
  }

  /** Walking from an encoded entry reads that entry, then goes on from
      the byte after it. */
  lemma WalkEncodedEntry(p: seq<bv8>, e: Entry, rest: seq<bv8>, es: seq<Entry>, end: nat)
    requires ValidEntry(e)
    requires Walk(p + EncodeEntry(e) + rest, |p + EncodeEntry(e)|) == Done(es, end)
    ensures Walk(p + EncodeEntry(e) + rest, |p|) == Done([e] + es, end)
  {
    EncodeEntryAt(p, e, rest);
  }

  /** Walking the encoding of valid entries (placed after any prefix)
      yields exactly those entries and stops on the final sentinel: zero
      parameter or delay bytes never end the walk. */
  lemma {:induction false} WalkEncode(p: seq<bv8>, es: seq<Entry>)
    requires AllValid(es)
    ensures Walk(p + Encode(es), |p|) == Done(es, |p| + |Encode(es)| - 1)
    decreases |es|
  {
    if es == [] {
      assert (p + Encode(es))[|p|] == END_DCS_SEQ;
    } else {
      var e := es[0];
      var enc := EncodeEntry(e);
      var tail := Encode(es[1..]);
      EncodeFirst(p, es);
      WalkEncode(p + enc, es[1..]);
      WalkEncodedEntry(p, e, tail, es[1..], |p + enc| + |tail| - 1);
    }
  }

  /** Splits off the first entry of an encoding. */
  lemma EncodeFirst(p: seq<bv8>, es: seq<Entry>)
    requires AllValid(es) && es != []
    ensures AllValid(es[1..])
    ensures p + Encode(es) == p + EncodeEntry(es[0]) + Encode(es[1..])
    ensures |Encode(es)| == |EncodeEntry(es[0])| + |Encode(es[1..])|
    ensures [es[0]] + es[1..] == es
  {
    assert Encode(es) == EncodeEntry(es[0]) + Encode(es[1..]);
    forall k | 0 <= k < |es[1..]| ensures ValidEntry(es[1..][k]) {
      assert es[1..][k] == es[k + 1];
    }
  }

  /** The round trip from the start of a buffer. */
  lemma DecodeEncode(es: seq<Entry>)
    requires AllValid(es)
    ensures Walk(Encode(es), 0) == Done(es, |Encode(es)| - 1)
  {
    WalkEncode([], es);
    assert [] + Encode(es) == Encode(es);
  }

  /** A walk that succeeds stops on a sentinel byte at an opcode position. */
  lemma {:induction false} WalkDoneAtSentinel(s: seq<bv8>, i: nat)
    requires Walk(s, i).Done?
    ensures Walk(s, i).end < |s| && s[Walk(s, i).end] == END_DCS_SEQ
    decreases |s| - i
  {
    if i < |s| && s[i] != END_DCS_SEQ {
      match EntryAt(s, i)
      case Some((e, next)) => WalkDoneAtSentinel(s, next);
    }
  }

  /** A count byte is determined by the parameter count and the delay flag
      it carries. */
  lemma CountByteOf(e: Entry, c: bv8)
    requires |e.params| < 128
    requires ParamCount(c) == |e.params| && (HasDelay(c) <==> e.delay.Some?)
    ensures CountByte(e) == c
  {
    CountBits(c);
    CountBits(CountByte(e));
    assert CountByte(e) as int == c as int;
  }

  /** An entry read from any buffer is valid, and its encoding is exactly
      the bytes the cursor moved past. */
  lemma EntryAtEncodes(s: seq<bv8>, i: nat)
    requires i < |s| && s[i] != END_DCS_SEQ && EntryAt(s, i).Some?
    ensures ValidEntry(EntryAt(s, i).value.0)
    ensures EncodeEntry(EntryAt(s, i).value.0) == s[i .. EntryAt(s, i).value.1]
  {
    var (e, next) := EntryAt(s, i).value;
    var n := ParamCount(s[i + 1]);
    CountByteOf(e, s[i + 1]);
    assert s[i .. next] == [s[i], s[i + 1]] + s[i + 2 .. i + 2 + n] + s[i + 2 + n .. next];
    if HasDelay(s[i + 1]) {
      assert s[i + 2 + n .. next] == [s[i + 2 + n]];
    } else {
      assert s[i + 2 + n .. next] == [];
    }
  }

  /** The converse round trip: whenever a walk over arbitrary bytes
      completes, the entries it read are valid and re-encoding them gives
      back exactly the bytes from the start cursor through the sentinel. */
  lemma {:induction false} WalkIsEncoding(s: seq<bv8>, i: nat)
    requires Walk(s, i).Done?
    ensures i <= Walk(s, i).end < |s|
    ensures AllValid(Walk(s, i).entries)
    ensures s[i .. Walk(s, i).end + 1] == Encode(Walk(s, i).entries)
    decreases |s| - i
  {
    if s[i] == END_DCS_SEQ {
      assert s[i .. i + 1] == [END_DCS_SEQ];
    } else {
      var (e, next) := EntryAt(s, i).value;
      EntryAtEncodes(s, i);
      WalkIsEncoding(s, next);
      var rest := Walk(s, next);
      var es := [e] + rest.entries;
      assert Walk(s, i) == Done(es, rest.end);
      assert es[0] == e && es[1..] == rest.entries;
      assert AllValid(es) by {
        forall k | 0 <= k < |es| ensures ValidEntry(es[k]) {
          if k > 0 { assert es[k] == rest.entries[k - 1]; }
        }
      }
      assert s[i .. rest.end + 1] == s[i .. next] + s[next .. rest.end + 1];
    }
  }

  /** One iteration of the writer loop as the source writes it
      (include/mipi_dcs.h:141-158): the cursor is reset to 0 at the top of
      every iteration, the count byte is passed as the register and the
      parameter pointer is set at the count byte. `ReadPast` stands for a
      read beyond the end of the sequence. */
  datatype RawStep = Returned(index: nat) | Wrote(reg: bv8, params: seq<bv8>) | ReadPast

  function AsWrittenIteration(s: seq<bv8>): (r: RawStep)
    ensures r.Returned? <==> |s| > 0 && s[0] == END_DCS_SEQ
    ensures r.Wrote? ==>
              |s| >= 2 && 1 + s[1] as nat <= |s| && r.reg == s[1] &&
              |r.params| == s[1] as nat && r.params == s[1 .. 1 + s[1] as nat]
    ensures r.Wrote? && r.params != [] ==> r.params[0] == r.reg
  {
    if |s| == 0 then ReadPast
    else if s[0] == END_DCS_SEQ then Returned(0)
    else if |s| < 2 || 1 + s[1] as nat > |s| then ReadPast
    else Wrote(s[1], s[1 .. 1 + s[1] as nat])
  }

  /** The as-written loop on a one-entry sequence: it writes register 0x00
      (the count byte) instead of INVOFF, and since every iteration starts
      again at index 0 it never reaches the sentinel; the walk above
      yields the INVOFF entry and stops at index 2. */
  lemma AsWrittenNeverAdvances()
    ensures var s: seq<bv8> := [INVOFF, 0, END_DCS_SEQ];
      AsWrittenIteration(s) == Wrote(0x00, []) &&
      Walk(s, 0) == Done([Entry(INVOFF, [], None)], 2)
  {
    var s: seq<bv8> := [INVOFF, 0, END_DCS_SEQ];
    var e := Entry(INVOFF, [], None);
    CountBits(s[1]);
    assert ParamCount(s[1]) == 0 && !HasDelay(s[1]);
    assert s[2 .. 2] == [];
    assert EntryAt(s, 0) == Some((e, 2));
    assert Walk(s, 2) == Done([], 2);
    assert [e] + [] == [e];
  }

  /** A call the sequence writer makes, in order: a register write through
      the connector, or a blocking delay of the given milliseconds. */
  datatype PanelCall = WriteReg(reg: bv8, params: seq<bv8>) | Sleep(ms: nat)

  function CallsOfEntry(e: Entry): seq<PanelCall> {
    [WriteReg(e.opcode, e.params)] + (if e.delay.Some? then [Sleep(e.delay.value as nat)] else [])
  }

  /** The calls a complete walk makes: one register write per entry in table
      order, each followed by its delay when it has one. */
  function CallsOf(es: seq<Entry>): seq<PanelCall>
    decreases |es|
  {
    if es == [] then [] else CallsOf(es[..|es| - 1]) + CallsOfEntry(es[|es| - 1])
  }

  /** The calls of consecutive runs of entries follow each other. */
  lemma {:induction false} CallsOfAppend(a: seq<Entry>, b: seq<Entry>)
    ensures CallsOf(a + b) == CallsOf(a) + CallsOf(b)
    decreases |b|
  {
    if b != [] {
      var b' := b[..|b| - 1];
      assert (a + b)[..|a + b| - 1] == a + b';
      CallsOfAppend(a, b');
    } else {
      assert a + b == a;
    }
  }

  /** Entries without delays make exactly one call each: their register
      write, at the entry's own position. */
  lemma {:induction false} CallsOfUndelayed(es: seq<Entry>)
    requires forall k :: 0 <= k < |es| ==> es[k].delay.None?
    ensures |CallsOf(es)| == |es|
    ensures forall k :: 0 <= k < |es| ==> CallsOf(es)[k] == WriteReg(es[k].opcode, es[k].params)
    decreases |es|
  {
    if es != [] {
      var init := es[..|es| - 1];
      CallsOfUndelayed(init);
      var c := CallsOf(es);
      forall k | 0 <= k < |es| ensures c[k] == WriteReg(es[k].opcode, es[k].params) {
        if k < |init| {
          assert es[k] == init[k];
        }
      }
    }
  }

  function WritesOf(calls: seq<PanelCall>): seq<PanelCall>
    decreases |calls|
  {
    if calls == [] then []
    else WritesOf(calls[..|calls| - 1]) + (if calls[|calls| - 1].WriteReg? then [calls[|calls| - 1]] else [])
  }

  /** Dropping the delays leaves exactly one register write per entry, with
      that entry's opcode and parameters. */
  lemma {:induction false} WritesOfCalls(es: seq<Entry>)
    ensures |WritesOf(CallsOf(es))| == |es|
    ensures forall i :: 0 <= i < |es| ==>
      WritesOf(CallsOf(es))[i] == WriteReg(es[i].opcode, es[i].params)
    decreases |es|
  {
    if es != [] {
      var init := es[..|es| - 1];
      var e := es[|es| - 1];
      WritesOfCalls(init);
      WritesOfAppend(CallsOf(init), CallsOfEntry(e));
      WritesOfEntry(e);
      var w := WritesOf(CallsOf(es));
      assert w == WritesOf(CallsOf(init)) + [WriteReg(e.opcode, e.params)];
      forall i | 0 <= i < |es| ensures w[i] == WriteReg(es[i].opcode, es[i].params) {
        if i < |init| {
          assert es[i] == init[i];
        }
      }
    }
  }

  /** An entry's calls hold one register write. */
  lemma WritesOfEntry(e: Entry)
    ensures WritesOf(CallsOfEntry(e)) == [WriteReg(e.opcode, e.params)]
  {
    var w := WriteReg(e.opcode, e.params);
    assert [w][..0] == [];
    assert WritesOf([w]) == [w];
    if e.delay.Some? {
      var c := CallsOfEntry(e);
      assert c == [w, Sleep(e.delay.value as nat)];
      assert c[..1] == [w];
      assert WritesOf(c) == WritesOf(c[..1]);
    } else {
      assert CallsOfEntry(e) == [w];
    }
  }

  lemma {:induction false} WritesOfAppend(a: seq<PanelCall>, b: seq<PanelCall>)
    ensures WritesOf(a + b) == WritesOf(a) + WritesOf(b)
    decreases |b|
  {
    if b != [] {
      var b' := b[..|b| - 1];
      assert (a + b)[..|a + b| - 1] == a + b';
      WritesOfAppend(a, b');
    } else {
      assert a + b == a;
    }
  }
}
