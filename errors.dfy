/** The driver's own error codes (include/mipi.h) and the message table
    keyed by them (src/runtime.c). */
module MipiErrors {
  import opened Common

  /** `mipi_err_T` is a signed 64-bit integer; the codes are single bits. */
  type ErrCode = bv64

  const MIPI_ERR_INV: ErrCode := 1 << 0
  const MIPI_ERR_NO_MEM: ErrCode := 1 << 1
  const MIPI_ERR_OP_NOT_IMPL: ErrCode := 1 << 2
  const MIPI_ERR_IO: ErrCode := 1 << 3
  const MIPI_ERR_INTERRUPT: ErrCode := 1 << 4
  const MIPI_ERR_RES_LOCKED: ErrCode := 1 << 5

  /** The six codes in declaration order. */
  const ALL_CODES: seq<ErrCode> :=
    [MIPI_ERR_INV, MIPI_ERR_NO_MEM, MIPI_ERR_OP_NOT_IMPL,
     MIPI_ERR_IO, MIPI_ERR_INTERRUPT, MIPI_ERR_RES_LOCKED]

  /** Exactly one bit is set. */
  predicate IsSingleFlag(c: ErrCode) {
    c != 0 && c & (c - 1) == 0
  }

  /** The codes are distinct single bits 1<<0 .. 1<<5. */
  lemma CodesAreDistinctBits()
    ensures forall i :: 0 <= i < |ALL_CODES| ==> IsSingleFlag(ALL_CODES[i])
    ensures forall i, j :: 0 <= i < j < |ALL_CODES| ==> ALL_CODES[i] & ALL_CODES[j] == 0
  {
  }

  /** `mipi_err_code |= flag`. */
  function Accumulate(acc: ErrCode, flag: ErrCode): (r: ErrCode)
    ensures r & acc == acc
    ensures r & flag == flag
  {
    acc | flag
  }

  /** `_MIPI_ERR_STRING[code]`: the table is indexed by the flag value
      itself, with entries at 1, 2, 8, 16 and 32 only. Every other index
      holds NULL (inside the table) or lies past its end; both are `None`. */
  function ErrString(code: ErrCode): (m: Option<string>)
    ensures m.Some? ==> IsSingleFlag(code) && code != MIPI_ERR_OP_NOT_IMPL
    ensures m.Some? <==> code in ALL_CODES && code != MIPI_ERR_OP_NOT_IMPL
  {
    if code == MIPI_ERR_NO_MEM then Some("OUT OF MEMORY")
    else if code == MIPI_ERR_INV then Some("INVALID OPERANDS PROVIDED")
    else if code == MIPI_ERR_IO then Some("I/O OPERATION FAILED DUE TO CONFIGURATION OR HARDWARE")
    else if code == MIPI_ERR_INTERRUPT then Some("TASK WAS INTERRUPTED")
    else if code == MIPI_ERR_RES_LOCKED then Some("THE REQUESTED RESOURCE IS BUSY")
    else None
  }

  /** `MIPI_CHK_FLAGS_OR_EXIT`: exits whenever any flag is set and looks up
      the message by the whole accumulated code. */
  datatype CheckOutcome = Continue | Exit(message: Option<string>)

  function CheckFlags(code: ErrCode): (o: CheckOutcome)
    ensures o.Exit? <==> code != 0
  {
    if code != 0 then Exit(ErrString(code)) else Continue
  }

  /** Two different flags accumulated together exit without a message: the
      lookup is only defined for single flags. */
  lemma CombinedFlagsHaveNoMessage(a: ErrCode, b: ErrCode)
    requires a in ALL_CODES && b in ALL_CODES && a != b
    ensures CheckFlags(Accumulate(a, b)) == Exit(None)
  {
    var c := Accumulate(a, b);
    assert !IsSingleFlag(c);
  }
}
