/** The ST7735 initialisation table (`MIPI_DEV_ST7735`, include/mipi_init.h)
    and what walking it yields. */
module St7735 {
  import opened Common
  import opened Dcs

  /** The sixteen parameter bytes of the positive and negative gamma
      correction rows. */
  const POS_GAMMA: seq<bv8> := [0x02, 0x1C, 0x07, 0x12, 0x37, 0x32, 0x29, 0x2D,
                                0x29, 0x25, 0x2B, 0x39, 0x00, 0x01, 0x03, 0x10]
  const NEG_GAMMA: seq<bv8> := [0x03, 0x1D, 0x07, 0x06, 0x2E, 0x2C, 0x29, 0x2D,
                                0x2E, 0x2E, 0x37, 0x3F, 0x00, 0x00, 0x02, 0x10]

  /** The table as laid out in the source, one row per command. `madctl`
      stands for the MADCTL parameter `MX | SWAP_XY | BGR`, whose `MX` and
      `BGR` macros the source does not define; every fact below holds for
      any value of it. */
  function Rows(madctl: bv8): seq<seq<bv8>> {
    [ [SWRST, MIPI_DELAY, 150],
      [SLPOUT, MIPI_DELAY, 255],
      [FRMCTRL1, 3, 0x01, 0x2C, 0x2D],
      [FRMCTRL2, 3, 0x01, 0x2C, 0x2D],
      [FRMCTRL3, 6, 0x01, 0x2C, 0x2D, 0x01, 0x2C, 0x2D],
      [INVCTRL, 1, 0x07],
      [PWCTRL1, 3, 0xA2, 0x02, 0x84],
      [PWCTRL2, 1, 0xC5],
      [PWCTRL3, 2, 0x0A, 0x00],
      [PWCTRL3, 2, 0x8A, 0x2A],
      [PWCTRL4, 2, 0x8A, 0xEE],
      [PWCTRL5, 1, 0x0E],
      [INVOFF, 0],
      [MADCTL, 1, madctl],
      [COLMOD, 1, IFPF_16_BIT],
      [CASET, 4, 0x00, 0x00, 0x00, 0x9F],
      [RASET, 4, 0x00, 0x00, 0x00, 0x7F],
      [SET_POS_GAMMA, 16] + POS_GAMMA,
      [SET_NEG_GAMMA, 16] + NEG_GAMMA,
      [NORON, MIPI_DELAY, 10],
      [DISPON, MIPI_DELAY, 100],
      [END_DCS_SEQ] ]
  }

  function Flatten(rows: seq<seq<bv8>>): seq<bv8>
    decreases |rows|
  {
    if rows == [] then [] else rows[0] + Flatten(rows[1..])
  }

  /** The table byte for byte: its rows one after the other. */
  function Table(madctl: bv8): seq<bv8> {
    Flatten(Rows(madctl))
  }

  /** The entries the table is meant to hold, in table order. */
  function Entries(madctl: bv8): seq<Entry> {
    [ Entry(SWRST, [], Some(150)),
      Entry(SLPOUT, [], Some(255)),
      Entry(FRMCTRL1, [0x01, 0x2C, 0x2D], None),
      Entry(FRMCTRL2, [0x01, 0x2C, 0x2D], None),
      Entry(FRMCTRL3, [0x01, 0x2C, 0x2D, 0x01, 0x2C, 0x2D], None),
      Entry(INVCTRL, [0x07], None),
      Entry(PWCTRL1, [0xA2, 0x02, 0x84], None),
      Entry(PWCTRL2, [0xC5], None),
      Entry(PWCTRL3, [0x0A, 0x00], None),
      Entry(PWCTRL3, [0x8A, 0x2A], None),
      Entry(PWCTRL4, [0x8A, 0xEE], None),
      Entry(PWCTRL5, [0x0E], None),
      Entry(INVOFF, [], None),
      Entry(MADCTL, [madctl], None),
      Entry(COLMOD, [IFPF_16_BIT], None),
      Entry(CASET, [0x00, 0x00, 0x00, 0x9F], None),
      Entry(RASET, [0x00, 0x00, 0x00, 0x7F], None),
      Entry(SET_POS_GAMMA, POS_GAMMA, None),
      Entry(SET_NEG_GAMMA, NEG_GAMMA, None),
      Entry(NORON, [], Some(10)),
      Entry(DISPON, [], Some(100)) ]
  }

  /** Each row is the encoding of the entry in the same place, and the
      last row is the sentinel. */
  lemma RowsEncodeEntries(madctl: bv8)
    ensures |Rows(madctl)| == |Entries(madctl)| + 1
    ensures AllValid(Entries(madctl))
    ensures forall k :: 0 <= k < |Entries(madctl)| ==>
      EncodeEntry(Entries(madctl)[k]) == Rows(madctl)[k]
    ensures Rows(madctl)[|Entries(madctl)|] == [END_DCS_SEQ]
  {
    forall k | 0 <= k < |Entries(madctl)|
      ensures ValidEntry(Entries(madctl)[k]) && EncodeEntry(Entries(madctl)[k]) == Rows(madctl)[k]
    {
      if k < 3 {
        RowsEncode0To2(madctl, k);
      } else if k < 6 {
        RowsEncode3To5(madctl, k);
      } else if k < 9 {
        RowsEncode6To8(madctl, k);
      } else if k < 12 {
        RowsEncode9To11(madctl, k);
      } else if k < 15 {
        RowsEncode12To14(madctl, k);
      } else if k < 18 {
        RowsEncode15To17(madctl, k);
      } else {
        RowsEncode18To20(madctl, k);
      }
    }
  }

  /** Rows 0 to 2, one case at a time so that each proof stays small. */
  lemma RowsEncode0To2(madctl: bv8, k: nat)
    requires 0 <= k < 3
    ensures ValidEntry(Entries(madctl)[k]) && EncodeEntry(Entries(madctl)[k]) == Rows(madctl)[k]
  {
    var es, rs := Entries(madctl), Rows(madctl);
    if k == 0 {
      assert EncodeEntry(es[0]) == rs[0];
    } else if k == 1 {
      assert EncodeEntry(es[1]) == rs[1];
    } else {
      assert EncodeEntry(es[2]) == rs[2];
    }
  }

  /** Rows 3 to 5. */
  lemma RowsEncode3To5(madctl: bv8, k: nat)
    requires 3 <= k < 6
    ensures ValidEntry(Entries(madctl)[k]) && EncodeEntry(Entries(madctl)[k]) == Rows(madctl)[k]
  {
    var es, rs := Entries(madctl), Rows(madctl);
    if k == 3 {
      assert EncodeEntry(es[3]) == rs[3];
    } else if k == 4 {
      assert EncodeEntry(es[4]) == rs[4];
    } else {
      assert EncodeEntry(es[5]) == rs[5];
    }
  }

  /** Rows 6 to 8. */
  lemma RowsEncode6To8(madctl: bv8, k: nat)
    requires 6 <= k < 9
    ensures ValidEntry(Entries(madctl)[k]) && EncodeEntry(Entries(madctl)[k]) == Rows(madctl)[k]
  {
    var es, rs := Entries(madctl), Rows(madctl);
    if k == 6 {
      assert EncodeEntry(es[6]) == rs[6];
    } else if k == 7 {
      assert EncodeEntry(es[7]) == rs[7];
    } else {
      assert EncodeEntry(es[8]) == rs[8];
    }
  }

  /** Rows 9 to 11. */
  lemma RowsEncode9To11(madctl: bv8, k: nat)
    requires 9 <= k < 12
    ensures ValidEntry(Entries(madctl)[k]) && EncodeEntry(Entries(madctl)[k]) == Rows(madctl)[k]
  {
    var es, rs := Entries(madctl), Rows(madctl);
    if k == 9 {
      assert EncodeEntry(es[9]) == rs[9];
    } else if k == 10 {
      assert EncodeEntry(es[10]) == rs[10];
    } else {
      assert EncodeEntry(es[11]) == rs[11];
    }
  }

  /** Rows 12 to 14. */
  lemma RowsEncode12To14(madctl: bv8, k: nat)
    requires 12 <= k < 15
    ensures ValidEntry(Entries(madctl)[k]) && EncodeEntry(Entries(madctl)[k]) == Rows(madctl)[k]
  {
    var es, rs := Entries(madctl), Rows(madctl);
    if k == 12 {
      assert EncodeEntry(es[12]) == rs[12];
    } else if k == 13 {
      assert EncodeEntry(es[13]) == rs[13];
    } else {
      assert EncodeEntry(es[14]) == rs[14];
    }
  }

  /** Rows 15 to 17. */
  lemma RowsEncode15To17(madctl: bv8, k: nat)
    requires 15 <= k < 18
    ensures ValidEntry(Entries(madctl)[k]) && EncodeEntry(Entries(madctl)[k]) == Rows(madctl)[k]
  {
    var es, rs := Entries(madctl), Rows(madctl);
    if k == 15 {
      assert EncodeEntry(es[15]) == rs[15];
    } else if k == 16 {
      assert EncodeEntry(es[16]) == rs[16];
    } else {
      assert EncodeEntry(es[17]) == rs[17];
    }
  }

  /** Rows 18 to 20. */
  lemma RowsEncode18To20(madctl: bv8, k: nat)
    requires 18 <= k < 21
    ensures ValidEntry(Entries(madctl)[k]) && EncodeEntry(Entries(madctl)[k]) == Rows(madctl)[k]
  {
    var es, rs := Entries(madctl), Rows(madctl);
    if k == 18 {
      assert EncodeEntry(es[18]) == rs[18];
    } else if k == 19 {
      assert EncodeEntry(es[19]) == rs[19];
    } else {
      assert EncodeEntry(es[20]) == rs[20];
    }
  }

  /** Entries whose encodings are the rows, the sentinel row last, encode to
      the flattened rows. */
  lemma {:induction false} EncodeRows(es: seq<Entry>, rs: seq<seq<bv8>>)
    requires |rs| == |es| + 1 && AllValid(es)
    requires forall k :: 0 <= k < |es| ==> EncodeEntry(es[k]) == rs[k]
    requires rs[|es|] == [END_DCS_SEQ]
    ensures Encode(es) == Flatten(rs)
    decreases |es|
  {
    if es == [] {
      assert rs[1..] == [];
    } else {
      EncodeRows(es[1..], rs[1..]);
    }
  }

  /** The table is the encoding of those entries. */
  lemma TableEncodesEntries(madctl: bv8)
    ensures AllValid(Entries(madctl))
    ensures Encode(Entries(madctl)) == Table(madctl)
  {
    RowsEncodeEntries(madctl);
    EncodeRows(Entries(madctl), Rows(madctl));
  }

  /** Walking the table entry by entry yields exactly its entries and stops
      on its final byte, the sentinel: the zero parameter bytes of CASET,
      RASET and the gamma tables never end the walk. */
  lemma WalkTable(madctl: bv8)
    ensures Walk(Table(madctl), 0) == Done(Entries(madctl), |Table(madctl)| - 1)
    ensures Table(madctl)[|Table(madctl)| - 1] == END_DCS_SEQ
  {
    TableEncodesEntries(madctl);
    DecodeEncode(Entries(madctl));
  }

  /** The register writes the table causes, in table order: both PWCTRL3
      entries, INVOFF without parameters, COLMOD selecting 16-bit pixels;
      the delays 150, 255, 10 and 100 ms sit on exactly the first two and
      the last two entries. */
  lemma TableWrites(madctl: bv8)
    ensures var w := WritesOf(CallsOf(Entries(madctl)));
      |w| == 21 &&
      w[0] == WriteReg(SWRST, []) && w[1] == WriteReg(SLPOUT, []) &&
      w[8] == WriteReg(PWCTRL3, [0x0A, 0x00]) &&
      w[9] == WriteReg(PWCTRL3, [0x8A, 0x2A]) &&
      w[12] == WriteReg(INVOFF, []) &&
      w[14] == WriteReg(COLMOD, [IFPF_16_BIT]) &&
      w[19] == WriteReg(NORON, []) && w[20] == WriteReg(DISPON, [])
    ensures var es := Entries(madctl);
      es[0].delay == Some(150) && es[1].delay == Some(255) &&
      es[19].delay == Some(10) && es[20].delay == Some(100) &&
      forall k :: 2 <= k < 19 ==> es[k].delay.None?
  {
    WritesOfCalls(Entries(madctl));
  }

  /** The calls of a run of undelayed entries between two delayed entries
      at each end: every delay follows its own write directly. */
  lemma DelayedEnds(a: seq<Entry>, m: seq<Entry>, z: seq<Entry>)
    requires |a| == 2 && |z| == 2
    requires forall k :: 0 <= k < |m| ==> m[k].delay.None?
    requires a[0].delay.Some? && a[1].delay.Some? && z[0].delay.Some? && z[1].delay.Some?
    ensures var c, n := CallsOf(a + m + z), |m|;
      |c| == n + 8 &&
      c[0] == WriteReg(a[0].opcode, a[0].params) && c[1] == Sleep(a[0].delay.value as nat) &&
      c[2] == WriteReg(a[1].opcode, a[1].params) && c[3] == Sleep(a[1].delay.value as nat) &&
      (forall k :: 4 <= k < n + 4 ==> c[k] == WriteReg(m[k - 4].opcode, m[k - 4].params)) &&
      c[n + 4] == WriteReg(z[0].opcode, z[0].params) && c[n + 5] == Sleep(z[0].delay.value as nat) &&
      c[n + 6] == WriteReg(z[1].opcode, z[1].params) && c[n + 7] == Sleep(z[1].delay.value as nat)
  {
    CallsOfAppend(a + m, z);
    CallsOfAppend(a, m);
    CallsOfUndelayed(m);
    assert CallsOf(a) == CallsOfEntry(a[0]) + CallsOfEntry(a[1]) by {
      assert a[..1] == [a[0]] && [a[0]][..0] == [];
      assert CallsOf([a[0]]) == CallsOfEntry(a[0]);
    }
    assert CallsOf(z) == CallsOfEntry(z[0]) + CallsOfEntry(z[1]) by {
      assert z[..1] == [z[0]] && [z[0]][..0] == [];
      assert CallsOf([z[0]]) == CallsOfEntry(z[0]);
    }
    var c, n := CallsOf(a + m + z), |m|;
    assert c == CallsOf(a) + CallsOf(m) + CallsOf(z);
    forall k | 4 <= k < n + 4 ensures c[k] == WriteReg(m[k - 4].opcode, m[k - 4].params) {
      assert c[k] == CallsOf(m)[k - 4];
    }
  }

  /** The calls the table causes: the four delays sleep 150, 255, 10 and
      100 ms right after SWRST, SLPOUT, NORON and DISPON, and every other
      call is the register write of the entry in that position. */
  lemma TableCalls(madctl: bv8)
    ensures var es, c := Entries(madctl), CallsOf(Entries(madctl));
      |c| == 25 &&
      c[0] == WriteReg(SWRST, []) && c[1] == Sleep(150) &&
      c[2] == WriteReg(SLPOUT, []) && c[3] == Sleep(255) &&
      (forall k :: 4 <= k < 21 ==> c[k] == WriteReg(es[k - 2].opcode, es[k - 2].params)) &&
      c[21] == WriteReg(NORON, []) && c[22] == Sleep(10) &&
      c[23] == WriteReg(DISPON, []) && c[24] == Sleep(100)
  {
    var es := Entries(madctl);
    var a, m, z := es[..2], es[2..19], es[19..];
    assert es == a + m + z;
    DelayedEnds(a, m, z);
    var c := CallsOf(es);
    forall k | 4 <= k < 21 ensures c[k] == WriteReg(es[k - 2].opcode, es[k - 2].params) {
      assert m[k - 4] == es[k - 2];
    }
  }
}
