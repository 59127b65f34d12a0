/** The panel device (src/mipi_dbi.c): construction, selection of the
    output pixel format, and bring-up through a controller. */
module MipiDbi {
  import opened Common
  import opened MipiErrors
  import opened PixelCodec
  import opened Dcs
  import opened MipiSpiCtr
  import opened DcsWriter

  /** `struct mipi_dbi_dev`. */
  class Device {
    const width: nat
    const height: nat
    const outFmt: ColorFmt
    const initSeq: Option<seq<bv8>>
    /** The active output pixel format, when one has been set. */
    var dstIfpf: Option<Ifpf>
    /** Set when the frame buffer must be repainted in full. */
    var fbInvalid: bool
    /** The connector bound by `DevInit`. */
    var io: SpiCtr?
    var errno: Errno

    /** `mipi_dbi_dev_create`: geometry, format and init sequence stored
        unchanged; no connector yet. */
    constructor (width: nat, height: nat, outFmt: ColorFmt, initSeq: Option<seq<bv8>>)
      ensures this.width == width && this.height == height
      ensures this.outFmt == outFmt && this.initSeq == initSeq
      ensures io == null && errno == 0 && dstIfpf.None? && !fbInvalid
    {
      this.width := width;
      this.height := height;
      this.outFmt := outFmt;
      this.initSeq := initSeq;
      io := null;
      errno := 0;
      dstIfpf := None;
      fbInvalid := false;
    }

    /** `mipi_set_panel_output_ifpf`: a format without an entry in
        `MIPI_PANEL_FMT` is refused with `MIPI_ERR_INV`; otherwise it becomes
        the active format, and changing the format invalidates the whole
        frame buffer. */
    method SetOutputIfpf(fmt: ColorFmt) returns (r: ErrCode)
      modifies this
      ensures PanelFormat(fmt).None? ==>
        r == MIPI_ERR_INV && dstIfpf == old(dstIfpf) && fbInvalid == old(fbInvalid)
      ensures PanelFormat(fmt).Some? ==>
        r == 0 && dstIfpf == PanelFormat(fmt) &&
        fbInvalid == (old(fbInvalid) || old(dstIfpf) != PanelFormat(fmt))
      ensures io == old(io) && errno == old(errno)
    {
      var p := PanelFormat(fmt);
      if p.None? {
        return MIPI_ERR_INV;
      }
      if dstIfpf != p {
        fbInvalid := true;
      }
      dstIfpf := p;
      r := 0;
    }
  }

  /** `mipi_dbi_dev_init`. A missing device is left alone (the source would
      write its `errno` through the NULL pointer); a missing controller sets
      the device's `errno` to exactly EINVAL and binds nothing; a device
      without an init sequence is bound to the controller and gets EINVAL;
      otherwise the device is bound and its whole init sequence is written
      through the controller. `grant` and `err` are passed to the writer. */
  method DevInit(dev: Device?, ctr: SpiCtr?, grant: nat -> bool, err: ErrCode)
    returns (calls: seq<PanelCall>, errOut: ErrCode)
    requires ctr != null ==> ctr.Valid()
    modifies dev, ctr
    ensures ctr != null ==> ctr.Valid()
    ensures dev == null || ctr == null || dev.initSeq.None? ==>
      calls == [] && errOut == err &&
      (ctr != null ==> ctr.trace == old(ctr.trace) && ctr.errno == old(ctr.errno) &&
                       ctr.lines == old(ctr.lines))
    ensures dev != null ==> dev.dstIfpf == old(dev.dstIfpf) && dev.fbInvalid == old(dev.fbInvalid)
    ensures dev != null && ctr == null ==> dev.errno == EINVAL && dev.io == old(dev.io)
    ensures dev != null && ctr != null ==> dev.io == ctr
    ensures dev != null && ctr != null && dev.initSeq.None? ==> dev.errno == EINVAL
    ensures dev != null && ctr != null && dev.initSeq.Some? ==>
      var w := Walk(dev.initSeq.value, 0);
      dev.errno == old(dev.errno) &&
      calls == CallsOf(w.entries) &&
      ctr.trace == old(ctr.trace) + FramesOf(w.entries, grant, old(ctr.lines.locked)) &&
      ctr.lines.locked == old(ctr.lines.locked) &&
      ctr.errno == (if Refused(grant, old(ctr.lines.locked), |w.entries|)
                    then OrErrno(old(ctr.errno), EBUSY) else old(ctr.errno)) &&
      (w.Done? ==> errOut == err) &&
      (w.Truncated? ==> errOut == Accumulate(err, MIPI_ERR_INV))
  {
    if dev == null {
      return [], err;
    }
    if ctr == null {
      dev.errno := EINVAL;
      return [], err;
    }
    dev.io := ctr;
    if dev.initSeq.None? {
      dev.errno := EINVAL;
      return [], err;
    }
    var r;
    r, calls, errOut := WriteSeq(ctr, dev.initSeq, grant, err);
  }
}
