/** The JTAG binding of the debug transport module: the DMI reset through
    dtmcs, and the bring-up that reads dtmcs, classifies its version and
    records idle and abits (section 6.1.4 of the RISC-V External Debug Support
    0.13). TAP operations are events on the session's link. */
module Rvdbg013Jtag {
  import opened Transport
  import opened Rvdbg
  import Protocol

  /** What rvdbg_jtag_init makes of the dtmcs word it captured: versions 0.11
      and 0.13 are accepted and recorded together with idle and abits; any
      other version is refused and nothing is recorded. */
  function DecodeDtmcs(c: Session, dtmcs: bv32): (r: (int, Session))
    ensures r.0 == 0 || r.0 == -1
    ensures r.0 == 0 <==> DtmcsGetVersion(dtmcs) == 0 || DtmcsGetVersion(dtmcs) == 1
    ensures r.0 == 0 ==>
      && r.1 == c.(debugVersion := r.1.debugVersion, idle := r.1.idle, abits := r.1.abits)
      && r.1.debugVersion as bv32 == DtmcsGetVersion(dtmcs) && r.1.debugVersion <= 1
      && r.1.idle as bv32 == (dtmcs >> 12) & 0x7 && r.1.idle <= 7
      && r.1.abits as bv32 == (dtmcs >> 4) & 0x3f && r.1.abits <= 63
    ensures r.0 != 0 ==> r.1 == c
  {
    var version := DtmcsGetVersion(dtmcs) as bv8;
    if version == RISCV_DEBUG_VERSION_011 || version == RISCV_DEBUG_VERSION_013 then
      (0, c.(debugVersion := version, idle := DtmcsGetIdle(dtmcs) as bv8, abits := DtmcsGetAbits(dtmcs) as bv8))
    else (-1, c)
  }

  /** rvdbg_dmi_reset: select dtmcs and shift in the hard or the soft reset word. */
  method DmiReset(dmi: Dmi, hard: bool)
    modifies dmi.link
    ensures dmi.link.script == old(dmi.link.script)
    ensures dmi.link.trace == old(dmi.link.trace) + Protocol.ResetEvents(hard)
  {
    dmi.link.WriteIr(IR_DTMCS);
    var dtmcontrol := if hard then DTMCS_DMIHARDRESET else DTMCS_DMIRESET;
    dmi.link.ShiftDr(dtmcontrol);
  }

  /** rvdbg_jtag_init, with `dtmcs` the word the DTM shifts out of dtmcs. The
      code shifts its uninitialised local in at the same time, so dtmcs is
      also written with an indeterminate word: that is `stale`, on which
      nothing depends but the trace. A refused version stops before the reset
      and before dmi is selected. */
  method JtagInit(dmi: Dmi, stale: bv32, dtmcs: bv32) returns (r: int)
    modifies dmi, dmi.link
    ensures (r, dmi.Snapshot()) == DecodeDtmcs(old(dmi.Snapshot()), dtmcs)
    ensures dmi.link.script == old(dmi.link.script)
    ensures r == 0 ==> dmi.link.trace == old(dmi.link.trace) + [WriteIr(IR_DTMCS), CaptureDr(stale, dtmcs)]
                                         + Protocol.ResetEvents(false) + [WriteIr(IR_DMI)]
    ensures r != 0 ==> dmi.link.trace == old(dmi.link.trace) + [WriteIr(IR_DTMCS), CaptureDr(stale, dtmcs)]
  {
    dmi.link.WriteIr(IR_DTMCS);
    var dtmcontrol := dmi.link.CaptureDr(stale, dtmcs);
    var version := DtmcsGetVersion(dtmcontrol) as bv8;
    if version == RISCV_DEBUG_VERSION_011 || version == RISCV_DEBUG_VERSION_013 {
      dmi.debugVersion := version;
    } else {
      return -1;
    }
    dmi.idle := DtmcsGetIdle(dtmcontrol) as bv8;
    dmi.abits := DtmcsGetAbits(dtmcontrol) as bv8;
    DmiReset(dmi, false);
    dmi.link.WriteIr(IR_DMI);
    return 0;
  }
}
