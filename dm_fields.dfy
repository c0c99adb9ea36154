/** Debug-module register fields (section 3.12 of the RISC-V External Debug
    Support 0.13), the Access Register abstract command (section 3.6.1.1), and the
    packing of DMI command words, as the engine writes them. Setters take the old
    word `t` and the value `s`; each changes only its own bit range. */
module DmFields {
  import opened Rvdbg

  /** DMI operations in the op field of an issued command. */
  const DMI_OP_NOP: bv64 := 0
  const DMI_OP_READ: bv64 := 1
  const DMI_OP_WRITE: bv64 := 2

  /** Debug-module register addresses on the DMI (the ones the engine uses). */
  const DMI_REG_ABSTRACTDATA_BEGIN: bv32 := 0x04
  const DMI_REG_DMCONTROL: bv32 := 0x10
  const DMI_REG_DMSTATUS: bv32 := 0x11
  const DMI_REG_ABSTRACT_CS: bv32 := 0x16
  const DMI_REG_ABSTRACT_CMD: bv32 := 0x17
  const DMI_REG_ABSTRACT_AUTOEXEC: bv32 := 0x18
  const DMI_REG_NEXTDM_ADDR: bv32 := 0x1d
  const DMI_REG_PROGRAMBUF_BEGIN: bv32 := 0x20

  const ABSTRACTCMD_TYPE_ACCESS_REGISTER: bv32 := 0x0
  const BUS_ACCESS_32: bv32 := 0x2

  /** Abstract command error codes (abstractcs.cmderr). */
  const ABSTRACTCMD_ERR_NONE: bv32 := 0x0
  const ABSTRACTCMD_ERR_BUSY: bv32 := 0x1
  const ABSTRACTCMD_ERR_NOT_SUPPORTED: bv32 := 0x2
  const ABSTRACTCMD_ERR_EXCEPTION: bv32 := 0x3
  const ABSTRACTCMD_ERR_HALT_RESUME: bv32 := 0x4
  const ABSTRACTCMD_ERR_BUS: bv32 := 0x5
  const ABSTRACTCMD_ERR_OTHER: bv32 := 0x7

  /** Hart register numbers of the general-purpose registers. */
  const HART_REG_GPR_BEGIN: bv16 := 0x1000

  /** The autoexec probe pattern written to abstractauto: 0b101010101010. */
  const ABSTRACTAUTO_SOME_PATTEN: bv32 := 0xaaa

  /** How a register access within a batch uses autoexec: ignore it; set up the
      command with post-increment; or only touch data0. */
  datatype AutoexecState = AutoexecNone | AutoexecInit | AutoexecCont

  // ----- DMI command words -----

  /** The 32-bit data field of a DMI word, bits 2-33. */
  function DmiData(c: bv64): bv32
  {
    ((c >> 2) & 0xffff_ffff) as bv32
  }

  /** The address field of a DMI word, from bit 34 up. */
  function DmiAddr(c: bv64): bv64
  {
    c >> 34
  }

  /** The command word of a DMI write. The data is shifted as a 32-bit value, so
      its bits 30-31 are lost; the address is shifted as a 64-bit value, so its
      bits 30-31 are lost too. */
  function DmiWriteCommand(addr: bv32, data: bv32): (c: bv64)
    ensures DmiGetOp(c) == DMI_OP_WRITE
    ensures DmiData(c) == data & 0x3fff_ffff
    ensures DmiAddr(c) == (addr & 0x3fff_ffff) as bv64
  {
    ((addr as bv64) << 34) | ((data << 2) as bv64) | 2
  }

  /** Only data below 2^30 survives a DMI write. */
  lemma DmiWriteDataRoundTrip(addr: bv32, data: bv32)
    ensures DmiData(DmiWriteCommand(addr, data)) == data <==> data < 0x4000_0000
  {
  }

  /** The command word of a DMI read: the address and the read op, no data. */
  function DmiReadCommand(addr: bv32): (c: bv64)
    ensures DmiGetOp(c) == DMI_OP_READ && DmiData(c) == 0
    ensures DmiAddr(c) == (addr & 0x3fff_ffff) as bv64
  {
    ((addr as bv64) << 34) | 1
  }

  /** Read, write and no-op command words never coincide. */
  lemma DmiCommandsDistinct(a: bv32, b: bv32, d: bv32)
    ensures DmiReadCommand(a) != DmiWriteCommand(b, d)
    ensures DmiReadCommand(a) != DMI_OP_NOP && DmiWriteCommand(b, d) != DMI_OP_NOP
  {
  }

  // ----- dmstatus -----

  /** Bits 0-3. */
  function DmstatusGetVersion(x: bv32): (v: bv32)
    ensures v <= 15 && (x ^ v) & 0xf == 0
  {
    DtmcsGetVersion(x)
  }

  function DmstatusGetConfstrptrValid(x: bv32): (v: bv32)
    ensures v <= 1 && (v == 1 <==> x & 0x10 != 0)
  {
    (x >> 4) & 0x1
  }

  function DmstatusGetAuthenticated(x: bv32): (v: bv32)
    ensures v <= 1 && (v == 1 <==> x & 0x80 != 0)
  {
    (x >> 7) & 0x1
  }

  function DmstatusGetAnyNonexistent(x: bv32): (v: bv32)
    ensures v <= 1 && (v == 1 <==> x & 0x4000 != 0)
  {
    (x >> 14) & 0x1
  }

  function DmstatusGetImpebreak(x: bv32): (v: bv32)
    ensures v <= 1 && (v == 1 <==> x & 0x40_0000 != 0)
  {
    (x >> 22) & 0x1
  }

  // ----- dmcontrol.hartsel: hartsello is bits 16-25, hartselhi is bits 6-15 -----

  /** The 20-bit hart selection: hartsello as the low ten bits, hartselhi above. */
  function DmcontrolGetHartsel(x: bv32): (r: bv32)
    ensures r <= 0xfffff
    ensures r & 0x3ff == (x >> 16) & 0x3ff && r >> 10 == (x >> 6) & 0x3ff
  {
    ((x >> 16) & 0x3ff) | (((x >> 6) & 0x3ff) << 10)
  }

  /** Sets hartsel as the code does: the third step masks `s` with
      `(0x3ff << 10) >> 4`, i.e. 0xffc0, so hartselhi receives bits 6-15 of `s`
      rather than bits 10-19. Only bits 6-25 of the word change. */
  function DmcontrolSetHartsel(t: bv32, s: bv32): (r: bv32)
    ensures r & !0x3ff_ffc0 == t & !0x3ff_ffc0
    ensures (r >> 16) & 0x3ff == s & 0x3ff && (r >> 6) & 0x3ff == (s >> 6) & 0x3ff
  {
    var cleared := t & !(0xfffff << 6);
    var withLo := cleared | ((s & 0x3ff) << 16);
    withLo | (s & ((0x3ff << 10) >> 4))
  }

  /** What the getter reads back from the setter's word: exactly `s` when `s` is
      below 64 or all ones, and not in general (64 reads back as 0x440). */
  lemma HartselReadBack(t: bv32, s: bv32)
    ensures DmcontrolGetHartsel(DmcontrolSetHartsel(t, s)) == (s & 0x3ff) | (((s >> 6) & 0x3ff) << 10)
    ensures s < 64 || s == 0xfffff ==> DmcontrolGetHartsel(DmcontrolSetHartsel(t, s)) == s
    ensures DmcontrolGetHartsel(DmcontrolSetHartsel(t, 64)) == 0x440
  {
  }

  // ----- abstractcs -----

  /** Bits 0-3. */
  function AbstractcsGetDatacount(x: bv32): (v: bv32)
    ensures v <= 15 && (x ^ v) & 0xf == 0
  {
    x & 0xf
  }

  /** Bits 8-10. */
  function AbstractcsGetCmderr(x: bv32): (v: bv32)
    ensures v <= 7 && v << 8 == x & 0x700
  {
    (x >> 8) & 0x7
  }

  /** Sets all three cmderr bits (they are write-1-to-clear). */
  function AbstractcsClearCmderr(t: bv32): (r: bv32)
    ensures AbstractcsGetCmderr(r) == 7 && r & !0x700 == t & !0x700
  {
    t | (0x7 << 8)
  }

  function AbstractcsGetBusy(x: bv32): (v: bv32)
    ensures v <= 1 && (v == 1 <==> x & 0x1000 != 0)
  {
    (x >> 12) & 0x1
  }

  /** Bits 24-28. */
  function AbstractcsGetProgbufsize(x: bv32): (v: bv32)
    ensures v <= 31 && v << 24 == x & 0x1f00_0000
  {
    (x >> 24) & 0x1f
  }

  /** The four abstractcs getters read disjoint fields that together cover
      every bit of abstractcs the engine looks at. */
  lemma AbstractcsFieldsTile(x: bv32)
    ensures AbstractcsGetDatacount(x) | (AbstractcsGetCmderr(x) << 8) | (AbstractcsGetBusy(x) << 12)
            | (AbstractcsGetProgbufsize(x) << 24) == x & 0x1f00_170f
  {
  }

  // ----- command (Access Register) -----

  function AbstractcmdSetType(t: bv32, s: bv32): (r: bv32)
    ensures (r >> 24) & 0xff == s & 0xff && r & !0xff00_0000 == t & !0xff00_0000
  {
    (t & !(0xff << 24)) | ((s & 0xff) << 24)
  }

  function AbstractcmdSetAarsize(t: bv32, s: bv32): (r: bv32)
    ensures (r >> 20) & 7 == s & 7 && r & !0x70_0000 == t & !0x70_0000
  {
    (t & !(0x7 << 20)) | ((s & 0x7) << 20)
  }

  function AbstractcmdSetAarpostincrement(t: bv32, s: bv32): (r: bv32)
    ensures (r >> 19) & 1 == s & 1 && r & !0x8_0000 == t & !0x8_0000
  {
    (t & !(0x1 << 19)) | ((s & 0x1) << 19)
  }

  function AbstractcmdSetPostexec(t: bv32, s: bv32): (r: bv32)
    ensures (r >> 18) & 1 == s & 1 && r & !0x4_0000 == t & !0x4_0000
  {
    (t & !(0x1 << 18)) | ((s & 0x1) << 18)
  }

  function AbstractcmdSetTransfer(t: bv32, s: bv32): (r: bv32)
    ensures (r >> 17) & 1 == s & 1 && r & !0x2_0000 == t & !0x2_0000
  {
    (t & !(0x1 << 17)) | ((s & 0x1) << 17)
  }

  function AbstractcmdSetWrite(t: bv32, s: bv32): (r: bv32)
    ensures (r >> 16) & 1 == s & 1 && r & !0x1_0000 == t & !0x1_0000
  {
    (t & !(0x1 << 16)) | ((s & 0x1) << 16)
  }

  function AbstractcmdSetRegno(t: bv32, s: bv32): (r: bv32)
    ensures r & 0xffff == s & 0xffff && r >> 16 == t >> 16
  {
    (t & !0xffff) | (s & 0xffff)
  }

  // ----- abstractauto.autoexecdata, bits 0-11 -----

  function AbstractautoGetData(x: bv32): (v: bv32)
    ensures v <= 0xfff && (x ^ v) & 0xfff == 0
  {
    x & 0xfff
  }

  function AbstractautoSetData(t: bv32, s: bv32): (r: bv32)
    ensures AbstractautoGetData(r) == s & 0xfff && r & !0xfff == t & !0xfff
  {
    (t & !0xfff) | (s & 0xfff)
  }
}
