/** The shared definitions of the RISC-V External Debug Support 0.13 engine:
    capacities, the DTM control and status register (section 6.1.4 of the
    standard), the DMI word layout (section 6.1.5), the enumerations, and the
    session and hart records. */
module Rvdbg {
  import opened Transport

  /** Capacity of the hart table. */
  const RVDBG_MAX_HARTS: nat := 8
  /** Words of a hart's register backup: x1 .. x31 (x0 is not backed up). */
  const GP_BACKUP_WORDS: nat := 31

  /** Op/status bits (2) plus data bits (32): where the DMI address field starts. */
  const DMI_BASE_BIT_COUNT: nat := 34

  /** Status codes reported in the op field of a DMI word. */
  const DMISTAT_NO_ERROR: bv64 := 0
  const DMISTAT_RESERVED: bv64 := 1
  const DMISTAT_OP_FAILED: bv64 := 2
  const DMISTAT_OP_INTERRUPTED: bv64 := 3

  /** Debug specification versions, as coded in the version fields. */
  const RISCV_DEBUG_VERSION_011: bv8 := 0
  const RISCV_DEBUG_VERSION_013: bv8 := 1
  const RISCV_DEBUG_VERSION_UNKNOWN: bv8 := 15

  /** JTAG instruction register codes of the DTM. */
  const IR_IDCODE: bv8 := 0x01
  const IR_DTMCS: bv8 := 0x10
  const IR_DMI: bv8 := 0x11
  const IR_BYPASS: bv8 := 0x1f

  /** Words written to dtmcs to reset the DMI (soft) or the whole DTM (hard). */
  const DTMCS_DMIRESET: bv32 := 0x10000
  const DTMCS_DMIHARDRESET: bv32 := 0x20000

  lemma ResetWordsAreDistinctBits()
    ensures DTMCS_DMIRESET == 1 << 16 && DTMCS_DMIHARDRESET == 1 << 17
    ensures DTMCS_DMIRESET & DTMCS_DMIHARDRESET == 0
  {
  }

  /** DMI_GET_OP: the op/status field of a DMI word. */
  function DmiGetOp(x: bv64): (op: bv64)
    ensures op in {DMISTAT_NO_ERROR, DMISTAT_RESERVED, DMISTAT_OP_FAILED, DMISTAT_OP_INTERRUPTED}
    ensures op == x % 4
  {
    x & 0x3
  }

  /** dtmcs.version, bits 0-3. */
  function DtmcsGetVersion(x: bv32): (v: bv32)
    ensures v <= 15 && (x ^ v) & 0xf == 0
  {
    x & 0xf
  }

  /** dtmcs.abits, bits 4-9: width of the DMI address field. */
  function DtmcsGetAbits(x: bv32): (v: bv32)
    ensures v <= 63
  {
    (x >> 4) & 0x3f
  }

  /** dtmcs.dmistat, bits 10-11. */
  function DtmcsGetDmistat(x: bv32): (v: bv32)
    ensures v <= 3
  {
    (x >> 10) & 0x3
  }

  /** dtmcs.idle, bits 12-14: run-test/idle cycles the DTM asks for. */
  function DtmcsGetIdle(x: bv32): (v: bv32)
    ensures v <= 7
  {
    (x >> 12) & 0x7
  }

  /** The four dtmcs fields are disjoint and together make up bits 0-14. */
  lemma DtmcsFieldsTile(x: bv32)
    ensures DtmcsGetVersion(x) | (DtmcsGetAbits(x) << 4) | (DtmcsGetDmistat(x) << 10)
            | (DtmcsGetIdle(x) << 12) == x & 0x7fff
  {
  }

  /** A hart record: index, hart id, and the backup of x1 .. x31 used around
      program-buffer execution. */
  class Hart {
    var idx: bv8
    var mhartid: bv8
    const backup: array<bv32>

    constructor ()
      ensures idx == 0 && mhartid == 0
      ensures fresh(backup) && backup.Length == GP_BACKUP_WORDS
    {
      idx, mhartid := 0, 0;
      backup := new bv32[GP_BACKUP_WORDS](_ => 0);
    }
  }

  /** The session fields the engine reads and assigns, as one value: what the
      reference definitions of the operations take and give back. */
  datatype Session = Session(
    debugVersion: bv8,
    idle: bv8,
    abits: bv8,
    progbufSize: bv8,
    impebreak: bool,
    abstractDataCount: bv8,
    supportAutoexecData: bool,
    numHarts: nat,
    currentHart: Option<nat>,
    readCsrInstalled: bool)

  /** The session with one debug module (RVDBGv013_DMI_t). `readCsrInstalled` stands
      for the `read_csr` slot being set; `currentHart` is the index of the hart record
      `current_hart` points to (None for a null pointer). */
  class Dmi {
    const link: Link
    const idcode: bv32
    var debugVersion: bv8
    var idle: bv8
    var abits: bv8
    var progbufSize: bv8
    var impebreak: bool
    var abstractDataCount: bv8
    var supportAutoexecData: bool
    const harts: seq<Hart>
    var numHarts: nat
    var currentHart: Option<nat>
    var readCsrInstalled: bool

    ghost predicate Valid()
      reads this
    {
      && |harts| == RVDBG_MAX_HARTS
      && (forall i :: 0 <= i < |harts| ==> harts[i].backup.Length == GP_BACKUP_WORDS)
      && numHarts <= RVDBG_MAX_HARTS
      && (currentHart.Some? ==> currentHart.value < |harts|)
    }

    /** The current values of the session fields. */
    function Snapshot(): Session
      reads this
    {
      Session(debugVersion, idle, abits, progbufSize, impebreak, abstractDataCount,
              supportAutoexecData, numHarts, currentHart, readCsrInstalled)
    }

    /** A zero-initialised session on the given transport. */
    constructor (link: Link, idcode: bv32)
      ensures Valid()
      ensures this.link == link && this.idcode == idcode
      ensures debugVersion == 0 && idle == 0 && abits == 0
      ensures progbufSize == 0 && !impebreak && abstractDataCount == 0 && !supportAutoexecData
      ensures numHarts == 0 && currentHart == None && !readCsrInstalled
      ensures forall i :: 0 <= i < |harts| ==> fresh(harts[i]) && fresh(harts[i].backup)
    {
      var hs: seq<Hart> := [];
      while |hs| < RVDBG_MAX_HARTS
        invariant |hs| <= RVDBG_MAX_HARTS
        invariant forall i :: 0 <= i < |hs| ==> hs[i].backup.Length == GP_BACKUP_WORDS
        invariant forall i :: 0 <= i < |hs| ==> fresh(hs[i]) && fresh(hs[i].backup)
      {
        var h := new Hart();
        hs := hs + [h];
      }
      this.link := link;
      this.idcode := idcode;
      debugVersion, idle, abits := 0, 0, 0;
      progbufSize, impebreak, abstractDataCount, supportAutoexecData := 0, false, 0, false;
      harts := hs;
      numHarts, currentHart, readCsrInstalled := 0, None, false;
    }
  }
}
