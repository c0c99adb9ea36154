/*
 * Reference definitions of the debug-module operations of rvdbg013.c.
 *
 * Each operation is a function of the replies still scripted on the transport
 * (and of the session fields it reads). It gives back a Run: the operation's
 * result, the DMI scans it issued in order, and the replies it left unconsumed.
 * The imperative engine in module Rvdbg013 is proved to issue exactly these
 * scans and to return exactly these results; module ProtocolProps proves what
 * the operations promise.
 *
 * Return codes follow the C code: -1 is a failure, and the abstract command run
 * returns the non-negative cmderr it found.
 */
module Protocol {
  import opened Transport
  import opened Rvdbg
  import opened DmFields
  import opened Rv32iIsa

  // ----- classifying scans -----

  /** A scan that writes the DMI register at `addr`. */
  predicate WritesTo(e: Event, addr: bv32)
  {
    e.Scan? && DmiGetOp(e.cmd) == DMI_OP_WRITE && DmiAddr(e.cmd) == addr as bv64
  }

  /** A command word that a register access may issue: a no-op, or an access
      to data0, abstractcs or command. */
  predicate RegisterAccessCmd(c: bv64)
  {
    c == DMI_OP_NOP || DmiAddr(c) == 0x04 || DmiAddr(c) == 0x16 || DmiAddr(c) == 0x17
  }

  /** Every event is a scan that a register access may issue. */
  predicate RegisterAccessScans(events: seq<Event>)
  {
    forall e | e in events :: e.Scan? && RegisterAccessCmd(e.cmd)
  }

  /** No scan writes the command register. */
  predicate NoCommandWrite(events: seq<Event>)
  {
    forall e | e in events :: !WritesTo(e, DMI_REG_ABSTRACT_CMD)
  }

  /** Every write to the command register carries `command`. */
  predicate CommandWritesOnly(events: seq<Event>, command: bv32)
  {
    forall e | e in events && WritesTo(e, DMI_REG_ABSTRACT_CMD) ::
      e.cmd == DmiWriteCommand(DMI_REG_ABSTRACT_CMD, command)
  }

  /** The last event of a non-empty run. */
  function Last(events: seq<Event>): Event
    requires events != []
  {
    events[|events| - 1]
  }

  lemma LastOfConcat(a: seq<Event>, b: seq<Event>)
    requires b != []
    ensures Last(a + b) == Last(b)
  {
  }

  // ----- DMI accesses -----

  /** rvdbg_dmi_write: one scan carrying the write command word. */
  function DmiWrite(s: seq<Reply>, addr: bv32, data: bv32): (o: Run<bool>)
    ensures o.value <==> s != [] && s[0].Ack?
    ensures o.events == [Scan(DmiWriteCommand(addr, data), if o.value then s[0] else Fail)]
    ensures o.value ==> o.rest == s[1..]
    ensures |o.rest| <= |s|
  {
    var a := Access(s, DmiWriteCommand(addr, data));
    Run(a.value.Ack?, a.events, a.rest)
  }

  /** rvdbg_dmi_read: the read command, then a no-op scan that brings back the
      data. The no-op is not issued when the read command fails. */
  function DmiRead(s: seq<Reply>, addr: bv32): (o: Run<Option<bv32>>)
    ensures o.value.Some? <==> |s| >= 2 && s[0].Ack? && s[1].Ack?
    ensures o.value.Some? ==>
      && o.value.value == s[1].data
      && o.events == [Scan(DmiReadCommand(addr), s[0]), Scan(DMI_OP_NOP, s[1])]
      && o.rest == s[2..]
    ensures (s == [] || s[0].Fail?) ==> o.events == [Scan(DmiReadCommand(addr), Fail)]
    ensures |o.rest| <= |s|
  {
    var a := Access(s, DmiReadCommand(addr));
    if a.value.Fail? then Run(None, a.events, a.rest)
    else
      var b := Access(a.rest, DMI_OP_NOP);
      Run(if b.value.Ack? then Some(b.value.data) else None, a.events + b.events, b.rest)
  }

  /** The busy wait on abstractcs (do { read } while busy): the first word read
      with the busy bit clear, or None when a read fails. */
  function PollAbstractcs(s: seq<Reply>): (o: Run<Option<bv32>>)
    ensures o.value.Some? ==> AbstractcsGetBusy(o.value.value) == 0
    ensures RegisterAccessScans(o.events) && NoCommandWrite(o.events)
    ensures |o.rest| <= |s|
    decreases |s|
  {
    var r := DmiRead(s, DMI_REG_ABSTRACT_CS);
    if r.value.Some? && AbstractcsGetBusy(r.value.value) == 1 then
      Then(r.events, PollAbstractcs(r.rest))
    else r
  }

  /** rvdbg_abstract_command_run: write the command, wait until not busy, and
      on a command error clear it; on the busy error start again. */
  function AbstractRun(s: seq<Reply>, command: bv32): (o: Run<int>)
    ensures o.value == -1 || (0 <= o.value <= 7 && o.value != 1)
    ensures RegisterAccessScans(o.events) && CommandWritesOnly(o.events, command)
    ensures |o.rest| <= |s|
    decreases |s|
  {
    var w := DmiWrite(s, DMI_REG_ABSTRACT_CMD, command);
    if !w.value then Run(-1, w.events, w.rest)
    else
      var p := PollAbstractcs(w.rest);
      if p.value.None? then Run(-1, w.events + p.events, p.rest)
      else
        var cmderr := AbstractcsGetCmderr(p.value.value);
        if cmderr == ABSTRACTCMD_ERR_NONE then Run(0, w.events + p.events, p.rest)
        else
          var c := DmiWrite(p.rest, DMI_REG_ABSTRACT_CS, AbstractcsClearCmderr(0));
          if !c.value then Run(-1, w.events + p.events + c.events, c.rest)
          else if cmderr == ABSTRACTCMD_ERR_BUSY then
            Then(w.events + p.events + c.events, AbstractRun(c.rest, command))
          else Run(CmdErrCode(cmderr), w.events + p.events + c.events, c.rest)
  }

  /** A 3-bit cmderr as the int the run returns. */
  function CmdErrCode(cmderr: bv32): (code: int)
    requires cmderr <= 7
    ensures 0 <= code <= 7 && code == cmderr as int
    ensures code == 0 <==> cmderr == 0
    ensures code == 1 <==> cmderr == 1
  {
    cmderr as int
  }

  // ----- Access Register commands -----

  /** The command reading GPR/CSR `reg` into data0: a 32-bit transfer, with
      post-increment exactly in the INIT state. */
  function ReadRegisterCommand(reg: bv16, astate: AutoexecState): (command: bv32)
    ensures command == 0x22_0000 | (reg as bv32) | (if astate == AutoexecInit then 0x8_0000 else 0)
  {
    var c := AbstractcmdSetType(0, ABSTRACTCMD_TYPE_ACCESS_REGISTER);
    var c := AbstractcmdSetAarsize(c, BUS_ACCESS_32);
    var c := AbstractcmdSetTransfer(c, 1);
    var c := AbstractcmdSetRegno(c, reg as bv32);
    AbstractcmdSetAarpostincrement(c, if astate == AutoexecInit then 1 else 0)
  }

  /** The command writing data0 into `reg`: as the read command, plus the write bit. */
  function WriteRegisterCommand(reg: bv16, astate: AutoexecState): (command: bv32)
    ensures command == 0x23_0000 | (reg as bv32) | (if astate == AutoexecInit then 0x8_0000 else 0)
  {
    var c := AbstractcmdSetType(0, ABSTRACTCMD_TYPE_ACCESS_REGISTER);
    var c := AbstractcmdSetAarsize(c, BUS_ACCESS_32);
    var c := AbstractcmdSetTransfer(c, 1);
    var c := AbstractcmdSetWrite(c, 1);
    var c := AbstractcmdSetRegno(c, reg as bv32);
    AbstractcmdSetAarpostincrement(c, if astate == AutoexecInit then 1 else 0)
  }

  /** The command that only runs the program buffer (postexec, no transfer). */
  function ExecCommand(): (command: bv32)
    ensures command == 0x4_0000
  {
    var c := AbstractcmdSetType(0, ABSTRACTCMD_TYPE_ACCESS_REGISTER);
    AbstractcmdSetPostexec(c, 1)
  }

  // ----- single registers -----

  /** rvdbg_read_single_reg: the status (0 or -1) and the word stored to *out,
      if one was. Outside CONT the command is run first; in CONT data0 is read
      and abstractcs is then polled until not busy. */
  function ReadSingle(s: seq<Reply>, reg: bv16, astate: AutoexecState): (o: Run<(int, Option<bv32>)>)
    ensures o.value.0 == 0 || o.value.0 == -1
    ensures o.value.0 == 0 ==> o.value.1.Some?
    ensures RegisterAccessScans(o.events)
    ensures astate == AutoexecCont ==> NoCommandWrite(o.events)
    ensures CommandWritesOnly(o.events, ReadRegisterCommand(reg, astate))
    ensures |o.rest| <= |s|
  {
    if astate != AutoexecCont then
      var a := AbstractRun(s, ReadRegisterCommand(reg, astate));
      if a.value != 0 then Run((-1, None), a.events, a.rest)
      else Then(a.events, ReadData(a.rest, astate))
    else ReadData(s, astate)
  }

  /** The part of rvdbg_read_single_reg after the command: read data0 and, in
      CONT, wait until abstractcs is not busy. */
  function ReadData(s: seq<Reply>, astate: AutoexecState): (o: Run<(int, Option<bv32>)>)
    ensures o.value.0 == 0 || o.value.0 == -1
    ensures o.value.0 == 0 ==> o.value.1.Some?
    ensures o.value.1.Some? <==> |s| >= 2 && s[0].Ack? && s[1].Ack?
    ensures o.value.1.Some? ==>
      && o.value.1.value == s[1].data
      && |o.events| >= 2 && o.events[0] == Scan(DmiReadCommand(DMI_REG_ABSTRACTDATA_BEGIN), s[0])
      && o.events[1] == Scan(DMI_OP_NOP, s[1])
    ensures astate != AutoexecCont ==> (o.value.0 == 0 <==> o.value.1.Some?)
    ensures astate != AutoexecCont && o.value.1.Some? ==> |o.events| == 2 && o.rest == s[2..]
    ensures astate == AutoexecCont && o.value.1.Some? ==>
      (o.value.0 == 0 <==> PollAbstractcs(s[2..]).value.Some?)
    ensures RegisterAccessScans(o.events) && NoCommandWrite(o.events)
    ensures |o.rest| <= |s|
  {
    var d := DmiRead(s, DMI_REG_ABSTRACTDATA_BEGIN);
    if d.value.None? then Run((-1, None), d.events, d.rest)
    else if astate == AutoexecCont then
      var p := PollAbstractcs(d.rest);
      Run((if p.value.None? then -1 else 0, d.value), d.events + p.events, p.rest)
    else Run((0, d.value), d.events, d.rest)
  }

  /** rvdbg_write_single_reg: data0 is written first; outside CONT the command
      is run, in CONT abstractcs is polled until not busy. */
  function WriteSingle(s: seq<Reply>, reg: bv16, value: bv32, astate: AutoexecState): (o: Run<int>)
    ensures o.value == 0 || o.value == -1
    ensures RegisterAccessScans(o.events)
    ensures astate == AutoexecCont ==> NoCommandWrite(o.events)
    ensures CommandWritesOnly(o.events, WriteRegisterCommand(reg, astate))
    ensures |o.rest| <= |s|
  {
    var w := DmiWrite(s, DMI_REG_ABSTRACTDATA_BEGIN, value);
    if !w.value then Run(-1, w.events, w.rest)
    else if astate != AutoexecCont then
      var a := AbstractRun(w.rest, WriteRegisterCommand(reg, astate));
      Run(if a.value != 0 then -1 else 0, w.events + a.events, a.rest)
    else
      var p := PollAbstractcs(w.rest);
      Run(if p.value.None? then -1 else 0, w.events + p.events, p.rest)
  }

  // ----- batches -----

  /** The autoexec state after a register access succeeded: INIT becomes CONT. */
  function NextState(astate: AutoexecState): AutoexecState
  {
    if astate == AutoexecInit then AutoexecCont else astate
  }

  /** Whether a batch of `len` registers arms autoexecdata. */
  predicate Arms(autoexec: bool, len: nat)
  {
    len > 1 && autoexec
  }

  /** values after a register read stored through &values[i]: only a word
      that was read is stored. */
  function StoreRead(values: seq<bv32>, i: nat, out: Option<bv32>): (values': seq<bv32>)
    requires i < |values|
    ensures |values'| == |values|
    ensures out.Some? ==> values'[i] == out.value
    ensures out.None? ==> values' == values
    ensures forall j | 0 <= j < |values| && j != i :: values'[j] == values[j]
  {
    if out.Some? then values[i := out.value] else values
  }

  /** The loop of rvdbg_read_regs from index i, where `reg` is the register of
      index i (reg_id + i, modulo 2^16, as the 16-bit parameter receives it):
      the status, the values array afterwards and the final autoexec state. */
  function ReadLoop(s: seq<Reply>, reg: bv16, values: seq<bv32>, i: nat, len: nat,
                    astate: AutoexecState): (o: Run<(int, seq<bv32>, AutoexecState)>)
    requires len <= |values|
    ensures o.value.0 == 0 || o.value.0 == -1
    ensures |o.value.1| == |values|
    ensures (o.value.2 == AutoexecNone) <==> (astate == AutoexecNone)
    ensures RegisterAccessScans(o.events)
    ensures astate == AutoexecCont ==> NoCommandWrite(o.events)
    ensures astate == AutoexecInit ==> CommandWritesOnly(o.events, ReadRegisterCommand(reg, AutoexecInit))
    ensures |o.rest| <= |s|
    decreases len - i
  {
    if i >= len then Run((0, values, astate), [], s)
    else
      var r := ReadSingle(s, reg, astate);
      var values' := StoreRead(values, i, r.value.1);
      if r.value.0 < 0 then Run((-1, values', astate), r.events, r.rest)
      else Then(r.events, ReadLoop(r.rest, reg + 1, values', i + 1, len, NextState(astate)))
  }

  /** The loop from index i stores only into values[i .. len). */
  lemma {:induction false} ReadLoopKeepsOutside(s: seq<Reply>, reg: bv16, values: seq<bv32>, i: nat, len: nat,
                                                astate: AutoexecState)
    requires i <= len <= |values|
    ensures var o := ReadLoop(s, reg, values, i, len, astate);
      o.value.1[..i] == values[..i] && o.value.1[len..] == values[len..]
    decreases len - i
  {
    if i < len {
      var r := ReadSingle(s, reg, astate);
      var values' := StoreRead(values, i, r.value.1);
      SlicesAroundUpdate(values, values', i, len);
      if r.value.0 >= 0 {
        var o' := ReadLoop(r.rest, reg + 1, values', i + 1, len, NextState(astate));
        ReadLoopKeepsOutside(r.rest, reg + 1, values', i + 1, len, NextState(astate));
        PrefixOfPrefix(o'.value.1, values', i, i + 1);
      }
    }
  }

  /** Changing at most index i keeps the prefix before i and the suffix from len. */
  lemma SlicesAroundUpdate(values: seq<bv32>, values': seq<bv32>, i: nat, len: nat)
    requires i < len <= |values| == |values'|
    requires forall j | 0 <= j < |values| && j != i :: values'[j] == values[j]
    ensures values'[..i] == values[..i] && values'[len..] == values[len..]
  {
  }

  lemma PrefixOfPrefix(a: seq<bv32>, b: seq<bv32>, m: nat, n: nat)
    requires m <= n <= |a| && n <= |b| && a[..n] == b[..n]
    ensures a[..m] == b[..m]
  {
    assert a[..m] == a[..n][..m];
    assert b[..m] == b[..n][..m];
  }

  /** The loop of rvdbg_write_regs from index i, where `reg` is the register of
      index i: the status and the final state. */
  function WriteLoop(s: seq<Reply>, reg: bv16, values: seq<bv32>, i: nat, len: nat,
                     astate: AutoexecState): (o: Run<(int, AutoexecState)>)
    requires len <= |values|
    ensures o.value.0 == 0 || o.value.0 == -1
    ensures (o.value.1 == AutoexecNone) <==> (astate == AutoexecNone)
    ensures RegisterAccessScans(o.events)
    ensures astate == AutoexecCont ==> NoCommandWrite(o.events)
    ensures astate == AutoexecInit ==> CommandWritesOnly(o.events, WriteRegisterCommand(reg, AutoexecInit))
    ensures |o.rest| <= |s|
    decreases len - i
  {
    if i >= len then Run((0, astate), [], s)
    else
      var w := WriteSingle(s, reg, values[i], astate);
      if w.value < 0 then Run((-1, astate), w.events, w.rest)
      else Then(w.events, WriteLoop(w.rest, reg + 1, values, i + 1, len, NextState(astate)))
  }

  /** The autoexec word armed before a batch (0xaaa) and written after it (0). */
  const ARM_WORD: bv32 := AbstractautoSetData(0, ABSTRACTAUTO_SOME_PATTEN)
  const DISARM_WORD: bv32 := AbstractautoSetData(0, 0)

  /** rvdbg_read_regs. */
  function ReadRegs(s: seq<Reply>, autoexec: bool, reg: bv16, values: seq<bv32>, len: nat):
    (o: Run<(int, seq<bv32>)>)
    requires len <= |values|
    ensures o.value.0 == 0 || o.value.0 == -1
    ensures |o.value.1| == |values|
    ensures |o.rest| <= |s|
  {
    if Arms(autoexec, len) then
      var w := DmiWrite(s, DMI_REG_ABSTRACT_AUTOEXEC, ARM_WORD);
      if !w.value then Run((-1, values), w.events, w.rest)
      else Then(w.events, ReadBatch(w.rest, reg, values, len, AutoexecInit))
    else ReadBatch(s, reg, values, len, AutoexecNone)
  }

  /** The loop of rvdbg_read_regs and the reset of autoexec that follows it. */
  function ReadBatch(s: seq<Reply>, reg: bv16, values: seq<bv32>, len: nat, astate: AutoexecState):
    (o: Run<(int, seq<bv32>)>)
    requires len <= |values|
    ensures o.value.0 == 0 || o.value.0 == -1
    ensures |o.value.1| == |values|
    ensures |o.rest| <= |s|
  {
    var l := ReadLoop(s, reg, values, 0, len, astate);
    if l.value.2 != AutoexecNone then
      var d := DmiWrite(l.rest, DMI_REG_ABSTRACT_AUTOEXEC, DISARM_WORD);
      Run((if d.value then l.value.0 else -1, l.value.1), l.events + d.events, d.rest)
    else Run((l.value.0, l.value.1), l.events, l.rest)
  }

  /** rvdbg_write_regs. */
  function WriteRegs(s: seq<Reply>, autoexec: bool, reg: bv16, values: seq<bv32>, len: nat): (o: Run<int>)
    requires len <= |values|
    ensures o.value == 0 || o.value == -1
    ensures |o.rest| <= |s|
  {
    if Arms(autoexec, len) then
      var w := DmiWrite(s, DMI_REG_ABSTRACT_AUTOEXEC, ARM_WORD);
      if !w.value then Run(-1, w.events, w.rest)
      else Then(w.events, WriteBatch(w.rest, reg, values, len, AutoexecInit))
    else WriteBatch(s, reg, values, len, AutoexecNone)
  }

  /** The loop of rvdbg_write_regs and the reset of autoexec that follows it. */
  function WriteBatch(s: seq<Reply>, reg: bv16, values: seq<bv32>, len: nat, astate: AutoexecState):
    (o: Run<int>)
    requires len <= |values|
    ensures o.value == 0 || o.value == -1
    ensures |o.rest| <= |s|
  {
    var l := WriteLoop(s, reg, values, 0, len, astate);
    if l.value.1 != AutoexecNone then
      var d := DmiWrite(l.rest, DMI_REG_ABSTRACT_AUTOEXEC, DISARM_WORD);
      Run(if d.value then l.value.0 else -1, l.events + d.events, d.rest)
    else Run(l.value.0, l.events, l.rest)
  }

  // ----- program buffer -----

  /** How many words the program buffer takes: progbufsize, plus the implicit
      ebreak slot. */
  function ProgbufCapacity(progbufSize: bv8, impebreak: bool): nat
  {
    progbufSize as nat + (if impebreak then 1 else 0)
  }

  /** rvdbg_progbuf_upload: reject a buffer longer than the capacity, then
      write word i to progbuf i for i from 0x20 up to the length. */
  function Upload(s: seq<Reply>, progbufSize: bv8, impebreak: bool, buffer: seq<bv32>): (o: Run<int>)
    requires |buffer| < 0x100
    ensures o.value == 0 || o.value == -1
    ensures |o.rest| <= |s|
  {
    if |buffer| > ProgbufCapacity(progbufSize, impebreak) then Run(-1, [], s)
    else UploadLoop(s, buffer, DMI_REG_PROGRAMBUF_BEGIN as nat, DMI_REG_PROGRAMBUF_BEGIN + DMI_REG_PROGRAMBUF_BEGIN)
  }

  /** The upload loop from index i, where `addr` is the DMI address the loop
      computes for index i, DMI_REG_PROGRAMBUF_BEGIN + i. */
  function UploadLoop(s: seq<Reply>, buffer: seq<bv32>, i: nat, addr: bv32): (o: Run<int>)
    requires |buffer| < 0x100
    ensures o.value == 0 || o.value == -1
    ensures |o.rest| <= |s|
    decreases |buffer| - i
  {
    if i >= |buffer| then Run(0, [], s)
    else
      var w := DmiWrite(s, addr, buffer[i]);
      if !w.value then Run(-1, w.events, w.rest)
      else Then(w.events, UploadLoop(w.rest, buffer, i + 1, addr + 1))
  }

  /** The first argument register, x1, as an abstract register number. */
  const GPR_X1: bv16 := HART_REG_GPR_BEGIN + 1

  /** rvdbg_progbuf_exec: back up x1.. of the larger argument count into the
      current hart's backup, write the in-arguments, run the program buffer.
      The status and the backup afterwards. */
  function Exec(s: seq<Reply>, autoexec: bool, backup: seq<bv32>, args: seq<bv32>,
                argin: nat, argout: nat): (o: Run<(int, seq<bv32>)>)
    requires |backup| == GP_BACKUP_WORDS && argin <= |args|
    ensures o.value.0 == -1
    ensures |o.value.1| == |backup|
    ensures |o.rest| <= |s|
  {
    var backupLen := if argin > argout then argin else argout;
    if backupLen > 31 then Run((-1, backup), [], s)
    else
      var b := ReadRegs(s, autoexec, GPR_X1, backup, backupLen);
      if b.value.0 < 0 then Run((-1, b.value.1), b.events, b.rest)
      else
        var w := WriteRegs(b.rest, autoexec, GPR_X1, args, argin);
        if w.value < 0 then Run((-1, b.value.1), b.events + w.events, w.rest)
        else
          var a := AbstractRun(w.rest, ExecCommand());
          // a failed run returns -1, and so does every case of the switch on cmderr
          Run((-1, b.value.1), b.events + w.events + a.events, a.rest)
  }

  /** The one-instruction program that reads a CSR into x1. */
  function CsrReadProgram(reg: bv16): (program: seq<bv32>)
    ensures |program| == 1 && program[0] == 0x20b3 | (((reg as bv32) & 0x7ff) << 20)
  {
    [Csrrs(1, reg as bv32, 0)]
  }

  /** rvdbg_read_csr_progbuf: upload the CSR read, then execute it with no
      in-argument and one out-argument. */
  function ReadCsr(s: seq<Reply>, c: Session, backup: seq<bv32>, reg: bv16, value: seq<bv32>):
    (o: Run<(int, seq<bv32>)>)
    requires |backup| == GP_BACKUP_WORDS
    ensures o.value.0 == -1
    ensures |o.value.1| == |backup|
    ensures |o.rest| <= |s|
  {
    var u := Upload(s, c.progbufSize, c.impebreak, CsrReadProgram(reg));
    if u.value < 0 then Run((-1, backup), u.events, u.rest)
    else
      var e := Exec(u.rest, c.supportAutoexecData, backup, value, 0, 1);
      Then(u.events, Run((if e.value.0 < 0 then -1 else 0, e.value.1), e.events, e.rest))
  }

  // ----- session set-up -----

  /** rvdbg_set_debug_version: only version 0.13 is accepted and recorded. */
  function SetDebugVersion(c: Session, version: bv8): (r: (int, Session))
    ensures r.0 == 0 <==> version == RISCV_DEBUG_VERSION_013
    ensures r.1 == c.(debugVersion := if r.0 == 0 then version else c.debugVersion)
  {
    if version == RISCV_DEBUG_VERSION_013 then (0, c.(debugVersion := version))
    else (-1, c)
  }

  /** rvdbg_select_mem_and_csr_access_impl: read abstractcs, record progbufsize
      and datacount, validate them, install the program-buffer CSR read, then
      probe autoexecdata. */
  function Negotiate(s: seq<Reply>, c: Session): (o: Run<(int, Session)>)
    ensures o.value.0 == 0 || o.value.0 == -1
    ensures o.value.1 == c.(progbufSize := o.value.1.progbufSize,
                            abstractDataCount := o.value.1.abstractDataCount,
                            readCsrInstalled := o.value.1.readCsrInstalled,
                            supportAutoexecData := o.value.1.supportAutoexecData)
    ensures |o.rest| <= |s|
  {
    var r := DmiRead(s, DMI_REG_ABSTRACT_CS);
    if r.value.None? then Run((-1, c), r.events, r.rest)
    else
      var cs := r.value.value;
      var c1 := c.(progbufSize := AbstractcsGetProgbufsize(cs) as bv8,
                   abstractDataCount := AbstractcsGetDatacount(cs) as bv8);
      if c1.abstractDataCount < 1 || c1.abstractDataCount > 12 then Run((-1, c1), r.events, r.rest)
      else if c1.progbufSize > 16 then Run((-1, c1), r.events, r.rest)
      else if c1.progbufSize == 1 && !c1.impebreak then Run((-1, c1), r.events, r.rest)
      else
        var c2 := if c1.progbufSize > 0 then c1.(readCsrInstalled := true) else c1;
        Then(r.events, ProbeAutoexec(r.rest, c2))
  }

  /** The autoexecdata probe of rvdbg_select_mem_and_csr_access_impl: write 0xaaa
      to abstractauto, read it back, and write the read-back word with its data
      field cleared. */
  function ProbeAutoexec(s: seq<Reply>, c: Session): (o: Run<(int, Session)>)
    ensures o.value.0 == 0 || o.value.0 == -1
    ensures o.value.1 == c.(supportAutoexecData := o.value.1.supportAutoexecData)
    ensures |o.rest| <= |s|
  {
    var w := DmiWrite(s, DMI_REG_ABSTRACT_AUTOEXEC, ARM_WORD);
    if !w.value then Run((-1, c), w.events, w.rest)
    else
      var b := DmiRead(w.rest, DMI_REG_ABSTRACT_AUTOEXEC);
      if b.value.None? then Run((-1, c), w.events + b.events, b.rest)
      else
        var auto := b.value.value;
        var c1 := if AbstractautoGetData(auto) == ABSTRACTAUTO_SOME_PATTEN
                  then c.(supportAutoexecData := true) else c;
        var z := DmiWrite(b.rest, DMI_REG_ABSTRACT_AUTOEXEC, AbstractautoSetData(auto, 0));
        Run((if z.value then 0 else -1, c1), w.events + b.events + z.events, z.rest)
  }

  /** The value of a 32-bit counter started at 0 and incremented `i` times:
      what the C loop's hart index holds after `i` passes. */
  function Wrap32(i: nat): bv32
  {
    if i == 0 then 0 else Wrap32(i - 1) + 1
  }

  /** One step of rvdbg_discover_harts: select hart idx, read dmstatus. */
  function HartStatus(s: seq<Reply>, idx: nat): (o: Run<Option<bv32>>)
    ensures o.events != []
    ensures |o.rest| <= |s|
  {
    var w := DmiWrite(s, DMI_REG_DMCONTROL, DmcontrolSetHartsel(0, Wrap32(idx)));
    if !w.value then Run(None, w.events, w.rest)
    else Then(w.events, DmiRead(w.rest, DMI_REG_DMSTATUS))
  }

  /** The loop of rvdbg_discover_harts from index idx with num harts counted:
      the status, the exit index and the count. */
  function ProbeHarts(s: seq<Reply>, hartsellen: nat, idx: nat, num: nat): (o: Run<(int, nat, nat)>)
    ensures o.value.0 == 0 || o.value.0 == -1
    ensures num <= o.value.2 && o.value.1 - idx == o.value.2 - num
    ensures num <= RVDBG_MAX_HARTS ==> o.value.2 <= RVDBG_MAX_HARTS
    ensures idx <= hartsellen + 1 ==> o.value.1 <= hartsellen + 1
    ensures |o.rest| <= |s|
    decreases RVDBG_MAX_HARTS - num
  {
    if idx > hartsellen || num >= RVDBG_MAX_HARTS then Run((0, idx, num), [], s)
    else
      var r := HartStatus(s, idx);
      if r.value.None? then Run((-1, idx, num), r.events, r.rest)
      else if DmstatusGetAnyNonexistent(r.value.value) == 1 then Run((0, idx, num), r.events, r.rest)
      else
        Then(r.events, ProbeHarts(r.rest, hartsellen, idx + 1, num + 1))
  }

  /** One index of the hart loop, within hartsellen and with room in the table. */
  lemma ProbeHartsUnfold(s: seq<Reply>, hartsellen: nat, idx: nat, num: nat)
    requires idx <= hartsellen && num < RVDBG_MAX_HARTS
    ensures var h := HartStatus(s, idx);
      ProbeHarts(s, hartsellen, idx, num)
      == if h.value.None? then Run((-1, idx, num), h.events, h.rest)
         else if DmstatusGetAnyNonexistent(h.value.value) == 1 then Run((0, idx, num), h.events, h.rest)
         else Then(h.events, ProbeHarts(h.rest, hartsellen, idx + 1, num + 1))
  {
  }

  /** rvdbg_discover_harts: find hartsellen by writing all ones to hartsel and
      reading it back, then count the harts and select one. */
  function Discover(s: seq<Reply>, c: Session): (o: Run<(int, Session)>)
    ensures o.value.0 == 0 || o.value.0 == -1
    ensures o.value.1 == c.(numHarts := o.value.1.numHarts, currentHart := o.value.1.currentHart)
    ensures |o.rest| <= |s|
  {
    var w := DmiWrite(s, DMI_REG_DMCONTROL, DmcontrolSetHartsel(0, 0xfffff));
    if !w.value then Run((-1, c), w.events, w.rest)
    else
      var r := DmiRead(w.rest, DMI_REG_DMCONTROL);
      if r.value.None? then Run((-1, c), w.events + r.events, r.rest)
      else Then(w.events + r.events, CountHarts(r.rest, c, DmcontrolGetHartsel(r.value.value) as nat))
  }

  /** The rest of rvdbg_discover_harts: count the harts from index 0, select
      the index the count stopped at, and point the current hart at the first
      record. The count is recorded even when a scan fails. */
  function CountHarts(s: seq<Reply>, c: Session, hartsellen: nat): (o: Run<(int, Session)>)
    ensures o.value.0 == 0 || o.value.0 == -1
    ensures o.value.1 == c.(numHarts := o.value.1.numHarts, currentHart := o.value.1.currentHart)
    ensures |o.rest| <= |s|
  {
    var p := ProbeHarts(s, hartsellen, 0, c.numHarts);
    var c1 := c.(numHarts := p.value.2);
    if p.value.0 < 0 then Run((-1, c1), p.events, p.rest)
    else
      var f := DmiWrite(p.rest, DMI_REG_DMCONTROL, DmcontrolSetHartsel(0, Wrap32(p.value.1)));
      if !f.value then Run((-1, c1), p.events + f.events, f.rest)
      else Run((0, c1.(currentHart := Some(0))), p.events + f.events, f.rest)
  }

  /** The scans of the DTM reset hook: select dtmcs, shift the reset word. */
  function ResetEvents(hard: bool): (events: seq<Event>)
    ensures events == [WriteIr(IR_DTMCS), ShiftDr(if hard then DTMCS_DMIHARDRESET else DTMCS_DMIRESET)]
  {
    [WriteIr(IR_DTMCS), ShiftDr(if hard then DTMCS_DMIHARDRESET else DTMCS_DMIRESET)]
  }

  /** What rvdbg_dtm_init does with the DMSTATUS version when it differs from
      the recorded one: it hands the raw field to rvdbg_set_debug_version and
      ignores the result. */
  function AdoptDmstatusVersion(c: Session, version: bv8): Session
  {
    if version != 0 && version - 1 != c.debugVersion && version != RISCV_DEBUG_VERSION_UNKNOWN
    then SetDebugVersion(c, version).1
    else c
  }

  /** rvdbg_dtm_init: hard reset, then bring up the debug module. */
  function Init(s: seq<Reply>, c: Session): (o: Run<(int, Session)>)
    ensures o.value.0 == 0 || o.value.0 == -1
    ensures |o.rest| <= |s|
  {
    Then(ResetEvents(true), Attach(s, c))
  }

  /** rvdbg_dtm_init after the reset: read dmstatus, require authentication,
      read nextdm, record impebreak, then configure. */
  function Attach(s: seq<Reply>, c: Session): (o: Run<(int, Session)>)
    ensures o.value.0 == 0 || o.value.0 == -1
    ensures |o.rest| <= |s|
  {
    var r := DmiRead(s, DMI_REG_DMSTATUS);
    if r.value.None? then Run((-1, c), r.events, r.rest)
    else
      var dmstatus := r.value.value;
      var c1 := AdoptDmstatusVersion(c, DmstatusGetVersion(dmstatus) as bv8);
      if DmstatusGetAuthenticated(dmstatus) == 0 then Run((-1, c1), r.events, r.rest)
      else Then(r.events, AttachAuthenticated(r.rest, c1, dmstatus))
  }

  /** rvdbg_dtm_init once authenticated: read nextdm, record impebreak from
      dmstatus, then configure. */
  function AttachAuthenticated(s: seq<Reply>, c: Session, dmstatus: bv32): (o: Run<(int, Session)>)
    ensures o.value.0 == 0 || o.value.0 == -1
    ensures |o.rest| <= |s|
  {
    var n := DmiRead(s, DMI_REG_NEXTDM_ADDR);
    if n.value.None? then Run((-1, c), n.events, n.rest)
    else Then(n.events, Configure(n.rest, c.(impebreak := DmstatusGetImpebreak(dmstatus) == 1)))
  }

  /** The end of rvdbg_dtm_init: negotiate the access method, then discover the
      harts. */
  function Configure(s: seq<Reply>, c: Session): (o: Run<(int, Session)>)
    ensures o.value.0 == 0 || o.value.0 == -1
    ensures o.value.1.debugVersion == c.debugVersion && o.value.1.impebreak == c.impebreak
    ensures |o.rest| <= |s|
  {
    var g := Negotiate(s, c);
    if g.value.0 < 0 then Run((-1, g.value.1), g.events, g.rest)
    else
      var d := Discover(g.rest, g.value.1);
      Then(g.events, d)
  }
}
