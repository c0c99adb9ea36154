/*
 * The RISC-V External Debug Support 0.13 engine as the C code runs it: a
 * session object (Rvdbg.Dmi) whose fields the operations assign, and a link
 * whose script of replies they consume and whose trace they extend.
 *
 * Every method is proved to return what the reference definition of the same
 * name in module Protocol returns, to issue exactly the scans it issues, and
 * to leave the session as it leaves it. What the operations promise is proved
 * about those definitions in module ProtocolProps.
 */
module Rvdbg013 {
  import opened Transport
  import opened Rvdbg
  import opened DmFields
  import opened Rv32iIsa
  import Protocol
  import Rvdbg013Jtag

  // ----- DMI accesses -----

  /** rvdbg_dmi_write; `ok` is false where the C code returns a negative value. */
  method DmiWrite(dmi: Dmi, addr: bv32, data: bv32) returns (ok: bool)
    modifies dmi.link
    ensures var o := Protocol.DmiWrite(old(dmi.link.script), addr, data);
      ok == o.value && dmi.link.script == o.rest && dmi.link.trace == old(dmi.link.trace) + o.events
  {
    var reply := dmi.link.LowAccess(DmiWriteCommand(addr, data));
    ok := reply.Ack?;
  }

  /** rvdbg_dmi_read; None where the C code returns a negative value. */
  method DmiRead(dmi: Dmi, addr: bv32) returns (data: Option<bv32>)
    modifies dmi.link
    ensures var o := Protocol.DmiRead(old(dmi.link.script), addr);
      data == o.value && dmi.link.script == o.rest && dmi.link.trace == old(dmi.link.trace) + o.events
  {
    var reply := dmi.link.LowAccess(DmiReadCommand(addr));
    if reply.Fail? {
      return None;
    }
    reply := dmi.link.LowAccess(DMI_OP_NOP);
    data := if reply.Ack? then Some(reply.data) else None;
  }

  /** The busy wait on abstractcs that the register accesses share. */
  method PollAbstractcs(dmi: Dmi) returns (abstractcs: Option<bv32>)
    modifies dmi.link
    ensures var o := Protocol.PollAbstractcs(old(dmi.link.script));
      abstractcs == o.value && dmi.link.script == o.rest && dmi.link.trace == old(dmi.link.trace) + o.events
  {
    ghost var done: seq<Event> := [];
    while true
      invariant dmi.link.trace == old(dmi.link.trace) + done
      invariant Protocol.PollAbstractcs(old(dmi.link.script)) == Then(done, Protocol.PollAbstractcs(dmi.link.script))
      decreases |dmi.link.script|
    {
      ghost var s := dmi.link.script;
      ghost var r := Protocol.DmiRead(s, DMI_REG_ABSTRACT_CS);
      PollStep(s);
      abstractcs := DmiRead(dmi, DMI_REG_ABSTRACT_CS);
      ThenThen(old(dmi.link.trace), done, r.events);
      if abstractcs.None? || AbstractcsGetBusy(abstractcs.value) == 0 {
        return;
      }
      ThenAssoc(done, r.events, Protocol.PollAbstractcs(r.rest));
      done := done + r.events;
    }
  }

  /** One round of the busy wait. */
  lemma PollStep(s: seq<Reply>)
    ensures var r := Protocol.DmiRead(s, DMI_REG_ABSTRACT_CS);
      Protocol.PollAbstractcs(s)
      == if r.value.Some? && AbstractcsGetBusy(r.value.value) == 1
         then Then(r.events, Protocol.PollAbstractcs(r.rest)) else r
  {
  }

  lemma ThenThen(a: seq<Event>, b: seq<Event>, c: seq<Event>)
    ensures a + b + c == a + (b + c)
  {
  }

  lemma ThenAssoc<T>(a: seq<Event>, b: seq<Event>, o: Run<T>)
    ensures Then(a, Then(b, o)) == Then(a + b, o)
  {
    ThenThen(a, b, o.events);
  }

  /** rvdbg_abstract_command_run: -1 on a transport failure, otherwise the
      command error found once the command finished. */
  method AbstractCommandRun(dmi: Dmi, command: bv32) returns (r: int)
    modifies dmi.link
    ensures var o := Protocol.AbstractRun(old(dmi.link.script), command);
      r == o.value && dmi.link.script == o.rest && dmi.link.trace == old(dmi.link.trace) + o.events
  {
    ghost var done: seq<Event> := [];
    while true
      invariant dmi.link.trace == old(dmi.link.trace) + done
      invariant Protocol.AbstractRun(old(dmi.link.script), command)
                == Then(done, Protocol.AbstractRun(dmi.link.script, command))
      decreases |dmi.link.script|
    {
      ghost var s := dmi.link.script;
      ghost var w := Protocol.DmiWrite(s, DMI_REG_ABSTRACT_CMD, command);
      ghost var p := Protocol.PollAbstractcs(w.rest);
      ghost var c := Protocol.DmiWrite(p.rest, DMI_REG_ABSTRACT_CS, AbstractcsClearCmderr(0));
      ghost var t := dmi.link.trace;
      AbstractRunStep(s, command);
      var ok := DmiWrite(dmi, DMI_REG_ABSTRACT_CMD, command);
      if !ok {
        ThenThen(old(dmi.link.trace), done, w.events);
        return -1;
      }
      var abstractcs := PollAbstractcs(dmi);
      ThenThen(t, w.events, p.events);
      ThenThen(old(dmi.link.trace), done, w.events + p.events);
      if abstractcs.None? {
        return -1;
      }
      var cmderror := AbstractcsGetCmderr(abstractcs.value);
      if cmderror != ABSTRACTCMD_ERR_NONE {
        ok := DmiWrite(dmi, DMI_REG_ABSTRACT_CS, AbstractcsClearCmderr(0));
        ThenThen(t, w.events + p.events, c.events);
        ThenThen(old(dmi.link.trace), done, w.events + p.events + c.events);
        if !ok {
          return -1;
        }
        if cmderror == ABSTRACTCMD_ERR_BUSY {
          ThenAssoc(done, w.events + p.events + c.events, Protocol.AbstractRun(c.rest, command));
          done := done + (w.events + p.events + c.events);
          continue;
        }
      }
      return Protocol.CmdErrCode(cmderror);
    }
  }

  /** One attempt of the abstract command run. */
  lemma AbstractRunStep(s: seq<Reply>, command: bv32)
    ensures var w := Protocol.DmiWrite(s, DMI_REG_ABSTRACT_CMD, command);
      var p := Protocol.PollAbstractcs(w.rest);
      var c := Protocol.DmiWrite(p.rest, DMI_REG_ABSTRACT_CS, AbstractcsClearCmderr(0));
      Protocol.AbstractRun(s, command)
      == if !w.value then Run(-1, w.events, w.rest)
         else if p.value.None? then Run(-1, w.events + p.events, p.rest)
         else if AbstractcsGetCmderr(p.value.value) == ABSTRACTCMD_ERR_NONE then Run(0, w.events + p.events, p.rest)
         else if !c.value then Run(-1, w.events + p.events + c.events, c.rest)
         else if AbstractcsGetCmderr(p.value.value) == ABSTRACTCMD_ERR_BUSY
         then Then(w.events + p.events + c.events, Protocol.AbstractRun(c.rest, command))
         else Run(Protocol.CmdErrCode(AbstractcsGetCmderr(p.value.value)), w.events + p.events + c.events, c.rest)
  {
  }

  // ----- single registers -----

  /** rvdbg_read_single_reg, with the out pointer &out[at]: the word read
      from data0 is stored there when the read brought one back. */
  method ReadSingleReg(dmi: Dmi, reg: bv16, out: array<bv32>, at: nat, astate: AutoexecState) returns (r: int)
    requires at < out.Length
    modifies dmi.link, out
    ensures var o := Protocol.ReadSingle(old(dmi.link.script), reg, astate);
      r == o.value.0 && out[..] == Protocol.StoreRead(old(out[..]), at, o.value.1)
      && dmi.link.script == o.rest && dmi.link.trace == old(dmi.link.trace) + o.events
  {
    ghost var a := Protocol.AbstractRun(dmi.link.script, Protocol.ReadRegisterCommand(reg, astate));
    var command := Protocol.ReadRegisterCommand(reg, astate);
    if astate != AutoexecCont {
      var ret := AbstractCommandRun(dmi, command);
      if ret < 0 {
        return -1;
      }
      if ret != ABSTRACTCMD_ERR_NONE as int {
        // the exception error and every other error alike
        return -1;
      }
    }
    ghost var s1 := dmi.link.script;
    ghost var d := Protocol.DmiRead(s1, DMI_REG_ABSTRACTDATA_BEGIN);
    ghost var p := Protocol.PollAbstractcs(d.rest);
    if astate != AutoexecCont {
      ThenThen(old(dmi.link.trace), a.events, Protocol.ReadData(s1, astate).events);
    }
    ThenThen(dmi.link.trace, d.events, p.events);
    var data := DmiRead(dmi, DMI_REG_ABSTRACTDATA_BEGIN);
    if data.None? {
      return -1;
    }
    out[at] := data.value;
    if astate == AutoexecCont {
      var abstractcs := PollAbstractcs(dmi);
      if abstractcs.None? {
        return -1;
      }
    }
    return 0;
  }

  /** rvdbg_write_single_reg. */
  method WriteSingleReg(dmi: Dmi, reg: bv16, value: bv32, astate: AutoexecState) returns (r: int)
    modifies dmi.link
    ensures var o := Protocol.WriteSingle(old(dmi.link.script), reg, value, astate);
      r == o.value && dmi.link.script == o.rest && dmi.link.trace == old(dmi.link.trace) + o.events
  {
    ghost var w := Protocol.DmiWrite(dmi.link.script, DMI_REG_ABSTRACTDATA_BEGIN, value);
    ghost var a := Protocol.AbstractRun(w.rest, Protocol.WriteRegisterCommand(reg, astate));
    ghost var p := Protocol.PollAbstractcs(w.rest);
    ThenThen(old(dmi.link.trace), w.events, a.events);
    ThenThen(old(dmi.link.trace), w.events, p.events);
    var ok := DmiWrite(dmi, DMI_REG_ABSTRACTDATA_BEGIN, value);
    if !ok {
      return -1;
    }
    var command := Protocol.WriteRegisterCommand(reg, astate);
    if astate != AutoexecCont {
      var ret := AbstractCommandRun(dmi, command);
      if ret < 0 {
        return -1;
      }
      if ret != ABSTRACTCMD_ERR_NONE as int {
        // the exception error and every other error alike
        return -1;
      }
    } else {
      var abstractcs := PollAbstractcs(dmi);
      if abstractcs.None? {
        return -1;
      }
    }
    return 0;
  }

  // ----- batches -----

  /** rvdbg_read_regs: read `len` registers from `reg` on into values[0 .. len),
      arming autoexecdata for a batch and disarming it afterwards. */
  method ReadRegs(dmi: Dmi, reg: bv16, values: array<bv32>, len: nat) returns (r: int)
    requires len <= values.Length
    modifies dmi.link, values
    ensures var o := Protocol.ReadRegs(old(dmi.link.script), dmi.supportAutoexecData, reg, old(values[..]), len);
      (r, values[..]) == o.value && dmi.link.script == o.rest && dmi.link.trace == old(dmi.link.trace) + o.events
  {
    var astate := AutoexecNone;
    ghost var w := Protocol.DmiWrite(dmi.link.script, DMI_REG_ABSTRACT_AUTOEXEC, Protocol.ARM_WORD);
    if len > 1 && dmi.supportAutoexecData {
      astate := AutoexecInit;
      var ok := DmiWrite(dmi, DMI_REG_ABSTRACT_AUTOEXEC, Protocol.ARM_WORD);
      if !ok {
        return -1;
      }
    }
    ghost var l := Protocol.ReadLoop(dmi.link.script, reg, values[..], 0, len, astate);
    ghost var t1 := dmi.link.trace;
    ThenThen(old(dmi.link.trace), w.events, Protocol.ReadBatch(dmi.link.script, reg, values[..], len, astate).events);
    var err;
    err, astate := ReadEach(dmi, reg, values, len, astate);
    if astate != AutoexecNone {
      ghost var d := Protocol.DmiWrite(dmi.link.script, DMI_REG_ABSTRACT_AUTOEXEC, Protocol.DISARM_WORD);
      ThenThen(t1, l.events, d.events);
      var ok := DmiWrite(dmi, DMI_REG_ABSTRACT_AUTOEXEC, Protocol.DISARM_WORD);
      if !ok {
        return -1;
      }
    }
    return err;
  }

  /** The loop of rvdbg_read_regs: read registers until one read fails, moving
      from INIT to CONT after the first. `regId` is reg_id + i as the 16-bit
      parameter of rvdbg_read_single_reg receives it. */
  method ReadEach(dmi: Dmi, reg: bv16, values: array<bv32>, len: nat, astate0: AutoexecState)
    returns (err: int, astate: AutoexecState)
    requires len <= values.Length
    modifies dmi.link, values
    ensures var o := Protocol.ReadLoop(old(dmi.link.script), reg, old(values[..]), 0, len, astate0);
      (err, values[..], astate) == o.value && dmi.link.script == o.rest
      && dmi.link.trace == old(dmi.link.trace) + o.events
  {
    ghost var cur := values[..];
    ghost var t1 := dmi.link.trace;
    ghost var done: seq<Event> := [];
    ghost var whole := Protocol.ReadLoop(dmi.link.script, reg, cur, 0, len, astate0);
    ThenNil(whole);
    astate := astate0;
    err := 0;
    var i := 0;
    var regId := reg;
    while i < len
      invariant i <= len
      invariant values[..] == cur
      invariant dmi.link.trace == t1 + done
      invariant whole == Then(done, Protocol.ReadLoop(dmi.link.script, regId, cur, i, len, astate))
      invariant whole == Protocol.ReadLoop(old(dmi.link.script), reg, old(values[..]), 0, len, astate0)
    {
      var ret;
      ret, done := ReadStep(dmi, regId, values, i, len, astate, whole, t1, done);
      cur := values[..];
      if ret < 0 {
        return -1, astate;
      }
      if astate == AutoexecInit {
        astate := AutoexecCont;
      }
      i, regId := i + 1, regId + 1;
    }
    ReadLoopEnd(dmi.link.script, regId, cur, len, astate, done);
  }

  /** One pass of the read loop: read register `reg` into values[i]. */
  method ReadStep(dmi: Dmi, reg: bv16, values: array<bv32>, i: nat, len: nat, astate: AutoexecState,
                  ghost whole: Run<(int, seq<bv32>, AutoexecState)>, ghost t1: seq<Event>, ghost done: seq<Event>)
    returns (ret: int, ghost done': seq<Event>)
    requires i < len <= values.Length
    requires dmi.link.trace == t1 + done
    requires whole == Then(done, Protocol.ReadLoop(dmi.link.script, reg, values[..], i, len, astate))
    modifies dmi.link, values
    ensures dmi.link.trace == t1 + done'
    ensures ret < 0 ==> whole == Run((-1, values[..], astate), done', dmi.link.script)
    ensures ret >= 0 ==>
      whole == Then(done', Protocol.ReadLoop(dmi.link.script, reg + 1, values[..], i + 1, len, Protocol.NextState(astate)))
  {
    ghost var r := Protocol.ReadSingle(dmi.link.script, reg, astate);
    ghost var values' := Protocol.StoreRead(values[..], i, r.value.1);
    ReadLoopStep(dmi.link.script, reg, values[..], i, len, astate);
    ThenThen(t1, done, r.events);
    ret := ReadSingleReg(dmi, reg, values, i, astate);
    if ret >= 0 {
      ThenAssoc(done, r.events, Protocol.ReadLoop(r.rest, reg + 1, values', i + 1, len, Protocol.NextState(astate)));
    }
    done' := done + r.events;
  }

  /** rvdbg_write_regs: write values[0 .. len) to `len` registers from `reg` on,
      arming autoexecdata for a batch and disarming it afterwards. */
  method WriteRegs(dmi: Dmi, reg: bv16, values: seq<bv32>, len: nat) returns (r: int)
    requires len <= |values|
    modifies dmi.link
    ensures var o := Protocol.WriteRegs(old(dmi.link.script), dmi.supportAutoexecData, reg, values, len);
      r == o.value && dmi.link.script == o.rest && dmi.link.trace == old(dmi.link.trace) + o.events
  {
    var astate := AutoexecNone;
    ghost var w := Protocol.DmiWrite(dmi.link.script, DMI_REG_ABSTRACT_AUTOEXEC, Protocol.ARM_WORD);
    if len > 1 && dmi.supportAutoexecData {
      astate := AutoexecInit;
      var ok := DmiWrite(dmi, DMI_REG_ABSTRACT_AUTOEXEC, Protocol.ARM_WORD);
      if !ok {
        return -1;
      }
    }
    ghost var l := Protocol.WriteLoop(dmi.link.script, reg, values, 0, len, astate);
    ghost var t1 := dmi.link.trace;
    ThenThen(old(dmi.link.trace), w.events, Protocol.WriteBatch(dmi.link.script, reg, values, len, astate).events);
    var err;
    err, astate := WriteEach(dmi, reg, values, len, astate);
    if astate != AutoexecNone {
      ghost var d := Protocol.DmiWrite(dmi.link.script, DMI_REG_ABSTRACT_AUTOEXEC, Protocol.DISARM_WORD);
      ThenThen(t1, l.events, d.events);
      var ok := DmiWrite(dmi, DMI_REG_ABSTRACT_AUTOEXEC, Protocol.DISARM_WORD);
      if !ok {
        return -1;
      }
    }
    return err;
  }

  /** The loop of rvdbg_write_regs: write registers until one write fails,
      moving from INIT to CONT after the first. `regId` is reg_id + i as the
      16-bit parameter of rvdbg_write_single_reg receives it. */
  method WriteEach(dmi: Dmi, reg: bv16, values: seq<bv32>, len: nat, astate0: AutoexecState)
    returns (err: int, astate: AutoexecState)
    requires len <= |values|
    modifies dmi.link
    ensures var o := Protocol.WriteLoop(old(dmi.link.script), reg, values, 0, len, astate0);
      (err, astate) == o.value && dmi.link.script == o.rest
      && dmi.link.trace == old(dmi.link.trace) + o.events
  {
    ghost var t1 := dmi.link.trace;
    ghost var done: seq<Event> := [];
    ghost var whole := Protocol.WriteLoop(dmi.link.script, reg, values, 0, len, astate0);
    ThenNil(whole);
    astate := astate0;
    err := 0;
    var i := 0;
    var regId := reg;
    while i < len
      invariant i <= len
      invariant dmi.link.trace == t1 + done
      invariant whole == Then(done, Protocol.WriteLoop(dmi.link.script, regId, values, i, len, astate))
      invariant whole == Protocol.WriteLoop(old(dmi.link.script), reg, values, 0, len, astate0)
    {
      var ret;
      ret, done := WriteStep(dmi, regId, values, i, len, astate, whole, t1, done);
      if ret < 0 {
        return -1, astate;
      }
      if astate == AutoexecInit {
        astate := AutoexecCont;
      }
      i, regId := i + 1, regId + 1;
    }
    WriteLoopEnd(dmi.link.script, regId, values, len, astate, done);
  }

  /** One pass of the write loop: write register `reg` from values[i]. */
  method WriteStep(dmi: Dmi, reg: bv16, values: seq<bv32>, i: nat, len: nat, astate: AutoexecState,
                   ghost whole: Run<(int, AutoexecState)>, ghost t1: seq<Event>, ghost done: seq<Event>)
    returns (ret: int, ghost done': seq<Event>)
    requires i < len <= |values|
    requires dmi.link.trace == t1 + done
    requires whole == Then(done, Protocol.WriteLoop(dmi.link.script, reg, values, i, len, astate))
    modifies dmi.link
    ensures dmi.link.trace == t1 + done'
    ensures ret < 0 ==> whole == Run((-1, astate), done', dmi.link.script)
    ensures ret >= 0 ==>
      whole == Then(done', Protocol.WriteLoop(dmi.link.script, reg + 1, values, i + 1, len, Protocol.NextState(astate)))
  {
    ghost var w := Protocol.WriteSingle(dmi.link.script, reg, values[i], astate);
    WriteLoopStep(dmi.link.script, reg, values, i, len, astate);
    ThenThen(t1, done, w.events);
    ret := WriteSingleReg(dmi, reg, values[i], astate);
    if ret >= 0 {
      ThenAssoc(done, w.events, Protocol.WriteLoop(w.rest, reg + 1, values, i + 1, len, Protocol.NextState(astate)));
    }
    done' := done + w.events;
  }

  /** The write loop past its last index stops with status 0. */
  lemma WriteLoopEnd(s: seq<Reply>, reg: bv16, values: seq<bv32>, len: nat, astate: AutoexecState, done: seq<Event>)
    requires len <= |values|
    ensures Then(done, Protocol.WriteLoop(s, reg, values, len, len, astate)) == Run((0, astate), done, s)
  {
    assert done + [] == done;
  }

  /** The read loop past its last index stops with status 0. */
  lemma ReadLoopEnd(s: seq<Reply>, reg: bv16, values: seq<bv32>, len: nat, astate: AutoexecState, done: seq<Event>)
    requires len <= |values|
    ensures Then(done, Protocol.ReadLoop(s, reg, values, len, len, astate)) == Run((0, values, astate), done, s)
  {
    assert done + [] == done;
  }

  /** Nothing issued before a run leaves it as it is. */
  lemma ThenNil<T>(o: Run<T>)
    ensures Then([], o) == o
  {
    assert [] + o.events == o.events;
  }

  /** One register of the write loop. */
  lemma WriteLoopStep(s: seq<Reply>, reg: bv16, values: seq<bv32>, i: nat, len: nat, astate: AutoexecState)
    requires i < len <= |values|
    ensures var w := Protocol.WriteSingle(s, reg, values[i], astate);
      Protocol.WriteLoop(s, reg, values, i, len, astate)
      == if w.value < 0 then Run((-1, astate), w.events, w.rest)
         else Then(w.events, Protocol.WriteLoop(w.rest, reg + 1, values, i + 1, len, Protocol.NextState(astate)))
  {
  }

  /** One register of the read loop. */
  lemma ReadLoopStep(s: seq<Reply>, reg: bv16, values: seq<bv32>, i: nat, len: nat, astate: AutoexecState)
    requires i < len <= |values|
    ensures var r := Protocol.ReadSingle(s, reg, astate);
      var values' := Protocol.StoreRead(values, i, r.value.1);
      Protocol.ReadLoop(s, reg, values, i, len, astate)
      == if r.value.0 < 0 then Run((-1, values', astate), r.events, r.rest)
         else Then(r.events, Protocol.ReadLoop(r.rest, reg + 1, values', i + 1, len, Protocol.NextState(astate)))
  {
  }

  // ----- program buffer -----

  /** rvdbg_progbuf_upload: refuse a buffer longer than the capacity, then
      write buffer[i] to DMI address 0x20 + i for i from 0x20 up to the length.
      `addr` is that address, advanced alongside i. */
  method ProgbufUpload(dmi: Dmi, buffer: seq<bv32>) returns (r: int)
    requires |buffer| < 0x100
    modifies dmi.link
    ensures var o := Protocol.Upload(old(dmi.link.script), old(dmi.progbufSize), old(dmi.impebreak), buffer);
      r == o.value && dmi.link.script == o.rest && dmi.link.trace == old(dmi.link.trace) + o.events
  {
    if |buffer| > Protocol.ProgbufCapacity(dmi.progbufSize, dmi.impebreak) {
      return -1;
    }
    var i: nat := DMI_REG_PROGRAMBUF_BEGIN as nat;
    var addr := DMI_REG_PROGRAMBUF_BEGIN + DMI_REG_PROGRAMBUF_BEGIN;
    ghost var t1 := dmi.link.trace;
    ghost var done: seq<Event> := [];
    ghost var whole := Protocol.UploadLoop(dmi.link.script, buffer, i, addr);
    ThenNil(whole);
    while i < |buffer|
      invariant dmi.link.trace == t1 + done
      invariant whole == Then(done, Protocol.UploadLoop(dmi.link.script, buffer, i, addr))
      invariant whole == Protocol.UploadLoop(old(dmi.link.script), buffer, DMI_REG_PROGRAMBUF_BEGIN as nat, DMI_REG_PROGRAMBUF_BEGIN + DMI_REG_PROGRAMBUF_BEGIN)
      decreases |buffer| - i
    {
      var ok;
      ok, done := UploadStep(dmi, buffer, i, addr, whole, t1, done);
      if !ok {
        return -1;
      }
      i, addr := i + 1, addr + 1;
    }
    UploadLoopEnd(dmi.link.script, buffer, i, addr, done);
    return 0;
  }

  /** One pass of the upload loop: write buffer[i] to DMI address `addr`. */
  method UploadStep(dmi: Dmi, buffer: seq<bv32>, i: nat, addr: bv32, ghost whole: Run<int>,
                    ghost t1: seq<Event>, ghost done: seq<Event>)
    returns (ok: bool, ghost done': seq<Event>)
    requires i < |buffer| < 0x100
    requires dmi.link.trace == t1 + done
    requires whole == Then(done, Protocol.UploadLoop(dmi.link.script, buffer, i, addr))
    modifies dmi.link
    ensures dmi.link.trace == t1 + done'
    ensures !ok ==> whole == Run(-1, done', dmi.link.script)
    ensures ok ==> whole == Then(done', Protocol.UploadLoop(dmi.link.script, buffer, i + 1, addr + 1))
  {
    ghost var w := Protocol.DmiWrite(dmi.link.script, addr, buffer[i]);
    ThenThen(t1, done, w.events);
    ok := DmiWrite(dmi, addr, buffer[i]);
    if ok {
      ThenAssoc(done, w.events, Protocol.UploadLoop(w.rest, buffer, i + 1, addr + 1));
    }
    done' := done + w.events;
  }

  /** The upload loop past the end of the buffer stops with status 0. */
  lemma UploadLoopEnd(s: seq<Reply>, buffer: seq<bv32>, i: nat, addr: bv32, done: seq<Event>)
    requires |buffer| < 0x100 && i >= |buffer|
    ensures Then(done, Protocol.UploadLoop(s, buffer, i, addr)) == Run(0, done, s)
  {
    assert done + [] == done;
  }

  /** rvdbg_progbuf_exec: back up x1 .. of the larger argument count into the
      current hart's backup, write the in-arguments, run the program buffer.
      Every outcome of the run, including success, ends in -1. */
  method ProgbufExec(dmi: Dmi, args: seq<bv32>, argin: nat, argout: nat) returns (r: int)
    requires dmi.Valid() && dmi.currentHart.Some? && argin <= |args|
    modifies dmi.link, dmi.harts[dmi.currentHart.value].backup
    ensures var backup := dmi.harts[dmi.currentHart.value].backup;
      var o := Protocol.Exec(old(dmi.link.script), dmi.supportAutoexecData, old(backup[..]), args, argin, argout);
      r == o.value.0 && backup[..] == o.value.1
      && dmi.link.script == o.rest && dmi.link.trace == old(dmi.link.trace) + o.events
  {
    var backupLen := if argin > argout then argin else argout;
    if backupLen > 31 {
      return -1;
    }
    var backup := dmi.harts[dmi.currentHart.value].backup;
    ghost var t0 := dmi.link.trace;
    ghost var b := Protocol.ReadRegs(dmi.link.script, dmi.supportAutoexecData, Protocol.GPR_X1, backup[..], backupLen);
    var ret := ReadRegs(dmi, Protocol.GPR_X1, backup, backupLen);
    if ret < 0 {
      return -1;
    }
    ghost var w := Protocol.WriteRegs(dmi.link.script, dmi.supportAutoexecData, Protocol.GPR_X1, args, argin);
    ret := WriteRegs(dmi, Protocol.GPR_X1, args, argin);
    ThenThen(t0, b.events, w.events);
    if ret < 0 {
      return -1;
    }
    ghost var a := Protocol.AbstractRun(dmi.link.script, Protocol.ExecCommand());
    ret := AbstractCommandRun(dmi, Protocol.ExecCommand());
    ThenThen(t0, b.events + w.events, a.events);
    // a failed run returns -1, and so does every case of the switch on cmderr
    return -1;
  }

  /** rvdbg_read_csr_progbuf: upload `csrrs x1, reg, x0`, then execute it with
      no in-argument and one out-argument. */
  method ReadCsrProgbuf(dmi: Dmi, reg: bv16, value: seq<bv32>) returns (r: int)
    requires dmi.Valid() && dmi.currentHart.Some?
    modifies dmi.link, dmi.harts[dmi.currentHart.value].backup
    ensures var backup := dmi.harts[dmi.currentHart.value].backup;
      var o := Protocol.ReadCsr(old(dmi.link.script), dmi.Snapshot(), old(backup[..]), reg, value);
      r == o.value.0 && backup[..] == o.value.1
      && dmi.link.script == o.rest && dmi.link.trace == old(dmi.link.trace) + o.events
  {
    var program := [Csrrs(1, reg as bv32, 0)];
    ghost var t0 := dmi.link.trace;
    ghost var u := Protocol.Upload(dmi.link.script, dmi.progbufSize, dmi.impebreak, program);
    var ret := ProgbufUpload(dmi, program);
    if ret < 0 {
      return -1;
    }
    ghost var backup := dmi.harts[dmi.currentHart.value].backup;
    ghost var e := Protocol.Exec(dmi.link.script, dmi.supportAutoexecData, backup[..], value, 0, 1);
    ret := ProgbufExec(dmi, value, 0, 1);
    ThenThen(t0, u.events, e.events);
    if ret < 0 {
      return -1;
    }
    return 0;
  }

  // ----- session set-up -----

  /** rvdbg_set_debug_version: accept and record version 0.13, refuse any other. */
  method SetDebugVersion(dmi: Dmi, version: bv8) returns (r: int)
    modifies dmi`debugVersion
    ensures (r, dmi.Snapshot()) == Protocol.SetDebugVersion(old(dmi.Snapshot()), version)
  {
    if version == RISCV_DEBUG_VERSION_013 {
      dmi.debugVersion := version;
      return 0;
    }
    return -1;
  }

  /** rvdbg_dtm_init: hard-reset the DTM, read dmstatus, trust its version over
      the one dtmcs gave, require authentication, read nextdm, record
      impebreak, then negotiate the access method and discover the harts. */
  method DtmInit(dmi: Dmi) returns (r: int)
    requires dmi.Valid()
    modifies dmi, dmi.link
    ensures dmi.Valid()
    ensures var o := Protocol.Init(old(dmi.link.script), old(dmi.Snapshot()));
      (r, dmi.Snapshot()) == o.value && dmi.link.script == o.rest && dmi.link.trace == old(dmi.link.trace) + o.events
  {
    ghost var t0 := dmi.link.trace;
    Rvdbg013Jtag.DmiReset(dmi, true);
    ghost var a := Protocol.Attach(dmi.link.script, dmi.Snapshot());
    r := Attach(dmi);
    ThenThen(t0, Protocol.ResetEvents(true), a.events);
  }

  /** rvdbg_dtm_init after the reset hook. */
  method Attach(dmi: Dmi) returns (r: int)
    requires dmi.Valid()
    modifies dmi, dmi.link
    ensures dmi.Valid()
    ensures var o := Protocol.Attach(old(dmi.link.script), old(dmi.Snapshot()));
      (r, dmi.Snapshot()) == o.value && dmi.link.script == o.rest && dmi.link.trace == old(dmi.link.trace) + o.events
  {
    ghost var t0 := dmi.link.trace;
    ghost var d := Protocol.DmiRead(dmi.link.script, DMI_REG_DMSTATUS);
    var dmstatus := DmiRead(dmi, DMI_REG_DMSTATUS);
    if dmstatus.None? {
      return -1;
    }
    AdoptDmstatusVersion(dmi, DmstatusGetVersion(dmstatus.value) as bv8);
    if DmstatusGetAuthenticated(dmstatus.value) == 0 {
      return -1;
    }
    ghost var u := Protocol.AttachAuthenticated(dmi.link.script, dmi.Snapshot(), dmstatus.value);
    r := AttachAuthenticated(dmi, dmstatus.value);
    ThenThen(t0, d.events, u.events);
  }

  /** The version check of rvdbg_dtm_init: a nonzero dmstatus version that
      disagrees with the recorded one is handed to SetDebugVersion, unless it
      is the unknown version; the outcome is ignored. */
  method AdoptDmstatusVersion(dmi: Dmi, version: bv8)
    modifies dmi`debugVersion
    ensures dmi.Snapshot() == Protocol.AdoptDmstatusVersion(old(dmi.Snapshot()), version)
  {
    if version != 0 && version - 1 != dmi.debugVersion && version != RISCV_DEBUG_VERSION_UNKNOWN {
      var _ := SetDebugVersion(dmi, version);
    }
  }

  /** rvdbg_dtm_init once dmstatus reported authentication. */
  method AttachAuthenticated(dmi: Dmi, dmstatus: bv32) returns (r: int)
    requires dmi.Valid()
    modifies dmi, dmi.link
    ensures dmi.Valid()
    ensures var o := Protocol.AttachAuthenticated(old(dmi.link.script), old(dmi.Snapshot()), dmstatus);
      (r, dmi.Snapshot()) == o.value && dmi.link.script == o.rest && dmi.link.trace == old(dmi.link.trace) + o.events
  {
    ghost var t0 := dmi.link.trace;
    ghost var n := Protocol.DmiRead(dmi.link.script, DMI_REG_NEXTDM_ADDR);
    var nextdmaddr := DmiRead(dmi, DMI_REG_NEXTDM_ADDR);
    if nextdmaddr.None? {
      return -1;
    }
    dmi.impebreak := DmstatusGetImpebreak(dmstatus) == 1;
    ghost var g := Protocol.Configure(dmi.link.script, dmi.Snapshot());
    r := Configure(dmi);
    ThenThen(t0, n.events, g.events);
  }

  /** The end of rvdbg_dtm_init: the access method, then the harts. */
  method Configure(dmi: Dmi) returns (r: int)
    requires dmi.Valid()
    modifies dmi, dmi.link
    ensures dmi.Valid()
    ensures var o := Protocol.Configure(old(dmi.link.script), old(dmi.Snapshot()));
      (r, dmi.Snapshot()) == o.value && dmi.link.script == o.rest && dmi.link.trace == old(dmi.link.trace) + o.events
  {
    ghost var t0 := dmi.link.trace;
    ghost var g := Protocol.Negotiate(dmi.link.script, dmi.Snapshot());
    r := SelectMemAndCsrAccessImpl(dmi);
    if r < 0 {
      return -1;
    }
    ghost var d := Protocol.Discover(dmi.link.script, dmi.Snapshot());
    r := DiscoverHarts(dmi);
    ThenThen(t0, g.events, d.events);
    if r < 0 {
      return -1;
    }
    return 0;
  }

  /** rvdbg_select_mem_and_csr_access_impl: record progbufsize and datacount
      from abstractcs, refuse sizes outside the standard's bounds, install the
      program-buffer CSR read, and probe whether autoexecdata works. */
  method SelectMemAndCsrAccessImpl(dmi: Dmi) returns (r: int)
    modifies dmi, dmi.link
    ensures var o := Protocol.Negotiate(old(dmi.link.script), old(dmi.Snapshot()));
      (r, dmi.Snapshot()) == o.value && dmi.link.script == o.rest && dmi.link.trace == old(dmi.link.trace) + o.events
  {
    ghost var t0 := dmi.link.trace;
    var abstractcs := DmiRead(dmi, DMI_REG_ABSTRACT_CS);
    if abstractcs.None? {
      return -1;
    }
    dmi.progbufSize := AbstractcsGetProgbufsize(abstractcs.value) as bv8;
    dmi.abstractDataCount := AbstractcsGetDatacount(abstractcs.value) as bv8;
    if dmi.abstractDataCount < 1 || dmi.abstractDataCount > 12 {
      return -1;
    }
    if dmi.progbufSize > 16 {
      return -1;
    } else if dmi.progbufSize == 1 && !dmi.impebreak {
      return -1;
    }
    if dmi.progbufSize > 0 {
      dmi.readCsrInstalled := true;
    }
    ghost var p := Protocol.ProbeAutoexec(dmi.link.script, dmi.Snapshot());
    r := ProbeAutoexecData(dmi);
    ThenThen(t0, Protocol.DmiRead(old(dmi.link.script), DMI_REG_ABSTRACT_CS).events, p.events);
  }

  /** The autoexecdata probe of rvdbg_select_mem_and_csr_access_impl: write the
      pattern to abstractauto, read it back, record whether it stuck, and write
      the word read back with its data field cleared. */
  method ProbeAutoexecData(dmi: Dmi) returns (r: int)
    modifies dmi`supportAutoexecData, dmi.link
    ensures var o := Protocol.ProbeAutoexec(old(dmi.link.script), old(dmi.Snapshot()));
      (r, dmi.Snapshot()) == o.value && dmi.link.script == o.rest && dmi.link.trace == old(dmi.link.trace) + o.events
  {
    ghost var t0 := dmi.link.trace;
    ghost var w := Protocol.DmiWrite(dmi.link.script, DMI_REG_ABSTRACT_AUTOEXEC, Protocol.ARM_WORD);
    var ok := DmiWrite(dmi, DMI_REG_ABSTRACT_AUTOEXEC, Protocol.ARM_WORD);
    if !ok {
      return -1;
    }
    ghost var b := Protocol.DmiRead(dmi.link.script, DMI_REG_ABSTRACT_AUTOEXEC);
    var abstractauto := DmiRead(dmi, DMI_REG_ABSTRACT_AUTOEXEC);
    ThenThen(t0, w.events, b.events);
    if abstractauto.None? {
      return -1;
    }
    if AbstractautoGetData(abstractauto.value) == ABSTRACTAUTO_SOME_PATTEN {
      dmi.supportAutoexecData := true;
    }
    ghost var z := Protocol.DmiWrite(dmi.link.script, DMI_REG_ABSTRACT_AUTOEXEC, AbstractautoSetData(abstractauto.value, 0));
    ok := DmiWrite(dmi, DMI_REG_ABSTRACT_AUTOEXEC, AbstractautoSetData(abstractauto.value, 0));
    ThenThen(t0, w.events + b.events, z.events);
    if !ok {
      return -1;
    }
    return 0;
  }

  /** rvdbg_discover_harts: learn hartsellen by writing all ones to hartsel and
      reading it back, count the harts, select the index the count stopped at,
      and make the first hart record current. The count stays recorded when a
      later scan fails. */
  method DiscoverHarts(dmi: Dmi) returns (r: int)
    requires dmi.Valid()
    modifies dmi, dmi.link
    ensures dmi.Valid()
    ensures var o := Protocol.Discover(old(dmi.link.script), old(dmi.Snapshot()));
      (r, dmi.Snapshot()) == o.value && dmi.link.script == o.rest && dmi.link.trace == old(dmi.link.trace) + o.events
  {
    ghost var t0 := dmi.link.trace;
    ghost var w := Protocol.DmiWrite(dmi.link.script, DMI_REG_DMCONTROL, DmcontrolSetHartsel(0, 0xfffff));
    var ok := DmiWrite(dmi, DMI_REG_DMCONTROL, DmcontrolSetHartsel(0, 0xfffff));
    if !ok {
      return -1;
    }
    ghost var g := Protocol.DmiRead(dmi.link.script, DMI_REG_DMCONTROL);
    var dmcontrol := DmiRead(dmi, DMI_REG_DMCONTROL);
    ThenThen(t0, w.events, g.events);
    if dmcontrol.None? {
      return -1;
    }
    var hartsellen := DmcontrolGetHartsel(dmcontrol.value) as nat;
    ghost var c := Protocol.CountHarts(dmi.link.script, dmi.Snapshot(), hartsellen);
    r := SelectHarts(dmi, hartsellen);
    ThenThen(t0, w.events + g.events, c.events);
  }

  /** The hart loop of rvdbg_discover_harts and the selection after it. */
  method SelectHarts(dmi: Dmi, hartsellen: nat) returns (r: int)
    requires dmi.Valid()
    modifies dmi`numHarts, dmi`currentHart, dmi.link
    ensures dmi.Valid()
    ensures var o := Protocol.CountHarts(old(dmi.link.script), old(dmi.Snapshot()), hartsellen);
      (r, dmi.Snapshot()) == o.value && dmi.link.script == o.rest && dmi.link.trace == old(dmi.link.trace) + o.events
  {
    ghost var t0 := dmi.link.trace;
    ghost var p := Protocol.ProbeHarts(dmi.link.script, hartsellen, 0, dmi.numHarts);
    var status, hartIdx := ProbeHarts(dmi, hartsellen);
    if status < 0 {
      return -1;
    }
    ghost var f := Protocol.DmiWrite(dmi.link.script, DMI_REG_DMCONTROL, DmcontrolSetHartsel(0, Protocol.Wrap32(hartIdx)));
    var ok := DmiWrite(dmi, DMI_REG_DMCONTROL, DmcontrolSetHartsel(0, Protocol.Wrap32(hartIdx)));
    ThenThen(t0, p.events, f.events);
    if !ok {
      return -1;
    }
    dmi.currentHart := Some(0);
    return 0;
  }

  /** The loop of rvdbg_discover_harts: while the index is within hartsellen
      and the table has room, select the hart and read dmstatus; stop at a
      nonexistent hart, count an existing one. `hartIdx` is where the loop
      stopped, counted in passes; the 32-bit C index is Wrap32 of it. */
  method ProbeHarts(dmi: Dmi, hartsellen: nat) returns (status: int, hartIdx: nat)
    modifies dmi`numHarts, dmi.link
    ensures var o := Protocol.ProbeHarts(old(dmi.link.script), hartsellen, 0, old(dmi.numHarts));
      (status, hartIdx, dmi.numHarts) == o.value && dmi.link.script == o.rest
      && dmi.link.trace == old(dmi.link.trace) + o.events
  {
    ghost var t1 := dmi.link.trace;
    ghost var done: seq<Event> := [];
    ghost var whole := Protocol.ProbeHarts(dmi.link.script, hartsellen, 0, dmi.numHarts);
    ThenNil(whole);
    hartIdx := 0;
    while hartIdx <= hartsellen && dmi.numHarts < RVDBG_MAX_HARTS
      invariant dmi.link.trace == t1 + done
      invariant whole == Then(done, Protocol.ProbeHarts(dmi.link.script, hartsellen, hartIdx, dmi.numHarts))
      invariant whole == Protocol.ProbeHarts(old(dmi.link.script), hartsellen, 0, old(dmi.numHarts))
      decreases RVDBG_MAX_HARTS - dmi.numHarts
    {
      status, done := ProbeStep(dmi, hartsellen, hartIdx, whole, t1, done);
      if status <= 0 {
        // a failed scan, or the break at a nonexistent hart
        return;
      }
      hartIdx := hartIdx + 1;
    }
    ProbeHartsEnd(dmi.link.script, hartsellen, hartIdx, dmi.numHarts, done);
    return 0, hartIdx;
  }

  /** One pass of the hart loop: select hart `hartIdx`, read dmstatus, and
      count the hart if it exists. `status` is -1 after a failed scan, 0 at a
      nonexistent hart and 1 after counting. */
  method ProbeStep(dmi: Dmi, hartsellen: nat, hartIdx: nat, ghost whole: Run<(int, nat, nat)>,
                   ghost t1: seq<Event>, ghost done: seq<Event>)
    returns (status: int, ghost done': seq<Event>)
    requires hartIdx <= hartsellen && dmi.numHarts < RVDBG_MAX_HARTS
    requires dmi.link.trace == t1 + done
    requires whole == Then(done, Protocol.ProbeHarts(dmi.link.script, hartsellen, hartIdx, dmi.numHarts))
    modifies dmi`numHarts, dmi.link
    ensures dmi.link.trace == t1 + done'
    ensures status <= 0 ==>
      (dmi.numHarts == old(dmi.numHarts) && whole == Run((status, hartIdx, dmi.numHarts), done', dmi.link.script))
    ensures status > 0 ==>
      (dmi.numHarts == old(dmi.numHarts) + 1
       && whole == Then(done', Protocol.ProbeHarts(dmi.link.script, hartsellen, hartIdx + 1, dmi.numHarts)))
  {
    ghost var num := dmi.numHarts;
    ghost var h := Protocol.HartStatus(dmi.link.script, hartIdx);
    ProbeHartsStep(dmi.link.script, hartsellen, hartIdx, num, done);
    ThenThen(t1, done, h.events);
    done' := done + h.events;
    var dmstatus := HartStatus(dmi, hartIdx);
    if dmstatus.None? {
      return -1, done';
    }
    if DmstatusGetAnyNonexistent(dmstatus.value) == 1 {
      return 0, done';
    }
    dmi.numHarts := dmi.numHarts + 1;
    return 1, done';
  }

  /** The scans of one pass of the hart loop: select hart `hartIdx` in
      dmcontrol, then read dmstatus. */
  method HartStatus(dmi: Dmi, hartIdx: nat) returns (dmstatus: Option<bv32>)
    modifies dmi.link
    ensures var o := Protocol.HartStatus(old(dmi.link.script), hartIdx);
      dmstatus == o.value && dmi.link.script == o.rest && dmi.link.trace == old(dmi.link.trace) + o.events
  {
    ghost var t0 := dmi.link.trace;
    var dmcontrol := DmcontrolSetHartsel(0, Protocol.Wrap32(hartIdx));
    ghost var w := Protocol.DmiWrite(dmi.link.script, DMI_REG_DMCONTROL, dmcontrol);
    var ok := DmiWrite(dmi, DMI_REG_DMCONTROL, dmcontrol);
    if !ok {
      return None;
    }
    ghost var g := Protocol.DmiRead(dmi.link.script, DMI_REG_DMSTATUS);
    dmstatus := DmiRead(dmi, DMI_REG_DMSTATUS);
    ThenThen(t0, w.events, g.events);
  }

  /** One index of the hart loop, within hartsellen and with room in the
      table, after the scans `done`. */
  lemma ProbeHartsStep(s: seq<Reply>, hartsellen: nat, idx: nat, num: nat, done: seq<Event>)
    requires idx <= hartsellen && num < RVDBG_MAX_HARTS
    ensures var h := Protocol.HartStatus(s, idx);
      var done' := done + h.events;
      Then(done, Protocol.ProbeHarts(s, hartsellen, idx, num))
      == if h.value.None? then Run((-1, idx, num), done', h.rest)
         else if DmstatusGetAnyNonexistent(h.value.value) == 1 then Run((0, idx, num), done', h.rest)
         else Then(done', Protocol.ProbeHarts(h.rest, hartsellen, idx + 1, num + 1))
  {
    var h := Protocol.HartStatus(s, idx);
    if h.value.Some? && DmstatusGetAnyNonexistent(h.value.value) != 1 {
      ThenAssoc(done, h.events, Protocol.ProbeHarts(h.rest, hartsellen, idx + 1, num + 1));
    }
  }

  /** The hart loop past hartsellen or with a full table stops with status 0. */
  lemma ProbeHartsEnd(s: seq<Reply>, hartsellen: nat, idx: nat, num: nat, done: seq<Event>)
    requires idx > hartsellen || num >= RVDBG_MAX_HARTS
    ensures Then(done, Protocol.ProbeHarts(s, hartsellen, idx, num)) == Run((0, idx, num), done, s)
  {
    assert done + [] == done;
  }
}
