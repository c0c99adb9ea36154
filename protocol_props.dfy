/*
 * What the debug-module operations promise, proved about their reference
 * definitions in module Protocol: the scans they issue, in which order, and
 * what the results and the session fields say about the replies.
 */
module ProtocolProps {
  import opened Transport
  import opened Rvdbg
  import opened DmFields
  import opened Protocol

  // ----- classifying scans -----

  /** Every event is a DMI scan whose command word is one of `cmds`. */
  predicate ScansAmong(events: seq<Event>, cmds: set<bv64>)
  {
    forall e | e in events :: e.Scan? && e.cmd in cmds
  }

  lemma ScansAmongAppend(a: seq<Event>, b: seq<Event>, cmds: set<bv64>)
    requires ScansAmong(a, cmds) && ScansAmong(b, cmds)
    ensures ScansAmong(a + b, cmds)
  {
  }

  // ----- the busy wait and the abstract command run -----

  /** The busy wait only reads abstractcs: a read command and its no-op each time. */
  lemma {:induction false} PollReadsAbstractcs(s: seq<Reply>)
    ensures ScansAmong(PollAbstractcs(s).events, {DmiReadCommand(DMI_REG_ABSTRACT_CS), DMI_OP_NOP})
    decreases |s|
  {
    var r := DmiRead(s, DMI_REG_ABSTRACT_CS);
    if r.value.Some? && AbstractcsGetBusy(r.value.value) == 1 {
      PollReadsAbstractcs(r.rest);
    }
  }

  /** The scans an abstract command run issues: the command write, the busy
      wait, and the write that clears cmderr. */
  function RunCmds(command: bv32): set<bv64>
  {
    {DmiWriteCommand(DMI_REG_ABSTRACT_CMD, command), DmiReadCommand(DMI_REG_ABSTRACT_CS), DMI_OP_NOP,
     DmiWriteCommand(DMI_REG_ABSTRACT_CS, 0x700)}
  }

  lemma {:induction false} AbstractRunScans(s: seq<Reply>, command: bv32)
    ensures ScansAmong(AbstractRun(s, command).events, RunCmds(command))
    decreases |s|
  {
    var w := DmiWrite(s, DMI_REG_ABSTRACT_CMD, command);
    if w.value {
      var p := PollAbstractcs(w.rest);
      PollReadsAbstractcs(w.rest);
      if p.value.Some? && AbstractcsGetCmderr(p.value.value) != 0 {
        var c := DmiWrite(p.rest, DMI_REG_ABSTRACT_CS, AbstractcsClearCmderr(0));
        if c.value && AbstractcsGetCmderr(p.value.value) == 1 {
          AbstractRunScans(c.rest, command);
        }
      }
    }
  }

  /** The first scan of a run writes the command. */
  lemma AbstractRunStartsWithCommand(s: seq<Reply>, command: bv32)
    ensures var o := AbstractRun(s, command);
      o.events != [] && o.events[0].Scan? && o.events[0].cmd == DmiWriteCommand(DMI_REG_ABSTRACT_CMD, command)
  {
  }

  /** A command error is cleared, by writing 0x700 to abstractcs, before it is
      reported. */
  lemma {:induction false} AbstractRunClearsBeforeError(s: seq<Reply>, command: bv32)
    ensures var o := AbstractRun(s, command);
      o.value > 0 ==>
        o.events != [] && Last(o.events).Scan? && Last(o.events).reply.Ack?
        && Last(o.events).cmd == DmiWriteCommand(DMI_REG_ABSTRACT_CS, 0x700)
    decreases |s|
  {
    var w := DmiWrite(s, DMI_REG_ABSTRACT_CMD, command);
    if w.value {
      var p := PollAbstractcs(w.rest);
      if p.value.Some? && AbstractcsGetCmderr(p.value.value) != 0 {
        var c := DmiWrite(p.rest, DMI_REG_ABSTRACT_CS, AbstractcsClearCmderr(0));
        if c.value {
          if AbstractcsGetCmderr(p.value.value) == 1 {
            var o' := AbstractRun(c.rest, command);
            AbstractRunClearsBeforeError(c.rest, command);
            if o'.value > 0 {
              LastOfConcat(w.events + p.events + c.events, o'.events);
            }
          } else {
            LastOfConcat(w.events + p.events, c.events);
          }
        }
      }
    }
  }

  /** Success is reported only once abstractcs reads not busy and without error. */
  lemma {:induction false} AbstractRunSuccessIsIdle(s: seq<Reply>, command: bv32)
    ensures var o := AbstractRun(s, command);
      o.value == 0 ==>
        o.events != [] && Last(o.events).Scan? && Last(o.events).cmd == DMI_OP_NOP
        && Last(o.events).reply.Ack?
        && AbstractcsGetBusy(Last(o.events).reply.data) == 0
        && AbstractcsGetCmderr(Last(o.events).reply.data) == 0
    decreases |s|
  {
    var o := AbstractRun(s, command);
    var w := DmiWrite(s, DMI_REG_ABSTRACT_CMD, command);
    if w.value {
      var p := PollAbstractcs(w.rest);
      if p.value.Some? {
        var cmderr := AbstractcsGetCmderr(p.value.value);
        if cmderr == 0 {
          PollEndsWithIdleWord(w.rest);
          LastOfConcat(w.events, p.events);
        } else {
          var c := DmiWrite(p.rest, DMI_REG_ABSTRACT_CS, AbstractcsClearCmderr(0));
          if c.value && cmderr == 1 {
            var o' := AbstractRun(c.rest, command);
            AbstractRunSuccessIsIdle(c.rest, command);
            if o'.value == 0 {
              LastOfConcat(w.events + p.events + c.events, o'.events);
            }
          }
        }
      }
    }
  }

  /** A successful busy wait ends with the no-op that brought back its word. */
  lemma {:induction false} PollEndsWithIdleWord(s: seq<Reply>)
    ensures var o := PollAbstractcs(s);
      o.value.Some? ==> o.events != [] && Last(o.events) == Scan(DMI_OP_NOP, Ack(o.value.value))
    decreases |s|
  {
    var r := DmiRead(s, DMI_REG_ABSTRACT_CS);
    if r.value.Some? && AbstractcsGetBusy(r.value.value) == 1 {
      PollEndsWithIdleWord(r.rest);
    }
  }


  /** Every scan among `events` was acknowledged. */
  predicate Acked(events: seq<Event>)
  {
    forall e | e in events :: e.Scan? ==> e.reply.Ack?
  }

  lemma DmiReadAcked(s: seq<Reply>, addr: bv32)
    ensures var r := DmiRead(s, addr); r.value.Some? <==> Acked(r.events)
  {
    var r := DmiRead(s, addr);
    if r.value.None? {
      if s == [] || s[0].Fail? {
        assert r.events[0].reply.Fail?;
      } else {
        assert r.events[1] in r.events;
      }
    }
  }

  /** The busy wait fails exactly when one of its scans fails. */
  lemma {:induction false} PollAcked(s: seq<Reply>)
    ensures var p := PollAbstractcs(s); p.value.Some? <==> Acked(p.events)
    decreases |s|
  {
    var r := DmiRead(s, DMI_REG_ABSTRACT_CS);
    DmiReadAcked(s, DMI_REG_ABSTRACT_CS);
    if r.value.Some? && AbstractcsGetBusy(r.value.value) == 1 {
      PollAcked(r.rest);
    }
  }

  /** A run returns -1 exactly when one of its scans fails: every cmderr the
      module reports is returned as such (or retried, for busy), never as -1. */
  lemma {:induction false} AbstractRunFailsOnFailedScan(s: seq<Reply>, command: bv32)
    ensures var o := AbstractRun(s, command); o.value == -1 <==> !Acked(o.events)
    decreases |s|
  {
    var w := DmiWrite(s, DMI_REG_ABSTRACT_CMD, command);
    if w.value {
      var p := PollAbstractcs(w.rest);
      PollAcked(w.rest);
      if p.value.Some? && AbstractcsGetCmderr(p.value.value) != 0 {
        var c := DmiWrite(p.rest, DMI_REG_ABSTRACT_CS, AbstractcsClearCmderr(0));
        if c.value && AbstractcsGetCmderr(p.value.value) == 1 {
          AbstractRunFailsOnFailedScan(c.rest, command);
        }
      }
    }
  }

  /** The event before the last one. */
  function BeforeLast(events: seq<Event>): Event
    requires |events| >= 2
  {
    events[|events| - 2]
  }

  lemma BeforeLastOfConcat(a: seq<Event>, b: seq<Event>)
    requires |b| >= 2
    ensures BeforeLast(a + b) == BeforeLast(b)
  {
  }

  lemma BeforeLastOfOne(a: seq<Event>, b: seq<Event>)
    requires a != [] && |b| == 1
    ensures BeforeLast(a + b) == Last(a)
  {
  }

  /** A positive return is the cmderr field of the word the busy wait brought
      back last, the one just before the write that clears it. */
  lemma {:induction false} AbstractRunReportsCmderr(s: seq<Reply>, command: bv32)
    ensures var o := AbstractRun(s, command);
      o.value > 0 ==>
        && |o.events| >= 2
        && BeforeLast(o.events).Scan? && BeforeLast(o.events).cmd == DMI_OP_NOP
        && BeforeLast(o.events).reply.Ack?
        && o.value == AbstractcsGetCmderr(BeforeLast(o.events).reply.data) as int
    decreases |s|
  {
    var w := DmiWrite(s, DMI_REG_ABSTRACT_CMD, command);
    if w.value {
      var p := PollAbstractcs(w.rest);
      if p.value.Some? && AbstractcsGetCmderr(p.value.value) != 0 {
        var cmderr := AbstractcsGetCmderr(p.value.value);
        var c := DmiWrite(p.rest, DMI_REG_ABSTRACT_CS, AbstractcsClearCmderr(0));
        if c.value {
          var head := w.events + p.events + c.events;
          if cmderr == 1 {
            var o' := AbstractRun(c.rest, command);
            AbstractRunReportsCmderr(c.rest, command);
            if o'.value > 0 {
              BeforeLastOfConcat(head, o'.events);
            }
          } else {
            assert AbstractRun(s, command) == Run(CmdErrCode(cmderr), head, c.rest);
            PollEndsWithIdleWord(w.rest);
            LastOfConcat(w.events, p.events);
            BeforeLastOfOne(w.events + p.events, c.events);
          }
        }
      }
    }
  }

  /** On the busy error, once cleared, the run writes the same command again:
      the scan after the clearing write is the command write. */
  lemma AbstractRunRetriesOnBusy(s: seq<Reply>, command: bv32)
    requires |s| >= 4 && s[0].Ack? && s[1].Ack? && s[2].Ack? && s[3].Ack?
    requires AbstractcsGetBusy(s[2].data) == 0 && AbstractcsGetCmderr(s[2].data) == ABSTRACTCMD_ERR_BUSY
    ensures var o := AbstractRun(s, command);
      && |o.events| >= 5
      && o.events[3] == Scan(DmiWriteCommand(DMI_REG_ABSTRACT_CS, 0x700), s[3])
      && o.events[4].Scan? && o.events[4].cmd == DmiWriteCommand(DMI_REG_ABSTRACT_CMD, command)
  {
    var w := DmiWrite(s, DMI_REG_ABSTRACT_CMD, command);
    var p := PollAbstractcs(w.rest);
    assert p == DmiRead(s[1..], DMI_REG_ABSTRACT_CS);
    var c := DmiWrite(p.rest, DMI_REG_ABSTRACT_CS, AbstractcsClearCmderr(0));
    assert p.rest == s[3..];
    AbstractRunStartsWithCommand(c.rest, command);
  }

  // ----- single registers -----

  /** rvdbg_read_single_reg outside CONT reports success exactly when the
      command ran without error and data0 then read back; the word stored is
      the reply to the no-op after the data0 read, and nothing is scanned
      after it. A command error gives -1 and stores nothing. */
  lemma ReadSingleOutcome(s: seq<Reply>, reg: bv16, astate: AutoexecState)
    requires astate != AutoexecCont
    ensures var o := ReadSingle(s, reg, astate);
      var a := AbstractRun(s, ReadRegisterCommand(reg, astate));
      && (a.value != 0 ==> o.value == (-1, None))
      && (o.value.0 == 0 <==> a.value == 0 && |a.rest| >= 2 && a.rest[0].Ack? && a.rest[1].Ack?)
      && (o.value.0 == 0 ==>
            && o.value.1 == Some(a.rest[1].data)
            && o.events == a.events + [Scan(DmiReadCommand(DMI_REG_ABSTRACTDATA_BEGIN), a.rest[0]),
                                       Scan(DMI_OP_NOP, a.rest[1])]
            && o.rest == a.rest[2..])
  {
  }

  /** In CONT no command is written: the word is the reply to the no-op after
      the data0 read, and success needs the busy wait that follows to end. */
  lemma ReadSingleContOutcome(s: seq<Reply>, reg: bv16)
    ensures var o := ReadSingle(s, reg, AutoexecCont);
      && (o.value.1.Some? <==> |s| >= 2 && s[0].Ack? && s[1].Ack?)
      && (o.value.1.Some? ==>
            && o.value.1.value == s[1].data
            && o.events[..2] == [Scan(DmiReadCommand(DMI_REG_ABSTRACTDATA_BEGIN), s[0]), Scan(DMI_OP_NOP, s[1])]
            && (o.value.0 == 0 <==> PollAbstractcs(s[2..]).value.Some?))
  {
  }

  /** rvdbg_write_single_reg writes `value` to data0 before anything else and
      fails if that write fails; after it, success is the command running
      without error (outside CONT) or the busy wait ending (in CONT). */
  lemma WriteSingleOutcome(s: seq<Reply>, reg: bv16, value: bv32, astate: AutoexecState)
    ensures var o := WriteSingle(s, reg, value, astate);
      && o.events != []
      && o.events[0] == Scan(DmiWriteCommand(DMI_REG_ABSTRACTDATA_BEGIN, value), o.events[0].reply)
      && (o.events[0].reply.Fail? ==> o.value == -1)
      && (o.value == 0 ==> s != [] && s[0].Ack?)
      && (s != [] && s[0].Ack? && astate != AutoexecCont ==>
            (o.value == 0 <==> AbstractRun(s[1..], WriteRegisterCommand(reg, astate)).value == 0))
      && (s != [] && s[0].Ack? && astate == AutoexecCont ==>
            (o.value == 0 <==> PollAbstractcs(s[1..]).value.Some?))
  {
  }


  // ----- batches -----

  /** A batch that arms autoexecdata writes 0xaaa to abstractauto first and,
      once armed, always writes 0 to it last, whatever happened in between. */
  lemma ReadRegsAutoexecBracket(s: seq<Reply>, autoexec: bool, reg: bv16, values: seq<bv32>, len: nat)
    requires len <= |values|
    ensures var o := ReadRegs(s, autoexec, reg, values, len);
      && (Arms(autoexec, len) ==>
            o.events != [] && o.events[0] == Scan(DmiWriteCommand(DMI_REG_ABSTRACT_AUTOEXEC, ARM_WORD), o.events[0].reply))
      && (Arms(autoexec, len) && o.events[0].reply.Ack? ==>
            Last(o.events).Scan? && Last(o.events).cmd == DmiWriteCommand(DMI_REG_ABSTRACT_AUTOEXEC, DISARM_WORD))
  {
    if Arms(autoexec, len) {
      var w := DmiWrite(s, DMI_REG_ABSTRACT_AUTOEXEC, ARM_WORD);
      if w.value {
        var l := ReadLoop(w.rest, reg, values, 0, len, AutoexecInit);
        var d := DmiWrite(l.rest, DMI_REG_ABSTRACT_AUTOEXEC, DISARM_WORD);
        assert w.events + (l.events + d.events) == (w.events + l.events) + d.events;
        LastOfConcat(w.events + l.events, d.events);
      }
    }
  }

  lemma WriteRegsAutoexecBracket(s: seq<Reply>, autoexec: bool, reg: bv16, values: seq<bv32>, len: nat)
    requires len <= |values|
    ensures var o := WriteRegs(s, autoexec, reg, values, len);
      && (Arms(autoexec, len) ==>
            o.events != [] && o.events[0] == Scan(DmiWriteCommand(DMI_REG_ABSTRACT_AUTOEXEC, ARM_WORD), o.events[0].reply))
      && (Arms(autoexec, len) && o.events[0].reply.Ack? ==>
            Last(o.events).Scan? && Last(o.events).cmd == DmiWriteCommand(DMI_REG_ABSTRACT_AUTOEXEC, DISARM_WORD))
  {
    if Arms(autoexec, len) {
      var w := DmiWrite(s, DMI_REG_ABSTRACT_AUTOEXEC, ARM_WORD);
      if w.value {
        var l := WriteLoop(w.rest, reg, values, 0, len, AutoexecInit);
        var d := DmiWrite(l.rest, DMI_REG_ABSTRACT_AUTOEXEC, DISARM_WORD);
        assert w.events + (l.events + d.events) == (w.events + l.events) + d.events;
        LastOfConcat(w.events + l.events, d.events);
      }
    }
  }

  /** Unarmed, a batch touches only data0, abstractcs and command; armed, the
      only command it writes is the INIT command of the first register, which
      the hardware then re-runs with post-increment. */
  lemma ReadRegsCommands(s: seq<Reply>, autoexec: bool, reg: bv16, values: seq<bv32>, len: nat)
    requires len <= |values|
    ensures var o := ReadRegs(s, autoexec, reg, values, len);
      && (!Arms(autoexec, len) ==> RegisterAccessScans(o.events))
      && (Arms(autoexec, len) ==> CommandWritesOnly(o.events, ReadRegisterCommand(reg, AutoexecInit)))
  {
  }

  lemma WriteRegsCommands(s: seq<Reply>, autoexec: bool, reg: bv16, values: seq<bv32>, len: nat)
    requires len <= |values|
    ensures var o := WriteRegs(s, autoexec, reg, values, len);
      && (!Arms(autoexec, len) ==> RegisterAccessScans(o.events))
      && (Arms(autoexec, len) ==> CommandWritesOnly(o.events, WriteRegisterCommand(reg, AutoexecInit)))
  {
  }

  /** A read batch stores only into the first len entries. */
  lemma ReadRegsKeepsTail(s: seq<Reply>, autoexec: bool, reg: bv16, values: seq<bv32>, len: nat)
    requires len <= |values|
    ensures var o := ReadRegs(s, autoexec, reg, values, len);
      forall j | len <= j < |values| :: o.value.1[j] == values[j]
  {
    var o := ReadRegs(s, autoexec, reg, values, len);
    if Arms(autoexec, len) {
      var w := DmiWrite(s, DMI_REG_ABSTRACT_AUTOEXEC, ARM_WORD);
      if w.value {
        ReadLoopKeepsOutside(w.rest, reg, values, 0, len, AutoexecInit);
      }
    } else {
      ReadLoopKeepsOutside(s, reg, values, 0, len, AutoexecNone);
    }
    forall j | len <= j < |values|
      ensures o.value.1[j] == values[j]
    {
      assert o.value.1[len..][j - len] == values[len..][j - len];
    }
  }

  // ----- what the batches move -----

  /** The command words of the scans among `events` that write data0, in order. */
  function Data0Writes(events: seq<Event>): seq<bv64>
  {
    if events == [] then []
    else (if WritesTo(events[0], DMI_REG_ABSTRACTDATA_BEGIN) then [events[0].cmd] else [])
         + Data0Writes(events[1..])
  }

  lemma {:induction false} Data0WritesAppend(a: seq<Event>, b: seq<Event>)
    ensures Data0Writes(a + b) == Data0Writes(a) + Data0Writes(b)
    decreases |a|
  {
    if a != [] {
      var head := if WritesTo(a[0], DMI_REG_ABSTRACTDATA_BEGIN) then [a[0].cmd] else [];
      assert (a + b)[0] == a[0];
      assert (a + b)[1..] == a[1..] + b;
      Data0WritesAppend(a[1..], b);
      calc {
        Data0Writes(a + b);
        head + Data0Writes(a[1..] + b);
        head + (Data0Writes(a[1..]) + Data0Writes(b));
        (head + Data0Writes(a[1..])) + Data0Writes(b);
        Data0Writes(a) + Data0Writes(b);
      }
    } else {
      assert a + b == b;
    }
  }

  /** Scans drawn from `cmds`, none of which writes data0, write no data0. */
  lemma {:induction false} NoData0Writes(events: seq<Event>, cmds: set<bv64>)
    requires ScansAmong(events, cmds)
    requires forall c | c in cmds :: !WritesTo(Scan(c, Fail), DMI_REG_ABSTRACTDATA_BEGIN)
    ensures Data0Writes(events) == []
    decreases |events|
  {
    if events != [] {
      assert events[0] in events;
      assert WritesTo(events[0], DMI_REG_ABSTRACTDATA_BEGIN) == WritesTo(Scan(events[0].cmd, Fail), DMI_REG_ABSTRACTDATA_BEGIN);
      NoData0Writes(events[1..], cmds);
    }
  }

  /** Neither the busy wait nor an abstract command run writes data0. */
  lemma RunWritesNoData0(s: seq<Reply>, command: bv32)
    ensures Data0Writes(PollAbstractcs(s).events) == []
    ensures Data0Writes(AbstractRun(s, command).events) == []
  {
    PollReadsAbstractcs(s);
    NoData0Writes(PollAbstractcs(s).events, {DmiReadCommand(DMI_REG_ABSTRACT_CS), DMI_OP_NOP});
    AbstractRunScans(s, command);
    NoData0Writes(AbstractRun(s, command).events, RunCmds(command));
  }

  /** A single register write writes data0 once, with `value`. */
  lemma WriteSingleData0(s: seq<Reply>, reg: bv16, value: bv32, astate: AutoexecState)
    ensures Data0Writes(WriteSingle(s, reg, value, astate).events) == [DmiWriteCommand(DMI_REG_ABSTRACTDATA_BEGIN, value)]
  {
    var w := DmiWrite(s, DMI_REG_ABSTRACTDATA_BEGIN, value);
    assert Data0Writes(w.events) == [DmiWriteCommand(DMI_REG_ABSTRACTDATA_BEGIN, value)];
    if w.value {
      RunWritesNoData0(w.rest, WriteRegisterCommand(reg, astate));
      if astate != AutoexecCont {
        Data0WritesAppend(w.events, AbstractRun(w.rest, WriteRegisterCommand(reg, astate)).events);
      } else {
        Data0WritesAppend(w.events, PollAbstractcs(w.rest).events);
      }
    }
  }

  /** The data0 write commands carrying values[0], values[1], ... in turn. */
  function WriteCommands(values: seq<bv32>): seq<bv64>
  {
    seq(|values|, k requires 0 <= k < |values| => DmiWriteCommand(DMI_REG_ABSTRACTDATA_BEGIN, values[k]))
  }

  /** The data0 writes of a run of the loop from i are the commands for
      values[i], values[i + 1], ... short of len, and all of them when the run
      succeeds. */
  predicate WriteLoopWritesValues(o: Run<(int, AutoexecState)>, values: seq<bv32>, i: nat, len: nat)
    requires i <= len <= |values|
  {
    var ws := Data0Writes(o.events);
    && |ws| <= len - i
    && ws == WriteCommands(values[i..len])[..|ws|]
    && (o.value.0 == 0 ==> |ws| == len - i)
  }

  /** The loop from index i writes data0 with values[i], values[i + 1], ... in turn. */
  lemma {:induction false} WriteLoopData0(s: seq<Reply>, reg: bv16, values: seq<bv32>, i: nat, len: nat,
                                          astate: AutoexecState)
    requires i <= len <= |values|
    ensures WriteLoopWritesValues(WriteLoop(s, reg, values, i, len, astate), values, i, len)
    decreases len - i, 1
  {
    if i < len {
      WriteLoopData0Step(s, reg, values, i, len, astate);
    }
  }

  lemma {:induction false} WriteLoopData0Step(s: seq<Reply>, reg: bv16, values: seq<bv32>, i: nat, len: nat,
                                              astate: AutoexecState)
    requires i < len <= |values|
    ensures WriteLoopWritesValues(WriteLoop(s, reg, values, i, len, astate), values, i, len)
    decreases len - i, 0
  {
    var w := WriteSingle(s, reg, values[i], astate);
    WriteSingleData0(s, reg, values[i], astate);
    var all := WriteCommands(values[i..len]);
    assert all[0] == DmiWriteCommand(DMI_REG_ABSTRACTDATA_BEGIN, values[i]);
    if w.value >= 0 {
      var o' := WriteLoop(w.rest, reg + 1, values, i + 1, len, NextState(astate));
      WriteLoopData0(w.rest, reg + 1, values, i + 1, len, NextState(astate));
      assert WriteLoop(s, reg, values, i, len, astate) == Then(w.events, o');
      Data0WritesAppend(w.events, o'.events);
      var ws' := Data0Writes(o'.events);
      WriteCommandsCons(values[i..len], values[i + 1..len], ws');
    } else {
      assert WriteLoop(s, reg, values, i, len, astate) == Run((-1, astate), w.events, w.rest);
    }
  }

  /** Putting the first command before a prefix of the later ones gives a
      prefix of all of them. */
  lemma WriteCommandsCons(v: seq<bv32>, v': seq<bv32>, ws': seq<bv64>)
    requires v != [] && v' == v[1..] && |ws'| <= |v'| && ws' == WriteCommands(v')[..|ws'|]
    ensures [WriteCommands(v)[0]] + ws' == WriteCommands(v)[..|ws'| + 1]
  {
    var all := WriteCommands(v);
    assert forall k | 0 <= k < |ws'| :: ws'[k] == all[k + 1];
  }

  /** rvdbg_write_regs writes values[0], values[1], ... to data0 in this order,
      one each, and all `len` of them when it succeeds; arming and disarming
      autoexecdata write abstractauto, not data0. */
  lemma WriteRegsData0(s: seq<Reply>, autoexec: bool, reg: bv16, values: seq<bv32>, len: nat)
    requires len <= |values|
    ensures var o := WriteRegs(s, autoexec, reg, values, len); var ws := Data0Writes(o.events);
      && |ws| <= len
      && ws == WriteCommands(values[..len])[..|ws|]
      && (o.value == 0 ==> |ws| == len)
  {
    if Arms(autoexec, len) {
      var w := DmiWrite(s, DMI_REG_ABSTRACT_AUTOEXEC, ARM_WORD);
      if w.value {
        WriteBatchData0(w.rest, reg, values, len, AutoexecInit);
        Data0WritesAppend(w.events, WriteBatch(w.rest, reg, values, len, AutoexecInit).events);
      }
    } else {
      WriteBatchData0(s, reg, values, len, AutoexecNone);
    }
  }

  /** The loop of a write batch and the disarming write put values[0],
      values[1], ... into data0 in turn, all len of them when the batch
      succeeds. */
  lemma WriteBatchData0(s: seq<Reply>, reg: bv16, values: seq<bv32>, len: nat, astate: AutoexecState)
    requires len <= |values|
    ensures var o := WriteBatch(s, reg, values, len, astate); var ws := Data0Writes(o.events);
      && |ws| <= len
      && ws == WriteCommands(values[..len])[..|ws|]
      && (o.value == 0 ==> |ws| == len)
  {
    var l := WriteLoop(s, reg, values, 0, len, astate);
    WriteLoopData0(s, reg, values, 0, len, astate);
    assert values[0..len] == values[..len];
    if l.value.1 != AutoexecNone {
      var d := DmiWrite(l.rest, DMI_REG_ABSTRACT_AUTOEXEC, DISARM_WORD);
      assert WriteBatch(s, reg, values, len, astate)
          == Run(if d.value then l.value.0 else -1, l.events + d.events, d.rest);
      Data0WritesAppend(l.events, d.events);
    }
  }

  /** A read of data0 that was acknowledged. */
  predicate AckedData0Read(e: Event)
  {
    e.Scan? && e.cmd == DmiReadCommand(DMI_REG_ABSTRACTDATA_BEGIN) && e.reply.Ack?
  }

  /** An acknowledged no-op, which brings back the word of the read before it. */
  predicate AckedNop(e: Event)
  {
    e.Scan? && e.cmd == DMI_OP_NOP && e.reply.Ack?
  }

  /** The words read from data0 among `events`, in order: the reply of each
      acknowledged no-op that directly follows an acknowledged read of data0. */
  function Data0Reads(events: seq<Event>): seq<bv32>
    decreases |events|
  {
    if |events| < 2 then []
    else if AckedData0Read(events[0]) && AckedNop(events[1]) then [events[1].reply.data] + Data0Reads(events[2..])
    else Data0Reads(events[1..])
  }

  /** Joining two runs keeps the words of each, unless the first ends with a
      read of data0 whose no-op opens the second. */
  lemma {:induction false} Data0ReadsAppend(a: seq<Event>, b: seq<Event>)
    requires a == [] || b == [] || !AckedData0Read(Last(a)) || !AckedNop(b[0])
    ensures Data0Reads(a + b) == Data0Reads(a) + Data0Reads(b)
    decreases |a|
  {
    if a == [] {
      assert a + b == b;
    } else if b == [] {
      assert a + b == a;
    } else if |a| == 1 {
      assert (a + b)[0] == a[0] && (a + b)[1] == b[0];
      assert (a + b)[1..] == b;
    } else {
      assert (a + b)[0] == a[0] && (a + b)[1] == a[1];
      if AckedData0Read(a[0]) && AckedNop(a[1]) {
        assert (a + b)[2..] == a[2..] + b;
        if a[2..] != [] {
          assert Last(a[2..]) == Last(a);
        }
        Data0ReadsAppend(a[2..], b);
      } else {
        assert (a + b)[1..] == a[1..] + b;
        assert Last(a[1..]) == Last(a);
        Data0ReadsAppend(a[1..], b);
      }
    }
  }

  /** Scans drawn from `cmds`, which do not include the read of data0, read
      no word from data0. */
  lemma {:induction false} NoData0Reads(events: seq<Event>, cmds: set<bv64>)
    requires ScansAmong(events, cmds) && DmiReadCommand(DMI_REG_ABSTRACTDATA_BEGIN) !in cmds
    ensures Data0Reads(events) == []
    ensures forall e | e in events :: !AckedData0Read(e)
    decreases |events|
  {
    if |events| >= 2 {
      assert events[0] in events;
      assert forall e | e in events[1..] :: e in events;
      NoData0Reads(events[1..], cmds);
    }
  }

  /** The command words of the busy wait and of an abstract command run
      include no read of data0. */
  lemma RunCmdsReadNoData0(command: bv32)
    ensures DmiReadCommand(DMI_REG_ABSTRACTDATA_BEGIN) !in {DmiReadCommand(DMI_REG_ABSTRACT_CS), DMI_OP_NOP}
    ensures DmiReadCommand(DMI_REG_ABSTRACTDATA_BEGIN) !in RunCmds(command)
  {
    DmiCommandsDistinct(DMI_REG_ABSTRACTDATA_BEGIN, DMI_REG_ABSTRACT_CMD, command);
    DmiCommandsDistinct(DMI_REG_ABSTRACTDATA_BEGIN, DMI_REG_ABSTRACT_CS, 0x700);
  }

  /** Reading data0 after a command reads one word from data0, the one it
      yields, and none when it yields none; its last scan is never a read of
      data0. */
  lemma ReadDataData0(s: seq<Reply>, astate: AutoexecState)
    ensures var o := ReadData(s, astate);
      && Data0Reads(o.events) == (if o.value.1.Some? then [o.value.1.value] else [])
      && o.events != [] && !AckedData0Read(Last(o.events))
  {
    var d := DmiRead(s, DMI_REG_ABSTRACTDATA_BEGIN);
    DmiCommandsDistinct(DMI_REG_ABSTRACTDATA_BEGIN, 0, 0);
    if d.value.Some? && astate == AutoexecCont {
      var p := PollAbstractcs(d.rest);
      PollReadsAbstractcs(d.rest);
      RunCmdsReadNoData0(0);
      NoData0Reads(p.events, {DmiReadCommand(DMI_REG_ABSTRACT_CS), DMI_OP_NOP});
      Data0ReadsAppend(d.events, p.events);
      assert Data0Reads(d.events) == [d.value.value];
      if p.events != [] {
        LastOfConcat(d.events, p.events);
        assert Last(p.events) in p.events;
      }
    }
  }

  /** A single register read reads from data0 exactly the word it stores, and
      none when it stores none; its last scan is never a read of data0. */
  lemma ReadSingleData0(s: seq<Reply>, reg: bv16, astate: AutoexecState)
    ensures var o := ReadSingle(s, reg, astate);
      && Data0Reads(o.events) == (if o.value.1.Some? then [o.value.1.value] else [])
      && o.events != [] && !AckedData0Read(Last(o.events))
  {
    if astate != AutoexecCont {
      var command := ReadRegisterCommand(reg, astate);
      var a := AbstractRun(s, command);
      AbstractRunScans(s, command);
      AbstractRunStartsWithCommand(s, command);
      RunCmdsReadNoData0(command);
      NoData0Reads(a.events, RunCmds(command));
      assert Last(a.events) in a.events;
      if a.value == 0 {
        var d := ReadData(a.rest, astate);
        ReadDataData0(a.rest, astate);
        Data0ReadsAppend(a.events, d.events);
        LastOfConcat(a.events, d.events);
      }
    } else {
      ReadDataData0(s, astate);
    }
  }

  /** The words read from data0 by a run of the read loop from i land in
      values[i], values[i + 1], ... in turn, every other entry is kept, they
      are short of len - i only when the run fails, and the run does not end
      with a read of data0. */
  predicate ReadLoopStoresReads(o: Run<(int, seq<bv32>, AutoexecState)>, values: seq<bv32>, i: nat, len: nat)
    requires i <= len <= |values|
  {
    var ws := Data0Reads(o.events);
    && |ws| <= len - i
    && o.value.1 == values[..i] + ws + values[i + |ws|..]
    && (o.value.0 == 0 ==> |ws| == len - i)
    && (o.events == [] || !AckedData0Read(Last(o.events)))
  }

  /** The loop from index i stores the words it reads from data0, in the order
      read, into values[i], values[i + 1], ..., whatever the replies. */
  lemma {:induction false} ReadLoopData0(s: seq<Reply>, reg: bv16, values: seq<bv32>, i: nat, len: nat,
                                         astate: AutoexecState)
    requires i <= len <= |values|
    ensures ReadLoopStoresReads(ReadLoop(s, reg, values, i, len, astate), values, i, len)
    decreases len - i, 1
  {
    if i == len {
      ReadLoopDoneData0(s, reg, values, len, astate);
    } else if ReadSingle(s, reg, astate).value.0 < 0 {
      ReadLoopFailData0(s, reg, values, i, len, astate);
    } else {
      ReadLoopOkCase(s, reg, values, i, len, astate);
    }
  }

  lemma {:induction false} ReadLoopOkCase(s: seq<Reply>, reg: bv16, values: seq<bv32>, i: nat, len: nat,
                                          astate: AutoexecState)
    requires i < len <= |values|
    requires ReadSingle(s, reg, astate).value.0 >= 0
    ensures ReadLoopStoresReads(ReadLoop(s, reg, values, i, len, astate), values, i, len)
    decreases len - i, 0
  {
    var rest, values' := ReadLoopOkData0(s, reg, values, i, len, astate);
    ReadLoopData0(rest, reg + 1, values', i + 1, len, NextState(astate));
  }

  /** The loop with nothing left to read reads nothing from data0. */
  lemma ReadLoopDoneData0(s: seq<Reply>, reg: bv16, values: seq<bv32>, len: nat, astate: AutoexecState)
    requires len <= |values|
    ensures ReadLoopStoresReads(ReadLoop(s, reg, values, len, len, astate), values, len, len)
  {
    assert values[..len] + [] + values[len..] == values;
  }

  /** A run of the loop whose first single read succeeds stores its word at i
      and then what the run from i + 1, over the replies after that read,
      stores. */
  lemma ReadLoopOkData0(s: seq<Reply>, reg: bv16, values: seq<bv32>, i: nat, len: nat, astate: AutoexecState)
    returns (rest: seq<Reply>, values': seq<bv32>)
    requires i < len <= |values|
    requires ReadSingle(s, reg, astate).value.0 >= 0
    ensures |values'| == |values|
    ensures ReadLoopStoresReads(ReadLoop(rest, reg + 1, values', i + 1, len, NextState(astate)), values', i + 1, len)
            ==> ReadLoopStoresReads(ReadLoop(s, reg, values, i, len, astate), values, i, len)
  {
    var r := ReadSingle(s, reg, astate);
    rest, values' := r.rest, StoreRead(values, i, r.value.1);
    ReadSingleData0(s, reg, astate);
    var o' := ReadLoop(rest, reg + 1, values', i + 1, len, NextState(astate));
    ReadLoopOkStep(s, reg, values, i, len, astate);
    if ReadLoopStoresReads(o', values', i + 1, len) {
      ReadLoopStoresCons(r.events, r.value.1.value, o', values, i, len);
    }
  }

  /** A run of the loop whose first single read fails stores what that read
      yielded, if anything, and stops. */
  lemma ReadLoopFailData0(s: seq<Reply>, reg: bv16, values: seq<bv32>, i: nat, len: nat, astate: AutoexecState)
    requires i < len <= |values|
    requires ReadSingle(s, reg, astate).value.0 < 0
    ensures ReadLoopStoresReads(ReadLoop(s, reg, values, i, len, astate), values, i, len)
  {
    var r := ReadSingle(s, reg, astate);
    ReadSingleData0(s, reg, astate);
    ReadLoopFailStep(s, reg, values, i, len, astate);
    StoreReadSplice(values, i, r.value.1);
  }

  /** After a failed single read, the loop stops with what that read stored. */
  lemma ReadLoopFailStep(s: seq<Reply>, reg: bv16, values: seq<bv32>, i: nat, len: nat, astate: AutoexecState)
    requires i < len <= |values|
    requires ReadSingle(s, reg, astate).value.0 < 0
    ensures var r := ReadSingle(s, reg, astate);
      ReadLoop(s, reg, values, i, len, astate) == Run((-1, StoreRead(values, i, r.value.1), astate), r.events, r.rest)
  {
  }

  /** A read that stored w at i, before a run of the loop from i + 1. */
  lemma ReadLoopStoresCons(events: seq<Event>, w: bv32, o': Run<(int, seq<bv32>, AutoexecState)>,
                           values: seq<bv32>, i: nat, len: nat)
    requires i < len <= |values|
    requires Data0Reads(events) == [w] && events != [] && !AckedData0Read(Last(events))
    requires ReadLoopStoresReads(o', values[i := w], i + 1, len)
    ensures ReadLoopStoresReads(Then(events, o'), values, i, len)
  {
    Data0ReadsAppend(events, o'.events);
    if o'.events != [] {
      LastOfConcat(events, o'.events);
    }
    SpliceAfterStore(values, i, w, Data0Reads(o'.events));
  }

  /** Storing what one read yields is splicing in the words it read. */
  lemma StoreReadSplice(values: seq<bv32>, i: nat, out: Option<bv32>)
    requires i < |values|
    ensures var ws := if out.Some? then [out.value] else [];
      StoreRead(values, i, out) == values[..i] + ws + values[i + |ws|..]
  {
    if out.None? {
      assert values[..i] + [] + values[i..] == values;
    }
  }

  /** Storing w at i and splicing in later words after it is splicing in w
      followed by them at i. */
  lemma SpliceAfterStore(values: seq<bv32>, i: nat, w: bv32, ws: seq<bv32>)
    requires i + 1 + |ws| <= |values|
    ensures var values' := values[i := w];
      values'[..i + 1] + ws + values'[i + 1 + |ws|..] == values[..i] + ([w] + ws) + values[i + 1 + |ws|..]
  {
    var values' := values[i := w];
    assert values'[..i + 1] == values[..i] + [w];
    assert values'[i + 1 + |ws|..] == values[i + 1 + |ws|..];
  }

  /** The loop of a read batch and the disarming write store the words read
      from data0, in order, from values[0], whatever the replies; all len of
      them when the batch succeeds. */
  lemma ReadBatchData0(s: seq<Reply>, reg: bv16, values: seq<bv32>, len: nat, astate: AutoexecState)
    requires len <= |values|
    ensures var o := ReadBatch(s, reg, values, len, astate); var ws := Data0Reads(o.events);
      && |ws| <= len
      && o.value.1 == ws + values[|ws|..]
      && (o.value.0 == 0 ==> |ws| == len)
      && (o.events == [] || !AckedData0Read(Last(o.events)))
  {
    var l := ReadLoop(s, reg, values, 0, len, astate);
    ReadLoopData0(s, reg, values, 0, len, astate);
    var ws := Data0Reads(l.events);
    assert values[..0] + ws == ws;
    if l.value.2 != AutoexecNone {
      var d := DmiWrite(l.rest, DMI_REG_ABSTRACT_AUTOEXEC, DISARM_WORD);
      assert ReadBatch(s, reg, values, len, astate)
          == Run((if d.value then l.value.0 else -1, l.value.1), l.events + d.events, d.rest);
      WriteReadsNoData0(l.events, d.events, DMI_REG_ABSTRACT_AUTOEXEC, DISARM_WORD);
    }
  }

  /** A DMI write after a run adds no word read from data0, and the joined
      run does not end with a read of data0. */
  lemma WriteReadsNoData0(a: seq<Event>, b: seq<Event>, addr: bv32, data: bv32)
    requires |b| == 1 && b[0].Scan? && b[0].cmd == DmiWriteCommand(addr, data)
    ensures Data0Reads(a + b) == Data0Reads(a)
    ensures !AckedData0Read(Last(a + b))
  {
    DmiCommandsDistinct(DMI_REG_ABSTRACTDATA_BEGIN, addr, data);
    Data0ReadsAppend(a, b);
    LastOfConcat(a, b);
  }

  /** rvdbg_read_regs stores the words it reads from data0, in the order read,
      into values[0], values[1], ..., keeps every other entry, and reads all
      len of them when it succeeds, whatever the replies: busy waits, command
      errors and failed scans included. */
  lemma ReadRegsData0(s: seq<Reply>, autoexec: bool, reg: bv16, values: seq<bv32>, len: nat)
    requires len <= |values|
    ensures var o := ReadRegs(s, autoexec, reg, values, len); var ws := Data0Reads(o.events);
      && |ws| <= len
      && o.value.1 == ws + values[|ws|..]
      && (o.value.0 == 0 ==> |ws| == len)
  {
    if Arms(autoexec, len) {
      var w := DmiWrite(s, DMI_REG_ABSTRACT_AUTOEXEC, ARM_WORD);
      DmiCommandsDistinct(DMI_REG_ABSTRACTDATA_BEGIN, DMI_REG_ABSTRACT_AUTOEXEC, ARM_WORD);
      assert Last(w.events) == w.events[0];
      if w.value {
        var b := ReadBatch(w.rest, reg, values, len, AutoexecInit);
        ReadBatchData0(w.rest, reg, values, len, AutoexecInit);
        Data0ReadsAppend(w.events, b.events);
      } else {
        assert values[0..] == values;
      }
    } else {
      ReadBatchData0(s, reg, values, len, AutoexecNone);
    }
  }

  /** The replies of a debug module that completes every command at once and
      holds `word` in data0, to one register read outside CONT: the command
      write, the abstractcs read and its no-op (bringing back 0: idle, no
      error), the data0 read and its no-op (bringing back `word`). */
  function ReadReplies(word: bv32): seq<Reply>
  {
    [Ack(0), Ack(0), Ack(0), Ack(0), Ack(word)]
  }

  /** The same module's replies to one read in CONT: the data0 read and its
      no-op, then the abstractcs read and its no-op. */
  function ContReplies(word: bv32): seq<Reply>
  {
    [Ack(0), Ack(word), Ack(0), Ack(0)]
  }

  /** The replies to reading registers holding `words`, starting in `astate`. */
  function IdleReads(words: seq<bv32>, astate: AutoexecState): seq<Reply>
  {
    if words == [] then []
    else (if astate == AutoexecCont then ContReplies(words[0]) else ReadReplies(words[0]))
         + IdleReads(words[1..], NextState(astate))
  }

  /** The replies to a whole rvdbg_read_regs batch of |words| registers,
      including the abstractauto writes that arm and disarm autoexecdata. */
  function IdleBatch(autoexec: bool, words: seq<bv32>): seq<Reply>
  {
    if Arms(autoexec, |words|) then [Ack(0)] + IdleReads(words, AutoexecInit) + [Ack(0)]
    else IdleReads(words, AutoexecNone)
  }

  lemma ReadSingleIdle(word: bv32, rest: seq<Reply>, reg: bv16, astate: AutoexecState)
    ensures var o := ReadSingle((if astate == AutoexecCont then ContReplies(word) else ReadReplies(word)) + rest,
                                reg, astate);
      o.value == (0, Some(word)) && o.rest == rest
  {
    if astate == AutoexecCont {
      var s := ContReplies(word) + rest;
      assert s[2..] == [Ack(0), Ack(0)] + rest;
      assert PollAbstractcs(s[2..]) == DmiRead(s[2..], DMI_REG_ABSTRACT_CS);
      assert s[2..][2..] == rest;
    } else {
      var s := ReadReplies(word) + rest;
      var command := ReadRegisterCommand(reg, astate);
      assert s[1..] == [Ack(0), Ack(0), Ack(0), Ack(word)] + rest;
      assert PollAbstractcs(s[1..]) == DmiRead(s[1..], DMI_REG_ABSTRACT_CS);
      assert s[1..][2..] == [Ack(0), Ack(word)] + rest;
      assert AbstractRun(s, command).value == 0;
      assert s[1..][2..][2..] == rest;
    }
  }

  /** Reading registers that hold `words` from index i stores words into
      values[i .. len), leaves the rest of values alone, and succeeds. */
  lemma {:induction false} ReadLoopIdle(words: seq<bv32>, rest: seq<Reply>, reg: bv16, values: seq<bv32>,
                                        i: nat, len: nat, astate: AutoexecState)
    requires i <= len <= |values| && |words| == len - i
    ensures var o := ReadLoop(IdleReads(words, astate) + rest, reg, values, i, len, astate);
      o.value.0 == 0 && o.value.1 == values[..i] + words + values[len..] && o.rest == rest
    decreases len - i, 1
  {
    if i < len {
      ReadLoopIdleStep(words, rest, reg, values, i, len, astate);
    } else {
      assert values[..i] + values[len..] == values;
    }
  }

  lemma {:induction false} ReadLoopIdleStep(words: seq<bv32>, rest: seq<Reply>, reg: bv16, values: seq<bv32>,
                                            i: nat, len: nat, astate: AutoexecState)
    requires i < len <= |values| && |words| == len - i
    ensures var o := ReadLoop(IdleReads(words, astate) + rest, reg, values, i, len, astate);
      o.value.0 == 0 && o.value.1 == values[..i] + words + values[len..] && o.rest == rest
    decreases len - i, 0
  {
    var s := IdleReads(words, astate) + rest;
    var more := IdleReads(words[1..], NextState(astate)) + rest;
    IdleReadsCons(words, astate, rest);
    ReadSingleIdle(words[0], more, reg, astate);
    var values' := values[i := words[0]];
    ReadLoopIdle(words[1..], rest, reg + 1, values', i + 1, len, NextState(astate));
    ReadLoopOkStep(s, reg, values, i, len, astate);
    StoreAndSplice(values, words, i, len);
  }

  lemma IdleReadsCons(words: seq<bv32>, astate: AutoexecState, rest: seq<Reply>)
    requires words != []
    ensures IdleReads(words, astate) + rest
         == (if astate == AutoexecCont then ContReplies(words[0]) else ReadReplies(words[0]))
            + (IdleReads(words[1..], NextState(astate)) + rest)
  {
  }

  /** After a successful single read, the loop goes on from the next index
      with the word stored. */
  lemma ReadLoopOkStep(s: seq<Reply>, reg: bv16, values: seq<bv32>, i: nat, len: nat, astate: AutoexecState)
    requires i < len <= |values|
    requires ReadSingle(s, reg, astate).value.0 == 0
    ensures var r := ReadSingle(s, reg, astate);
      var o' := ReadLoop(r.rest, reg + 1, StoreRead(values, i, r.value.1), i + 1, len, NextState(astate));
      ReadLoop(s, reg, values, i, len, astate) == Then(r.events, o')
  {
  }

  /** Storing the first word at i and splicing in the others after it is
      splicing in all the words at i. */
  lemma StoreAndSplice(values: seq<bv32>, words: seq<bv32>, i: nat, len: nat)
    requires i < len <= |values| && |words| == len - i
    ensures var values' := values[i := words[0]];
      values'[..i + 1] + words[1..] + values'[len..] == values[..i] + words + values[len..]
  {
    var values' := values[i := words[0]];
    assert values'[..i + 1] == values[..i] + [words[0]];
    assert values'[len..] == values[len..];
    assert [words[0]] + words[1..] == words;
  }

  /** Read back from a module whose registers reg, reg + 1, ... hold `words`,
      rvdbg_read_regs stores exactly those words in values[0 .. |words|),
      keeps the other entries, and returns 0, armed or not. */
  lemma ReadRegsFromIdleModule(autoexec: bool, reg: bv16, values: seq<bv32>, words: seq<bv32>, rest: seq<Reply>)
    requires |words| <= |values|
    ensures var o := ReadRegs(IdleBatch(autoexec, words) + rest, autoexec, reg, values, |words|);
      o.value == (0, words + values[|words|..]) && o.rest == rest
  {
    if Arms(autoexec, |words|) {
      var s := IdleBatch(autoexec, words) + rest;
      var tail := [Ack(0)] + rest;
      assert s == [Ack(0)] + (IdleReads(words, AutoexecInit) + tail);
      assert s[1..] == IdleReads(words, AutoexecInit) + tail;
      ReadBatchIdle(words, tail, reg, values, AutoexecInit);
      assert tail[1..] == rest;
    } else {
      ReadBatchIdle(words, rest, reg, values, AutoexecNone);
    }
  }

  /** The loop and the disarming write of a batch, against the same module. */
  lemma ReadBatchIdle(words: seq<bv32>, tail: seq<Reply>, reg: bv16, values: seq<bv32>, astate: AutoexecState)
    requires |words| <= |values|
    requires astate != AutoexecNone ==> tail != [] && tail[0].Ack?
    ensures var o := ReadBatch(IdleReads(words, astate) + tail, reg, values, |words|, astate);
      o.value == (0, words + values[|words|..]) && o.rest == (if astate != AutoexecNone then tail[1..] else tail)
  {
    ReadLoopIdle(words, tail, reg, values, 0, |words|, astate);
    assert values[..0] + words + values[|words|..] == words + values[|words|..];
  }

  // ----- program buffer -----

  /** The upload loop starts at index 0x20, so a buffer the capacity check
      accepts is never written while progbufsize is below 32, and every
      progbufsize read from abstractcs is. */
  lemma UploadWritesNothing(s: seq<Reply>, progbufSize: bv8, impebreak: bool, buffer: seq<bv32>)
    requires |buffer| < 0x100 && progbufSize <= 31
    ensures Upload(s, progbufSize, impebreak, buffer) ==
      Run(if |buffer| > ProgbufCapacity(progbufSize, impebreak) then -1 else 0, [], s)
  {
  }

  /** Whatever rvdbg_progbuf_upload scans is a DMI write at address 0x40 or
      beyond, never one of the program-buffer registers 0x20-0x2f, and it
      scans at all only for a buffer of more than 32 words. */
  lemma UploadTargets(s: seq<Reply>, progbufSize: bv8, impebreak: bool, buffer: seq<bv32>)
    requires |buffer| < 0x100
    ensures forall e | e in Upload(s, progbufSize, impebreak, buffer).events :: UploadWrite(e)
    ensures Upload(s, progbufSize, impebreak, buffer).events != [] ==> |buffer| > 0x20
  {
    if |buffer| <= ProgbufCapacity(progbufSize, impebreak) {
      UploadLoopTargets(s, buffer, 0x20, 0x40);
      if |buffer| <= 0x20 {
        assert UploadLoop(s, buffer, 0x20, 0x40).events == [];
      }
    }
  }

  /** A scan the upload loop may issue: a write at DMI address 0x40 or beyond,
      short of 0x120. */
  predicate UploadWrite(e: Event)
  {
    e.Scan? && DmiGetOp(e.cmd) == DMI_OP_WRITE && 0x40 <= DmiAddr(e.cmd) < 0x120
  }

  /** Where the loop writes at all, it writes at DMI address 0x40 or beyond,
      past the sixteen program-buffer registers 0x20-0x2f. */
  lemma {:induction false} UploadLoopTargets(s: seq<Reply>, buffer: seq<bv32>, i: nat, addr: bv32)
    requires |buffer| < 0x100 && 0x20 <= i && addr as int == DMI_REG_PROGRAMBUF_BEGIN as int + i
    ensures forall e | e in UploadLoop(s, buffer, i, addr).events :: UploadWrite(e)
    decreases |buffer| - i
  {
    if i < |buffer| {
      var w := DmiWrite(s, addr, buffer[i]);
      UploadAddress(addr, buffer[i], w.events[0].reply);
      if w.value {
        UploadLoopTargets(w.rest, buffer, i + 1, addr + 1);
        UploadWritesAppend(w.events, UploadLoop(w.rest, buffer, i + 1, addr + 1).events);
      }
    }
  }

  /** Upload writes of two stretches of the loop make upload writes together. */
  lemma UploadWritesAppend(a: seq<Event>, b: seq<Event>)
    requires forall e | e in a :: UploadWrite(e)
    requires forall e | e in b :: UploadWrite(e)
    ensures forall e | e in a + b :: UploadWrite(e)
  {
  }

  /** What the upload loop writes at an address between 0x40 and 0x120, and
      that the next address is one more. */
  lemma UploadAddress(addr: bv32, data: bv32, r: Reply)
    requires 0x40 <= addr as int < 0x120
    ensures UploadWrite(Scan(DmiWriteCommand(addr, data), r))
    ensures (addr + 1) as int == addr as int + 1
  {
    assert 0x40 <= addr < 0x120;
  }

  /** More than 31 arguments either way is refused before any scan. */
  lemma ExecRejectsWideArguments(s: seq<Reply>, autoexec: bool, backup: seq<bv32>, args: seq<bv32>,
                                 argin: nat, argout: nat)
    requires |backup| == GP_BACKUP_WORDS && argin <= |args|
    requires argin > 31 || argout > 31
    ensures Exec(s, autoexec, backup, args, argin, argout) == Run((-1, backup), [], s)
  {
  }

  /** The backup only receives x1 .. x(n) for n the larger argument count. */
  lemma ExecKeepsBackupTail(s: seq<Reply>, autoexec: bool, backup: seq<bv32>, args: seq<bv32>,
                            argin: nat, argout: nat)
    requires |backup| == GP_BACKUP_WORDS && argin <= |args|
    ensures var o := Exec(s, autoexec, backup, args, argin, argout);
      forall j | (if argin > argout then argin else argout) <= j < GP_BACKUP_WORDS :: o.value.1[j] == backup[j]
  {
    var backupLen := if argin > argout then argin else argout;
    if backupLen <= 31 {
      ReadRegsKeepsTail(s, autoexec, GPR_X1, backup, backupLen);
    }
  }

  // ----- session set-up -----

  /** A negotiation that succeeds leaves a data count of 1 to 12, a program
      buffer of at most 16 words, impebreak whenever the buffer has one word,
      and the program-buffer CSR read installed exactly when there is a buffer. */
  lemma NegotiateSuccess(s: seq<Reply>, c: Session)
    ensures var o := Negotiate(s, c); var c' := o.value.1;
      o.value.0 == 0 ==>
        && 1 <= c'.abstractDataCount <= 12 && c'.progbufSize <= 16
        && (c'.progbufSize == 1 ==> c'.impebreak)
        && c'.readCsrInstalled == (c.readCsrInstalled || c'.progbufSize > 0)
  {
  }

  /** progbufsize and datacount are recorded from abstractcs before they are
      validated, so a rejected negotiation leaves them set. */
  lemma NegotiateRecordsBeforeValidating(s: seq<Reply>, c: Session)
    ensures var o := Negotiate(s, c);
      |s| >= 2 && s[0].Ack? && s[1].Ack? ==>
        && o.value.1.progbufSize == AbstractcsGetProgbufsize(s[1].data) as bv8
        && o.value.1.abstractDataCount == AbstractcsGetDatacount(s[1].data) as bv8
  {
  }

  /** The autoexecdata probe succeeds iff its four scans are acknowledged. */
  lemma ProbeAutoexecStatus(s: seq<Reply>, c: Session)
    ensures ProbeAutoexec(s, c).value.0 == 0 <==> |s| >= 4 && s[0].Ack? && s[1].Ack? && s[2].Ack? && s[3].Ack?
  {
    var w := DmiWrite(s, DMI_REG_ABSTRACT_AUTOEXEC, ARM_WORD);
    if w.value {
      var b := DmiRead(w.rest, DMI_REG_ABSTRACT_AUTOEXEC);
      assert w.rest == s[1..];
      if b.value.Some? {
        assert b.rest == s[3..];
      }
    }
  }

  /** The probe records support iff the word read back carries the pattern
      0xaaa, and never withdraws support recorded earlier. */
  lemma ProbeAutoexecSupport(s: seq<Reply>, c: Session)
    ensures ProbeAutoexec(s, c).value.1.supportAutoexecData <==>
      c.supportAutoexecData
      || (|s| >= 3 && s[0].Ack? && s[1].Ack? && s[2].Ack? && s[2].data & 0xfff == ABSTRACTAUTO_SOME_PATTEN)
  {
    var w := DmiWrite(s, DMI_REG_ABSTRACT_AUTOEXEC, ARM_WORD);
    if w.value {
      assert w.rest == s[1..];
      var b := DmiRead(w.rest, DMI_REG_ABSTRACT_AUTOEXEC);
      if b.value.Some? {
        assert b.value.value == s[2].data;
      }
    }
  }

  /** The checks rvdbg_select_mem_and_csr_access_impl makes on the abstractcs
      word: a data count of 1 to 12, a program buffer of at most 16 words, and
      impebreak when the buffer has a single word. */
  predicate AbstractcsAccepted(cs: bv32, impebreak: bool)
  {
    && 1 <= AbstractcsGetDatacount(cs) <= 12
    && AbstractcsGetProgbufsize(cs) <= 16
    && (AbstractcsGetProgbufsize(cs) == 1 ==> impebreak)
  }

  /** The checks on the 8-bit session fields are the checks on the word. */
  lemma AcceptedNarrowed(cs: bv32, impebreak: bool)
    ensures var dc := AbstractcsGetDatacount(cs) as bv8; var pb := AbstractcsGetProgbufsize(cs) as bv8;
      AbstractcsAccepted(cs, impebreak) <==>
        !(dc < 1 || dc > 12) && !(pb > 16) && !(pb == 1 && !impebreak)
  {
  }

  /** The converse of NegotiateSuccess: a negotiation succeeds exactly when its
      six scans (abstractcs read, then the probe) are acknowledged and the
      abstractcs word passes every check. */
  lemma NegotiateOutcome(s: seq<Reply>, c: Session)
    ensures Negotiate(s, c).value.0 == 0 <==>
      && |s| >= 6 && s[0].Ack? && s[1].Ack? && s[2].Ack? && s[3].Ack? && s[4].Ack? && s[5].Ack?
      && AbstractcsAccepted(s[1].data, c.impebreak)
  {
    if |s| >= 2 && s[0].Ack? && s[1].Ack? && AbstractcsAccepted(s[1].data, c.impebreak) {
      NegotiateProbes(s, c);
    } else {
      NegotiateRejects(s, c);
    }
  }

  /** Without the abstractcs word, or with one that fails a check, the
      negotiation fails before the probe. */
  lemma NegotiateRejects(s: seq<Reply>, c: Session)
    requires !(|s| >= 2 && s[0].Ack? && s[1].Ack? && AbstractcsAccepted(s[1].data, c.impebreak))
    ensures Negotiate(s, c).value.0 == -1
  {
    var r := DmiRead(s, DMI_REG_ABSTRACT_CS);
    if r.value.Some? {
      AcceptedNarrowed(r.value.value, c.impebreak);
    }
  }

  /** With an accepted abstractcs word, the negotiation is as good as the probe. */
  lemma NegotiateProbes(s: seq<Reply>, c: Session)
    requires |s| >= 2 && s[0].Ack? && s[1].Ack? && AbstractcsAccepted(s[1].data, c.impebreak)
    ensures Negotiate(s, c).value.0 == 0 <==> |s| >= 6 && s[2].Ack? && s[3].Ack? && s[4].Ack? && s[5].Ack?
  {
    NegotiateReachesProbe(s, c);
    ProbeAutoexecStatus(s[2..], ProbedSession(s[1].data, c));
  }

  /** The session the probe starts from: the abstractcs fields recorded, and
      the program-buffer CSR read installed when there is a buffer. */
  function ProbedSession(cs: bv32, c: Session): Session
  {
    var c1 := c.(progbufSize := AbstractcsGetProgbufsize(cs) as bv8,
                 abstractDataCount := AbstractcsGetDatacount(cs) as bv8);
    if c1.progbufSize > 0 then c1.(readCsrInstalled := true) else c1
  }

  lemma NegotiateReachesProbe(s: seq<Reply>, c: Session)
    requires |s| >= 2 && s[0].Ack? && s[1].Ack? && AbstractcsAccepted(s[1].data, c.impebreak)
    ensures Negotiate(s, c).value.0 == ProbeAutoexec(s[2..], ProbedSession(s[1].data, c)).value.0
  {
    AcceptedNarrowed(s[1].data, c.impebreak);
  }

  lemma ProbeAutoexecClearsPattern(s: seq<Reply>, c: Session)
    requires |s| >= 3 && s[0].Ack? && s[1].Ack? && s[2].Ack?
    ensures var o := ProbeAutoexec(s, c);
      |o.events| == 4 && o.events[3].Scan?
      && o.events[3].cmd == DmiWriteCommand(DMI_REG_ABSTRACT_AUTOEXEC, s[2].data & !0xfff)
  {
    assert AbstractautoSetData(s[2].data, 0) == s[2].data & !0xfff;
  }

  /** A no-op scan that brought back a dmstatus word reporting no nonexistent hart. */
  predicate ExistingHartWord(e: Event)
  {
    e.Scan? && e.cmd == DMI_OP_NOP && e.reply.Ack? ==> DmstatusGetAnyNonexistent(e.reply.data) == 0
  }

  /** Every dmstatus word read, except possibly the last scan's, reports no
      nonexistent hart. */
  predicate CountedHartsExist(events: seq<Event>)
  {
    forall k {:trigger ExistingHartWord(events[k])} | 0 <= k < |events| - 1 :: ExistingHartWord(events[k])
  }

  lemma CountedHartsExistPrepend(a: seq<Event>, b: seq<Event>)
    requires forall k | 0 <= k < |a| :: ExistingHartWord(a[k])
    requires CountedHartsExist(b)
    ensures CountedHartsExist(a + b)
  {
    forall k | 0 <= k < |a + b| - 1
      ensures ExistingHartWord((a + b)[k])
    {
      if k >= |a| {
        assert (a + b)[k] == b[k - |a|];
      }
    }
  }

  /** The dmcontrol write that selects hart idx: hartsel holds the value of
      the C loop's 32-bit index. */
  function SelectHart(idx: nat): bv64
  {
    DmiWriteCommand(DMI_REG_DMCONTROL, DmcontrolSetHartsel(0, Wrap32(idx)))
  }

  /** The scans of one hart step at idx, cut short only by a failed scan: the
      dmcontrol write selecting hart idx, the read of dmstatus, and the no-op
      that brings dmstatus back. */
  predicate HartStepScans(events: seq<Event>, idx: nat)
  {
    && 1 <= |events| <= 3
    && events[0].Scan? && events[0].cmd == SelectHart(idx)
    && (|events| >= 2 ==>
          events[0].reply.Ack? && events[1].Scan? && events[1].cmd == DmiReadCommand(DMI_REG_DMSTATUS))
    && (|events| == 3 ==> events[1].reply.Ack? && events[2].Scan? && events[2].cmd == DMI_OP_NOP)
    && (|events| < 3 ==> Last(events).Scan? && Last(events).reply.Fail?)
  }

  /** A hart step whose no-op brought a dmstatus word back. */
  predicate StepReadWord(events: seq<Event>)
  {
    |events| == 3 && events[2].Scan? && events[2].reply.Ack?
  }

  /** A hart step whose dmstatus word reports no nonexistent hart: the loop
      counts that hart and goes on. */
  predicate StepFoundHart(events: seq<Event>)
  {
    StepReadWord(events) && DmstatusGetAnyNonexistent(events[2].reply.data) != 1
  }

  /** The scans of one hart step: the dmcontrol write selecting hart idx, then
      the dmstatus read and its no-op, up to the first that fails; only the
      last is a no-op, and a step yields a word exactly when that no-op brought
      it back. */
  lemma HartStatusScans(s: seq<Reply>, idx: nat)
    ensures var o := HartStatus(s, idx);
      && (forall k | 0 <= k < |o.events| - 1 :: o.events[k].Scan? && o.events[k].cmd != DMI_OP_NOP)
      && (o.value.Some? ==> Last(o.events) == Scan(DMI_OP_NOP, Ack(o.value.value)))
      && HartStepScans(o.events, idx)
      && (o.value.Some? <==> StepReadWord(o.events))
      && (o.value.Some? ==> o.events[2].reply.data == o.value.value)
  {
    DmiCommandsDistinct(DMI_REG_DMSTATUS, DMI_REG_DMCONTROL, DmcontrolSetHartsel(0, Wrap32(idx)));
    HartStatusSelects(s, idx);
  }

  /** The step's scans select hart idx and read dmstatus, and its word is the
      one the no-op brought back. */
  lemma HartStatusSelects(s: seq<Reply>, idx: nat)
    ensures var o := HartStatus(s, idx);
      && HartStepScans(o.events, idx)
      && (o.value.Some? <==> StepReadWord(o.events))
      && (o.value.Some? ==> o.events[2].reply.data == o.value.value)
  {
  }

  /** `events` are count - num hart steps from idx, each selecting its hart and
      reading a dmstatus word that reports no nonexistent hart, then what the
      loop did at its exit index: nothing when that index passed hartsellen or
      the table is full, otherwise one step that was cut short (status -1) or
      read a word reporting a nonexistent hart (status 0). */
  predicate HartSteps(events: seq<Event>, hartsellen: nat, idx: nat, num: nat, count: nat, status: int)
    decreases count - num
  {
    if num >= count then
      if idx <= hartsellen && count < RVDBG_MAX_HARTS then
        HartStepScans(events, idx) && !StepFoundHart(events) && (status == 0 <==> StepReadWord(events))
      else events == [] && status == 0
    else
      && |events| >= 3 && HartStepScans(events[..3], idx) && StepFoundHart(events[..3])
      && HartSteps(events[3..], hartsellen, idx + 1, num + 1, count, status)
  }

  /** The hart loop from idx with num harts counted selects hart idx, idx + 1,
      ... in turn, reads dmstatus for each, and counts exactly the harts before
      the first word reporting a nonexistent hart, stopping there or at the
      first failed scan. */
  lemma {:induction false} ProbeHartsSteps(s: seq<Reply>, hartsellen: nat, idx: nat, num: nat)
    ensures var o := ProbeHarts(s, hartsellen, idx, num);
      HartSteps(o.events, hartsellen, idx, num, o.value.2, o.value.0)
    decreases RVDBG_MAX_HARTS - num, 1
  {
    if idx <= hartsellen && num < RVDBG_MAX_HARTS {
      ProbeHartsStepsStep(s, hartsellen, idx, num);
    }
  }

  /** One hart of ProbeHartsSteps, the rest by induction. */
  lemma {:induction false} ProbeHartsStepsStep(s: seq<Reply>, hartsellen: nat, idx: nat, num: nat)
    requires idx <= hartsellen && num < RVDBG_MAX_HARTS
    ensures var o := ProbeHarts(s, hartsellen, idx, num);
      HartSteps(o.events, hartsellen, idx, num, o.value.2, o.value.0)
    decreases RVDBG_MAX_HARTS - num, 0
  {
    var r := HartStatus(s, idx);
    ProbeHartsUnfold(s, hartsellen, idx, num);
    HartStatusSelects(s, idx);
    if ProbeContinues(r) {
      var o' := ProbeHarts(r.rest, hartsellen, idx + 1, num + 1);
      ProbeHartsSteps(r.rest, hartsellen, idx + 1, num + 1);
      assert ProbeHarts(s, hartsellen, idx, num) == Then(r.events, o');
      HartStepsCons(r.events, o'.events, hartsellen, idx, num, o'.value.2, o'.value.0);
    } else {
      var status := if r.value.None? then -1 else 0;
      assert ProbeHarts(s, hartsellen, idx, num) == Run((status, idx, num), r.events, r.rest);
      HartStepsExit(r.events, hartsellen, idx, num, status);
    }
  }

  /** A step that found no hart ends the steps at its index. */
  lemma HartStepsExit(events: seq<Event>, hartsellen: nat, idx: nat, num: nat, status: int)
    requires idx <= hartsellen && num < RVDBG_MAX_HARTS
    requires HartStepScans(events, idx) && !StepFoundHart(events)
    requires status == 0 <==> StepReadWord(events)
    ensures HartSteps(events, hartsellen, idx, num, num, status)
  {
  }

  /** A step that found a hart, before the steps from the next index. */
  lemma HartStepsCons(a: seq<Event>, b: seq<Event>, hartsellen: nat, idx: nat, num: nat, count: nat, status: int)
    requires HartStepScans(a, idx) && StepFoundHart(a) && num < count
    requires HartSteps(b, hartsellen, idx + 1, num + 1, count, status)
    ensures HartSteps(a + b, hartsellen, idx, num, count, status)
  {
    assert (a + b)[..3] == a;
    assert (a + b)[3..] == b;
  }

  /** A hart step that read a dmstatus word reporting no nonexistent hart
      issued only scans that say so. */
  lemma HartStatusExisting(s: seq<Reply>, idx: nat)
    ensures var o := HartStatus(s, idx);
      && CountedHartsExist(o.events)
      && (o.value.Some? && DmstatusGetAnyNonexistent(o.value.value) != 1 ==>
            forall k | 0 <= k < |o.events| :: ExistingHartWord(o.events[k]))
  {
    HartStatusScans(s, idx);
  }

  /** A hart loop run that stopped with status 0 while the index was within
      hartsellen and the table had room stopped at a dmstatus word reporting a
      nonexistent hart. */
  predicate StopsAtNonexistent(o: Run<(int, nat, nat)>, hartsellen: nat)
  {
    o.value.0 == 0 && o.value.1 <= hartsellen && o.value.2 < RVDBG_MAX_HARTS ==>
      && o.events != [] && Last(o.events).Scan? && Last(o.events).cmd == DMI_OP_NOP
      && Last(o.events).reply.Ack? && DmstatusGetAnyNonexistent(Last(o.events).reply.data) == 1
  }

  /** Whether the hart loop goes on past index idx: the step read a dmstatus
      word that reports no nonexistent hart. */
  predicate ProbeContinues(r: Run<Option<bv32>>)
  {
    r.value.Some? && DmstatusGetAnyNonexistent(r.value.value) != 1
  }

  /** The hart loop counts only harts whose dmstatus reported none
      nonexistent: every word it read but possibly the last says so. */
  lemma {:induction false} ProbeHartsCountsExisting(s: seq<Reply>, hartsellen: nat, idx: nat, num: nat)
    ensures CountedHartsExist(ProbeHarts(s, hartsellen, idx, num).events)
    ensures var o := ProbeHarts(s, hartsellen, idx, num);
      HartSteps(o.events, hartsellen, idx, num, o.value.2, o.value.0)
    decreases RVDBG_MAX_HARTS - num, 1
  {
    ProbeHartsSteps(s, hartsellen, idx, num);
    if idx <= hartsellen && num < RVDBG_MAX_HARTS {
      CountsExistingStep(s, hartsellen, idx, num);
    }
  }

  /** One hart of ProbeHartsCountsExisting, the rest by induction. */
  lemma {:induction false} CountsExistingStep(s: seq<Reply>, hartsellen: nat, idx: nat, num: nat)
    requires idx <= hartsellen && num < RVDBG_MAX_HARTS
    ensures CountedHartsExist(ProbeHarts(s, hartsellen, idx, num).events)
    decreases RVDBG_MAX_HARTS - num, 0
  {
    var r := HartStatus(s, idx);
    ProbeHartsUnfold(s, hartsellen, idx, num);
    HartStatusExisting(s, idx);
    if ProbeContinues(r) {
      ProbeHartsCountsExisting(r.rest, hartsellen, idx + 1, num + 1);
      CountedHartsExistPrepend(r.events, ProbeHarts(r.rest, hartsellen, idx + 1, num + 1).events);
    }
  }

  /** When the hart loop stops with status 0 short of hartsellen and of a
      full table, the last word it read reports a nonexistent hart. */
  lemma {:induction false} ProbeHartsStopsAtNonexistent(s: seq<Reply>, hartsellen: nat, idx: nat, num: nat)
    ensures StopsAtNonexistent(ProbeHarts(s, hartsellen, idx, num), hartsellen)
    decreases RVDBG_MAX_HARTS - num, 1
  {
    if idx <= hartsellen && num < RVDBG_MAX_HARTS {
      StopsAtNonexistentStep(s, hartsellen, idx, num);
    }
  }

  /** One hart of ProbeHartsStopsAtNonexistent, the rest by induction. */
  lemma {:induction false} StopsAtNonexistentStep(s: seq<Reply>, hartsellen: nat, idx: nat, num: nat)
    requires idx <= hartsellen && num < RVDBG_MAX_HARTS
    ensures StopsAtNonexistent(ProbeHarts(s, hartsellen, idx, num), hartsellen)
    decreases RVDBG_MAX_HARTS - num, 0
  {
    var r := HartStatus(s, idx);
    ProbeHartsUnfold(s, hartsellen, idx, num);
    HartStatusScans(s, idx);
    if ProbeContinues(r) {
      var o' := ProbeHarts(r.rest, hartsellen, idx + 1, num + 1);
      ProbeHartsStopsAtNonexistent(r.rest, hartsellen, idx + 1, num + 1);
      if o'.events != [] {
        LastOfConcat(r.events, o'.events);
      }
    }
  }

  /** A successful count points the current hart at the first record; the
      count, kept even on failure, is at most eight and, from zero, at most
      hartsellen + 1. */
  lemma CountHartsSuccess(s: seq<Reply>, c: Session, hartsellen: nat)
    requires c.numHarts <= RVDBG_MAX_HARTS
    ensures var o := CountHarts(s, c, hartsellen);
      && (o.value.0 == 0 ==> o.value.1.currentHart == Some(0))
      && o.value.1.numHarts <= RVDBG_MAX_HARTS
      && (c.numHarts == 0 ==> o.value.1.numHarts <= hartsellen + 1)
  {
  }

  /** From a count of zero, the last scan of a successful count selects the
      index the loop stopped at, the first one not counted, not hart 0, which
      is recorded as current. */
  lemma CountHartsSelectsExitIndex(s: seq<Reply>, c: Session, hartsellen: nat)
    requires c.numHarts == 0
    ensures var o := CountHarts(s, c, hartsellen);
      o.value.0 == 0 ==>
        o.events != [] &&
        Last(o.events) == Scan(DmiWriteCommand(DMI_REG_DMCONTROL, DmcontrolSetHartsel(0, Wrap32(o.value.1.numHarts))),
                               Last(o.events).reply)
  {
    var p := ProbeHarts(s, hartsellen, 0, 0);
    if p.value.0 == 0 {
      var f := DmiWrite(p.rest, DMI_REG_DMCONTROL, DmcontrolSetHartsel(0, Wrap32(p.value.1)));
      LastOfConcat(p.events, f.events);
    }
  }

  /** Discovery starts by writing all ones to hartsel, and succeeds as the
      count does. */
  lemma DiscoverSuccess(s: seq<Reply>, c: Session)
    requires c.numHarts <= RVDBG_MAX_HARTS
    ensures var o := Discover(s, c);
      && o.events != [] && o.events[0].Scan?
      && o.events[0].cmd == DmiWriteCommand(DMI_REG_DMCONTROL, DmcontrolSetHartsel(0, 0xfffff))
      && (o.value.0 == 0 ==> o.value.1.currentHart == Some(0) && o.value.1.numHarts <= RVDBG_MAX_HARTS)
  {
    var w := DmiWrite(s, DMI_REG_DMCONTROL, DmcontrolSetHartsel(0, 0xfffff));
    if w.value {
      var r := DmiRead(w.rest, DMI_REG_DMCONTROL);
      if r.value.Some? {
        CountHartsSuccess(r.rest, c, DmcontrolGetHartsel(r.value.value) as nat);
      }
    }
  }

  /** The version rvdbg_dtm_init ends up with. The raw dmstatus.version field
      (1 for 0.11, 2 for 0.13, 15 for unknown) goes to rvdbg_set_debug_version,
      which accepts only the internal 0.13 code, 1, and whose refusal is ignored.
      So the session changes only when dmstatus reads 1, dmstatus's code for
      0.11, and the session does not hold 0.11: it is then marked 0.13. Every
      other case, a module reporting 0.13 (2) included, leaves it alone; and
      AdoptKeepsDtmVersion shows that no session the code builds changes. */
  lemma AdoptDmstatusVersionEffect(c: Session, version: bv8)
    ensures AdoptDmstatusVersion(c, version) ==
      c.(debugVersion := if version == RISCV_DEBUG_VERSION_013 && c.debugVersion != RISCV_DEBUG_VERSION_011
                         then RISCV_DEBUG_VERSION_013 else c.debugVersion)
  {
  }

  /** A session whose version came from dtmcs, or from the zeroed allocation,
      holds 0.11 or 0.13 (0 or 1), and for such a session the adoption changes
      nothing: the code can never switch a session's version here. */
  lemma AdoptKeepsDtmVersion(c: Session, version: bv8)
    requires c.debugVersion <= RISCV_DEBUG_VERSION_013
    ensures AdoptDmstatusVersion(c, version) == c
  {
    AdoptDmstatusVersionEffect(c, version);
  }

  /** What a successful configuration leaves in the session: a data count of
      1 to 12, a program buffer of at most 16 words with impebreak whenever it
      has one word, and the first of at most eight hart records current. */
  predicate Configured(c: Session)
  {
    && 1 <= c.abstractDataCount <= 12 && c.progbufSize <= 16
    && (c.progbufSize == 1 ==> c.impebreak)
    && c.currentHart == Some(0) && c.numHarts <= RVDBG_MAX_HARTS
  }

  /** Configuring succeeds with negotiated access fields and the first hart
      current. */
  lemma ConfigureSuccess(s: seq<Reply>, c: Session)
    requires c.numHarts <= RVDBG_MAX_HARTS
    ensures var o := Configure(s, c); var c' := o.value.1;
      o.value.0 == 0 ==> Configured(c')
  {
    var g := Negotiate(s, c);
    NegotiateSuccess(s, c);
    if g.value.0 == 0 {
      DiscoverSuccess(g.rest, g.value.1);
    }
  }

  /** Bringing up the debug module succeeds only when it is authenticated, and
      then with impebreak taken from dmstatus, negotiated access fields, and the
      first hart current. */
  lemma AttachSuccess(s: seq<Reply>, c: Session)
    requires c.numHarts <= RVDBG_MAX_HARTS
    ensures var o := Attach(s, c); var c' := o.value.1;
      o.value.0 == 0 ==>
        && |s| >= 2 && s[0].Ack? && s[1].Ack? && DmstatusGetAuthenticated(s[1].data) == 1
        && c'.impebreak == (DmstatusGetImpebreak(s[1].data) == 1)
        && Configured(c')
  {
    var r := DmiRead(s, DMI_REG_DMSTATUS);
    if r.value.Some? && DmstatusGetAuthenticated(r.value.value) == 1 {
      var version := DmstatusGetVersion(r.value.value) as bv8;
      AdoptDmstatusVersionEffect(c, version);
      AttachAuthenticatedSuccess(r.rest, AdoptDmstatusVersion(c, version), r.value.value);
    }
  }

  lemma AttachAuthenticatedSuccess(s: seq<Reply>, c: Session, dmstatus: bv32)
    requires c.numHarts <= RVDBG_MAX_HARTS
    ensures var o := AttachAuthenticated(s, c, dmstatus); var c' := o.value.1;
      o.value.0 == 0 ==>
        && c'.impebreak == (DmstatusGetImpebreak(dmstatus) == 1)
        && Configured(c')
  {
    var n := DmiRead(s, DMI_REG_NEXTDM_ADDR);
    if n.value.Some? {
      ConfigureSuccess(n.rest, c.(impebreak := DmstatusGetImpebreak(dmstatus) == 1));
    }
  }

  /** rvdbg_dtm_init issues the hard reset before any DMI scan, and succeeds
      only as bringing up the debug module does. */
  lemma InitSuccess(s: seq<Reply>, c: Session)
    requires c.numHarts <= RVDBG_MAX_HARTS
    ensures var o := Init(s, c);
      |o.events| >= 2 && o.events[..2] == ResetEvents(true)
    ensures var o := Init(s, c); var c' := o.value.1;
      o.value.0 == 0 ==>
        && |s| >= 2 && s[0].Ack? && s[1].Ack? && DmstatusGetAuthenticated(s[1].data) == 1
        && c'.impebreak == (DmstatusGetImpebreak(s[1].data) == 1)
        && Configured(c')
  {
    AttachSuccess(s, c);
  }
}
