/** The environment behind the session's transport hooks: the DMI low-level access
    (`rvdbg_dmi_low_access`) and the JTAG TAP operations of the JTAG DTM.

    Their implementations are not part of this model. The low-level access is a
    scripted sequence of replies, one consumed per call (an exhausted script is a
    transport failure); every call and every TAP operation is appended to a trace. */
module Transport {

  datatype Option<+T> = None | Some(value: T)

  /** What one DMI low-level access reports: success together with the 32-bit data
      it delivers, or failure (a negative return). */
  datatype Reply = Ack(data: bv32) | Fail

  /** One observable operation on the wire. */
  datatype Event =
    | Scan(cmd: bv64, reply: Reply) // a DMI low-level access: the command word issued and its reply
    | WriteIr(ir: bv8)              // select a JTAG instruction register
    | ShiftDr(din: bv32)            // shift din into the selected 32-bit data register, capture discarded
    | CaptureDr(din: bv32, dout: bv32) // shift din into the selected 32-bit data register, capturing dout

  /** The outcome of running an operation against a script: its result, the events it
      issued (in order) and the replies left over. */
  datatype Run<+T> = Run(value: T, events: seq<Event>, rest: seq<Reply>)

  /** The run `o`, preceded by the events `before`. */
  function Then<T>(before: seq<Event>, o: Run<T>): Run<T>
  {
    Run(o.value, before + o.events, o.rest)
  }

  /** One DMI low-level access against the script: the reply is the next one
      scripted, or a failure once the script is exhausted. */
  function Access(script: seq<Reply>, cmd: bv64): (o: Run<Reply>)
    ensures o.events == [Scan(cmd, o.value)]
    ensures o.value.Ack? <==> script != [] && script[0].Ack?
    ensures o.value.Ack? ==> o.value == script[0] && o.rest == script[1..]
    ensures |o.rest| <= |script|
  {
    if script == [] then Run(Fail, [Scan(cmd, Fail)], [])
    else Run(script[0], [Scan(cmd, script[0])], script[1..])
  }

  /** The transport: replies still to come and everything issued so far. */
  class Link {
    var script: seq<Reply>
    var trace: seq<Event>

    constructor (script: seq<Reply>)
      ensures this.script == script && trace == []
    {
      this.script := script;
      trace := [];
    }

    /** The DMI low-level access hook: issues `cmd`, consumes one reply. */
    method LowAccess(cmd: bv64) returns (reply: Reply)
      modifies this
      ensures var o := Access(old(script), cmd);
        reply == o.value && script == o.rest && trace == old(trace) + o.events
    {
      var o := Access(script, cmd);
      reply, script, trace := o.value, o.rest, trace + o.events;
    }

    /** jtag_dev_write_ir */
    method WriteIr(ir: bv8)
      modifies this
      ensures script == old(script) && trace == old(trace) + [Event.WriteIr(ir)]
    {
      trace := trace + [Event.WriteIr(ir)];
    }

    /** jtag_dev_shift_dr of 32 bits shifting in `din`, whose captured value
        is not used. The names follow jtag_dev_shift_dr(dev, dout, din, ticks):
        `din` is shifted in, `dout` receives what is shifted out. */
    method ShiftDr(din: bv32)
      modifies this
      ensures script == old(script) && trace == old(trace) + [Event.ShiftDr(din)]
    {
      trace := trace + [Event.ShiftDr(din)];
    }

    /** jtag_dev_shift_dr of 32 bits shifting in `din` while the DTM shifts out
        `dout`, which is captured. */
    method CaptureDr(din: bv32, dout: bv32) returns (captured: bv32)
      modifies this
      ensures captured == dout
      ensures script == old(script) && trace == old(trace) + [Event.CaptureDr(din, dout)]
    {
      trace := trace + [Event.CaptureDr(din, dout)];
      captured := dout;
    }
  }
}
