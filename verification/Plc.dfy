/** plc_client.PlcClient: one Modbus socket with lazy connect and a negative cache,
    allow-listed pushbutton writes, and one held jog with a deadman. One call is one
    region under the client's lock. */
module Plc {
  import opened Wrappers
  import opened PushButtons

  const WRITE_BASE := 5000
  const JOG_DEADMAN: real := 0.5
  const CONNECT_COOLDOWN: real := 3.0

  type Memory = map<int, int>

  function Word(mem: Memory, addr: int): int { if addr in mem then mem[addr] else 0 }

  // ------------------------------------------------------------ the outside world

  /** What becomes of one bus write: it lands; the PLC answers with a Modbus
      exception; the transport raises with nothing written; or the write lands but
      its reply is lost and the transport raises. */
  datatype Reply = Lands | Refused | Raises | Lost

  /** The world during one call. `start` is when the lock is taken, `connected` when
      a connect attempt ends, `body` when the payload reads the clock. A read raises
      unless `readable`, and the PLC answers it with an exception unless `answered`. */
  datatype World = World(start: real, connected: real, body: real,
                         importable: bool, connects: bool, first: Reply, second: Reply,
                         readable: bool, answered: bool)

  predicate InOrder(w: World) { w.start <= w.connected <= w.body }

  datatype Op =
    | Press(block: Block, button: Button)
    | JogHold(block: Block, button: Button)
    | JogStop(block: Block, button: Button)
    | Deadman
    | Machine(command: MachineCommand)
    | RobotCommand(robotButton: Button)
    | AmrWrite(addr: int, value: int, pulse: bool)
    | Control(auger: bool, planter: bool, on: bool)
    | ReadOnly
    | Close

  datatype Call = Call(op: Op, world: World)

  // ------------------------------------------------------------------ the client

  datatype Jog = Jog(addr: int, bit: int, expiry: real)

  /** `live`: a socket is open. `missing`: the Modbus library is not installed. */
  datatype Client = Client(live: bool, missing: bool, nextRetry: real, jog: Option<Jog>)

  datatype System = System(client: Client, mem: Memory)

  /** Does this call try to open the connection? */
  predicate Attempts(c: Client, w: World) {
    !c.live && !c.missing && c.nextRetry <= w.start && w.importable
  }

  function Ensured(c: Client, w: World): Client {
    if c.live || c.missing || w.start < c.nextRetry then c
    else if !w.importable then c.(missing := true)
    else if w.connects then c.(live := true, nextRetry := 0.0)
    else c.(nextRetry := w.connected + CONNECT_COOLDOWN)
  }

  function Dropped(c: Client): Client { c.(live := false, nextRetry := 0.0) }

  // ------------------------------------------------------------------- payloads

  /** One word write: the memory after it, whether it raised, whether it succeeded. */
  datatype Written = Written(mem: Memory, raised: bool, ok: bool)

  function WriteWord(mem: Memory, addr: int, value: int, reply: Reply): Written {
    if addr < WRITE_BASE then Written(mem, false, false)
    else match reply
      case Lands => Written(mem[addr := value % 0x1_0000], false, true)
      case Refused => Written(mem, false, false)
      case Raises => Written(mem, true, false)
      case Lost => Written(mem[addr := value % 0x1_0000], true, false)
  }

  /** The effect of a payload: held jog, memory between and after its writes. */
  datatype Effect = Effect(jog: Option<Jog>, mid: Memory, mem: Memory, raised: bool)

  /** Write `value`, and if that succeeded write 0. */
  function Pulse(jog: Option<Jog>, mem: Memory, addr: int, value: int, w: World): Effect {
    var one := WriteWord(mem, addr, value, w.first);
    if one.raised || !one.ok then Effect(jog, one.mem, one.mem, one.raised) else
    var two := WriteWord(one.mem, addr, 0, w.second);
    Effect(jog, one.mem, two.mem, two.raised)
  }

  function Nothing(jog: Option<Jog>, mem: Memory): Effect { Effect(jog, mem, mem, false) }

  function Pressed(jog: Option<Jog>, mem: Memory, block: Block, button: Button, w: World): Effect {
    var spec := Resolve(block, button);
    if spec.None? || IsJogButton(button) then Nothing(jog, mem)
    else Pulse(jog, mem, spec.value.0, spec.value.1, w)
  }

  function Held(jog: Option<Jog>, mem: Memory, block: Block, button: Button, w: World): Effect {
    var spec := Resolve(block, button);
    if spec.None? || !IsJogButton(button) then Nothing(jog, mem) else
    var (addr, bit) := spec.value;
    var clear := if jog.Some? && jog.value.addr != addr
                 then WriteWord(mem, jog.value.addr, 0, w.first)
                 else Written(mem, false, true);
    if clear.raised then Effect(jog, clear.mem, clear.mem, true) else
    var set_ := WriteWord(clear.mem, addr, bit, w.second);
    Effect(if set_.raised then jog else Some(Jog(addr, bit, w.body + JOG_DEADMAN)),
           clear.mem, set_.mem, set_.raised)
  }

  function Stopped(jog: Option<Jog>, mem: Memory, block: Block, button: Button, w: World): Effect {
    var spec := Resolve(block, button);
    if spec.None? || !IsJogButton(button) then Nothing(jog, mem) else
    var addr := spec.value.0;
    var clear := WriteWord(mem, addr, 0, w.first);
    Effect(if !clear.raised && jog.Some? && jog.value.addr == addr then None else jog,
           clear.mem, clear.mem, clear.raised)
  }

  predicate Expired(jog: Option<Jog>, w: World) { jog.Some? && w.body > jog.value.expiry }

  function Lapsed(jog: Option<Jog>, mem: Memory, w: World): Effect {
    if !Expired(jog, w) then Nothing(jog, mem) else
    var clear := WriteWord(mem, jog.value.addr, 0, w.first);
    Effect(if clear.raised then jog else None, clear.mem, clear.mem, clear.raised)
  }

  /** Read after write: a failing read raises like a failing write. */
  function ThenRead(e: Effect, w: World): Effect { e.(raised := e.raised || !w.readable) }

  function Controlled(jog: Option<Jog>, mem: Memory, op: Op, w: World): Effect
    requires op.Control?
  {
    var value := if op.on then 1 else 0;
    if op.auger && op.planter then
      var one := WriteWord(mem, 5110, value, w.first);
      if one.raised then Effect(jog, one.mem, one.mem, true) else
      var two := WriteWord(one.mem, 5111, value, w.second);
      Effect(jog, one.mem, two.mem, two.raised)
    else if op.auger || op.planter then
      var one := WriteWord(mem, if op.auger then 5110 else 5111, value, w.first);
      Effect(jog, one.mem, one.mem, one.raised)
    else Nothing(jog, mem)
  }

  function AmrWritten(jog: Option<Jog>, mem: Memory, op: Op, w: World): Effect
    requires op.AmrWrite?
  {
    var value := op.value % 0x1_0000;
    if op.pulse && value != 0 then ThenRead(Pulse(jog, mem, op.addr, value, w), w)
    else
      var one := WriteWord(mem, op.addr, value, w.first);
      ThenRead(Effect(jog, one.mem, one.mem, one.raised), w)
  }

  function Payload(jog: Option<Jog>, mem: Memory, op: Op, w: World): Effect {
    match op
    case Press(block, button) => Pressed(jog, mem, block, button, w)
    case JogHold(block, button) => Held(jog, mem, block, button, w)
    case JogStop(block, button) => Stopped(jog, mem, block, button, w)
    case Deadman => Lapsed(jog, mem, w)
    case Machine(command) =>
      var spec := MachineWord(command);
      if spec.None? then Nothing(jog, mem) else ThenRead(Pulse(jog, mem, spec.value.0, spec.value.1, w), w)
    case RobotCommand(button) =>
      var bit := RobotBit(button);
      if bit.None? then Nothing(jog, mem) else ThenRead(Pulse(jog, mem, ROBOT_WORD, bit.value, w), w)
    case AmrWrite(_, _, _) => AmrWritten(jog, mem, op, w)
    case Control(_, _, _) => Controlled(jog, mem, op, w)
    case ReadOnly => ThenRead(Nothing(jog, mem), w)
    case Close => Nothing(jog, mem)
  }

  /** Calls answered before the lock is taken. */
  predicate Immediate(c: Client, op: Op) {
    || (op.Deadman? && c.jog.None?)
    || (op.AmrWrite? && !IsAmrWord(op.addr))
  }

  /** The payload of this call runs, on a live socket. */
  predicate Runs(c: Client, call: Call) {
    !Immediate(c, call.op) && !call.op.Close? && Ensured(c, call.world).live
  }

  /** The payload of this call runs to its end without a transport error. */
  predicate Completes(s: System, call: Call) {
    Runs(s.client, call) && !Payload(s.client.jog, s.mem, call.op, call.world).raised
  }

  function Step(s: System, call: Call): System {
    if Immediate(s.client, call.op) then s
    else if call.op.Close? then s.(client := Dropped(s.client)) else
    var c := Ensured(s.client, call.world);
    if !c.live then s.(client := c) else
    var e := Payload(c.jog, s.mem, call.op, call.world);
    System(if e.raised then Dropped(c) else c.(jog := e.jog), e.mem)
  }

  /** The memory between the two writes of a call. */
  function Midway(s: System, call: Call): Memory {
    if Runs(s.client, call) then Payload(s.client.jog, s.mem, call.op, call.world).mid else s.mem
  }

  function Run(s: System, calls: seq<Call>): System {
    if calls == [] then s else Step(Run(s, calls[..|calls| - 1]), calls[|calls| - 1])
  }

  /** Successive calls hold the lock one after another. */
  predicate Serial(calls: seq<Call>) {
    && (forall i :: 0 <= i < |calls| ==> InOrder(calls[i].world))
    && (forall i :: 0 < i < |calls| ==> calls[i - 1].world.body <= calls[i].world.start)
  }

  lemma StepCases(s: System, call: Call)
    requires !Immediate(s.client, call.op) && !call.op.Close?
    ensures var c := Ensured(s.client, call.world);
            var e := Payload(c.jog, s.mem, call.op, call.world);
            && (!c.live ==> Step(s, call) == System(c, s.mem))
            && (c.live && e.raised ==> Step(s, call) == System(Dropped(c), e.mem))
            && (c.live && !e.raised ==> Step(s, call) == System(c.(jog := e.jog), e.mem))
            && (Completes(s, call) <==> c.live && !e.raised)
            && (call.op.AmrWrite? ==> e == AmrWritten(c.jog, s.mem, call.op, call.world))
            && (call.op.Control? ==> e == Controlled(c.jog, s.mem, call.op, call.world))
            && (call.op.Press? ==> e == Pressed(c.jog, s.mem, call.op.block, call.op.button, call.world))
            && (call.op.JogHold? ==> e == Held(c.jog, s.mem, call.op.block, call.op.button, call.world))
            && (call.op.JogStop? ==> e == Stopped(c.jog, s.mem, call.op.block, call.op.button, call.world))
  {
  }

  lemma ResolvedInArea(block: Block, button: Button)
    ensures Resolve(block, button).Some? ==> Resolve(block, button).value.0 >= WRITE_BASE
  {
    if Resolve(block, button).Some? {
      ResolvedButtons(block, button);
    }
  }

  // -------------------------------------------------------------- the client itself

  /** The PLC's word memory behind the Modbus write area. */
  class Device {
    var mem: Memory

    /** FC06 at a register offset from the write base. */
    method WriteRegister(reg: int, value: int, reply: Reply) returns (raised: bool, ok: bool)
      requires reg >= 0
      modifies this
      ensures var one := WriteWord(old(mem), reg + WRITE_BASE, value, reply);
              mem == one.mem && raised == one.raised && ok == one.ok
    {
      if reply.Lands? || reply.Lost? {
        mem := mem[reg + WRITE_BASE := value % 0x1_0000];
      }
      raised, ok := reply.Raises? || reply.Lost?, reply.Lands?;
    }
  }

  /** What a caller gets back: `connected` false is the unreachable answer. */
  datatype Answer = Answer(connected: bool, success: bool)

  /** The answer to a handshake write, with what was read back, if anything, and
      whether that was what should be there. */
  datatype AmrAnswer = AmrAnswer(connected: bool, success: bool, readback: Option<int>, confirmed: Option<bool>)

  class PlcClient {
    const plc: Device
    var live: bool
    var missing: bool
    var nextRetry: real
    var jog: Option<Jog>

    function State(): System
      reads this, plc
    {
      System(Client(live, missing, nextRetry, jog), plc.mem)
    }

    constructor (plc: Device)
      ensures this.plc == plc && State() == System(Client(false, false, 0.0, None), plc.mem)
    {
      this.plc := plc;
      live, missing, nextRetry, jog := false, false, 0.0, None;
    }

    method EnsureClient(w: World)
      modifies this
      ensures State() == old(State()).(client := Ensured(old(State()).client, w))
    {
      if live || missing || w.start < nextRetry {
        return;
      }
      if !w.importable {
        missing := true;
        return;
      }
      if !w.connects {
        nextRetry := w.connected + CONNECT_COOLDOWN;
        return;
      }
      live := true;
      nextRetry := 0.0;
    }

    /** Drop the socket so that the next call reconnects at once. */
    method Drop()
      modifies this
      ensures State() == old(State()).(client := Dropped(old(State()).client))
    {
      live := false;
      nextRetry := 0.0;
    }

    method WriteTo(addr: int, value: int, reply: Reply) returns (raised: bool, ok: bool)
      modifies plc
      ensures var one := WriteWord(old(plc.mem), addr, value, reply);
              plc.mem == one.mem && raised == one.raised && ok == one.ok
      ensures ok <==> addr >= WRITE_BASE && reply.Lands?
    {
      if addr - WRITE_BASE < 0 {
        return false, false;
      }
      raised, ok := plc.WriteRegister(addr - WRITE_BASE, value, reply);
    }

    method PulseWord(addr: int, value: int, w: World) returns (raised: bool, ok: bool)
      modifies plc
      ensures var e := Pulse(jog, old(plc.mem), addr, value, w); plc.mem == e.mem && raised == e.raised
      ensures ok <==> !raised && addr >= WRITE_BASE && w.first.Lands?
    {
      raised, ok := WriteTo(addr, value, w.first);
      if raised || !ok {
        return;
      }
      var cleared;
      raised, cleared := WriteTo(addr, 0, w.second);
      ok := !raised;
    }

    /** The payload of press_button: jog buttons are turned away. */
    method PressPayload(block: Block, button: Button, w: World) returns (raised: bool, success: bool)
      modifies plc
      ensures var e := Pressed(jog, old(plc.mem), block, button, w);
              plc.mem == e.mem && raised == e.raised && e.jog == jog
      ensures success <==> !raised && Resolve(block, button).Some? && !IsJogButton(button) && w.first.Lands?
    {
      ResolvedInArea(block, button);
      var spec := Resolve(block, button);
      if spec.None? || IsJogButton(button) {
        return false, false;
      }
      raised, success := PulseWord(spec.value.0, spec.value.1, w);
    }

    method PressButton(block: Block, button: Button, w: World) returns (answer: Answer)
      modifies this, plc
      ensures State() == Step(old(State()), Call(Press(block, button), w))
      ensures answer.connected <==> Completes(old(State()), Call(Press(block, button), w))
      ensures answer.success <==>
        answer.connected && Resolve(block, button).Some? && !IsJogButton(button) && w.first.Lands?
    {
      hide Resolve, Ensured, Pressed, IsJogButton, Payload, Step;
      StepCases(State(), Call(Press(block, button), w));
      EnsureClient(w);
      if !live {
        return Answer(false, false);
      }
      var raised, ok := PressPayload(block, button, w);
      if raised {
        Drop();
        return Answer(false, false);
      }
      answer := Answer(true, ok);
    }

    /** The payload of jog() for 'start' and 'refresh': drop another axis' bit first,
        then set this one and re-arm the deadman. */
    method HoldPayload(block: Block, button: Button, w: World) returns (raised: bool, success: bool)
      modifies this`jog, plc
      ensures var e := Held(old(jog), old(plc.mem), block, button, w);
              plc.mem == e.mem && raised == e.raised && jog == if e.raised then old(jog) else e.jog
      ensures success <==> !raised && Resolve(block, button).Some? && IsJogButton(button) && w.second.Lands?
    {
      ResolvedInArea(block, button);
      hide Resolve, IsJogButton, WriteWord;
      var spec := Resolve(block, button);
      if spec.None? || !IsJogButton(button) {
        return false, false;
      }
      var (addr, bit) := spec.value;
      if jog.Some? && jog.value.addr != addr {
        raised, success := WriteTo(jog.value.addr, 0, w.first);
        if raised {
          return true, false;
        }
      }
      raised, success := WriteTo(addr, bit, w.second);
      if raised {
        return true, false;
      }
      jog := Some(Jog(addr, bit, w.body + JOG_DEADMAN));
    }

    method StopPayload(block: Block, button: Button, w: World) returns (raised: bool, success: bool)
      modifies this`jog, plc
      ensures var e := Stopped(old(jog), old(plc.mem), block, button, w);
              plc.mem == e.mem && raised == e.raised && jog == if e.raised then old(jog) else e.jog
      ensures success <==> !raised && Resolve(block, button).Some? && IsJogButton(button)
    {
      hide Resolve, IsJogButton, WriteWord;
      var spec := Resolve(block, button);
      if spec.None? || !IsJogButton(button) {
        return false, false;
      }
      var addr := spec.value.0;
      raised, success := WriteTo(addr, 0, w.first);
      if raised {
        return true, false;
      }
      if jog.Some? && jog.value.addr == addr {
        jog := None;
      }
      success := true;
    }

    /** Hold-to-jog: `stop` clears the word, anything else sets the bit and re-arms. */
    method JogButton(block: Block, button: Button, stop: bool, w: World) returns (answer: Answer)
      modifies this, plc
      ensures State() == Step(old(State()), Call(if stop then JogStop(block, button) else JogHold(block, button), w))
      ensures answer.connected <==>
        Completes(old(State()), Call(if stop then JogStop(block, button) else JogHold(block, button), w))
      ensures answer.success <==>
        answer.connected && Resolve(block, button).Some? && IsJogButton(button) && (stop || w.second.Lands?)
    {
      hide Held, Stopped, Ensured, Payload, Step, Resolve, IsJogButton;
      ghost var op := if stop then JogStop(block, button) else JogHold(block, button);
      ghost var before := State();
      StepCases(before, Call(op, w));
      EnsureClient(w);
      if !live {
        return Answer(false, false);
      }
      var raised, ok;
      if stop {
        raised, ok := StopPayload(block, button, w);
      } else {
        raised, ok := HoldPayload(block, button, w);
      }
      if raised {
        Drop();
        return Answer(false, false);
      }
      answer := Answer(true, ok);
    }

    /** The 10 Hz tick: no bus traffic unless a jog is pending. */
    method JogDeadman(w: World)
      modifies this, plc
      ensures State() == Step(old(State()), Call(Deadman, w))
    {
      if jog.None? {
        return;
      }
      EnsureClient(w);
      if live && w.body > jog.value.expiry {
        var raised, ok := WriteTo(jog.value.addr, 0, w.first);
        if raised {
          Drop();
        } else {
          jog := None;
        }
      }
    }

    /** control_auger, control_planter and control_both: `on` writes 1, a stop 0. */
    method ControlWords(auger: bool, planter: bool, on: bool, w: World) returns (answer: Answer)
      requires auger || planter
      modifies this, plc
      ensures State() == Step(old(State()), Call(Control(auger, planter, on), w))
      ensures answer.connected <==> Completes(old(State()), Call(Control(auger, planter, on), w))
      ensures answer.success <==>
        answer.connected && w.first.Lands? && (auger && planter ==> w.second.Lands?)
    {
      StepCases(State(), Call(Control(auger, planter, on), w));
      hide Step, Completes, Payload, Ensured;
      EnsureClient(w);
      if !live {
        return Answer(false, false);
      }
      var value := if on then 1 else 0;
      var raised, ok := WriteTo(if auger then 5110 else 5111, value, w.first);
      if !raised && auger && planter {
        var both;
        raised, both := WriteTo(5111, value, w.second);
        ok := ok && both;
      }
      if raised {
        Drop();
        return Answer(false, false);
      }
      answer := Answer(true, ok);
    }

    /** An argument that is no integer is None. */
    method WriteAmrWord(register: Option<int>, amount: Option<int>, pulse: bool, w: World) returns (answer: AmrAnswer)
      modifies this, plc
      ensures register.None? || amount.None? ==>
        State() == old(State()) && answer == AmrAnswer(true, false, None, None)
      ensures register.Some? && amount.Some? ==>
        var (addr, value) := (register.value, amount.value % 0x1_0000);
        var call := Call(AmrWrite(addr, amount.value, pulse), w);
        && State() == Step(old(State()), call)
        && (answer.connected <==> !IsAmrWord(addr) || Completes(old(State()), call))
        && (answer.success <==>
             && answer.connected && IsAmrWord(addr) && w.first.Lands?
             && (pulse && value != 0 ==> w.second.Lands?))
        && answer.readback == (if answer.connected && IsAmrWord(addr) && w.answered
                               then Some(Word(plc.mem, addr)) else None)
      ensures answer.confirmed.Some? <==> answer.readback.Some?
      ensures answer.confirmed.Some? ==>
        (answer.confirmed.value <==> answer.readback.value == if pulse then 0 else amount.value % 0x1_0000)
      ensures answer.success && w.answered ==> answer.confirmed == Some(true)
    {
      if register.None? || amount.None? {
        return AmrAnswer(true, false, None, None);
      }
      var addr, value := register.value, amount.value % 0x1_0000;
      if !IsAmrWord(addr) {
        return AmrAnswer(true, false, None, None);
      }
      StepCases(State(), Call(AmrWrite(addr, amount.value, pulse), w));
      hide Step, Completes, Payload, Ensured;
      var pulsing := pulse && value != 0;
      EnsureClient(w);
      if !live {
        return AmrAnswer(false, false, None, None);
      }
      var raised, ok := WriteTo(addr, value, w.first);
      if !raised && ok && pulsing {
        raised, ok := WriteTo(addr, 0, w.second);
      }
      if raised || !w.readable {
        Drop();
        return AmrAnswer(false, false, None, None);
      }
      var readback := if w.answered then Some(Word(plc.mem, addr)) else None;
      var expected := if pulsing then 0 else value;
      var confirmed := if readback.Some? then Some(readback.value == expected) else None;
      answer := AmrAnswer(true, ok, readback, confirmed);
    }

    method CloseClient()
      modifies this
      ensures forall w :: State() == Step(old(State()), Call(Close, w))
    {
      Drop();
    }
  }
}
