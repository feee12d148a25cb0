/** What each call of the PLC client does to the words and to the client, for every fate
    of its writes, and that a jog that is kept alive stays up. */
module PlcEffects {
  import opened Wrappers
  import opened PushButtons
  import opened Plc
  import opened JogSafety

  // ------------------------------------------------------------- when calls run

  /** A payload runs exactly if the call is not answered before the lock and there is a
      socket, or one can be opened now. */
  lemma RunsExactly(c: Client, call: Call)
    ensures Runs(c, call) <==>
      && (match call.op
          case Close => false
          case Deadman => c.jog.Some?
          case AmrWrite(addr, _, _) => addr in {5110, 5111, 5112}
          case _ => true)
      && (|| c.live
          || (!c.missing && c.nextRetry <= call.world.start && call.world.importable && call.world.connects))
  {
  }

  /** When a connection is tried, and when the missing library is noted for good. */
  lemma DialsExactly(c: Client, w: World)
    ensures Attempts(c, w) <==> !c.live && !c.missing && c.nextRetry <= w.start && w.importable
    ensures Ensured(c, w).missing <==> c.missing || (!c.live && c.nextRetry <= w.start && !w.importable)
    ensures Ensured(c, w).live <==> c.live || (Attempts(c, w) && w.connects)
    ensures Attempts(c, w) && !w.connects ==> Ensured(c, w).nextRetry == w.connected + 3.0
  {
  }

  predicate Answered(reply: Reply) { reply.Lands? || reply.Refused? }

  predicate PulseAnswered(w: World) { Answered(w.first) && (w.first.Lands? ==> Answered(w.second)) }

  /** A payload raises exactly if a write or read that it comes to raises. */
  lemma CompletesExactly(s: System, call: Call)
    requires Runs(s.client, call) && JogOnList(s.client.jog)
    ensures Completes(s, call) <==>
      var (jog, w) := (s.client.jog, call.world);
      match call.op
      case Press(block, button) => Resolve(block, button).None? || IsJogButton(button) || PulseAnswered(w)
      case JogHold(block, button) =>
        if Resolve(block, button).None? || !IsJogButton(button) then true
        else
          && Answered(w.second)
          && (jog.Some? && jog.value.addr != Resolve(block, button).value.0 ==> Answered(w.first))
      case JogStop(block, button) => Resolve(block, button).None? || !IsJogButton(button) || Answered(w.first)
      case Deadman => w.body > jog.value.expiry ==> Answered(w.first)
      case Machine(command) => MachineWord(command).None? || (PulseAnswered(w) && w.readable)
      case RobotCommand(button) => RobotBit(button).None? || (PulseAnswered(w) && w.readable)
      case AmrWrite(_, value, pulse) =>
        w.readable && if pulse && value % 65536 != 0 then PulseAnswered(w) else Answered(w.first)
      case Control(auger, planter, _) =>
        (auger || planter ==> Answered(w.first)) && (auger && planter ==> Answered(w.second))
      case ReadOnly => w.readable
      case Close => true
  {
    if call.op.Press? || call.op.JogHold? || call.op.JogStop? {
      ResolvedInArea(call.op.block, call.op.button);
    } else if call.op.Machine? && MachineWord(call.op.command).Some? {
      MachineBits(call.op.command);
    }
    hide Resolve, MachineWord, RobotBit, Ensured, Immediate, IsJogButton;
  }

  /** The client after a call whose payload ran: it has its socket exactly if nothing
      raised, may dial again at once, and keeps its jog on an error. */
  lemma ClientAfter(s: System, call: Call)
    requires Runs(s.client, call)
    ensures var c := Step(s, call).client;
            && (c.live <==> Completes(s, call)) && (!c.live ==> c.nextRetry == 0.0 && c.jog == s.client.jog)
  {
    hide Payload;
  }

  /** After an error the next call gets through as soon as the PLC can be dialled. */
  lemma ReconnectsAtOnce(s: System, call: Call, next: Call)
    requires Runs(s.client, call) && !Completes(s, call) && !s.client.missing
    requires next.world.start >= 0.0 && next.world.importable && next.world.connects
    requires next.op.ReadOnly? || next.op.Press? || next.op.JogHold? || next.op.JogStop?
    ensures Runs(Step(s, call).client, next)
  {
    hide Payload;
  }

  /** A call that is turned away leaves the words and the jog as they are. */
  lemma TurnedAway(s: System, call: Call)
    requires match call.op
             case Press(block, button) => Resolve(block, button).None? || IsJogButton(button)
             case JogHold(block, button) => Resolve(block, button).None? || !IsJogButton(button)
             case JogStop(block, button) => Resolve(block, button).None? || !IsJogButton(button)
             case Machine(command) => MachineWord(command).None?
             case RobotCommand(button) => RobotBit(button).None?
             case AmrWrite(addr, _, _) => addr !in {5110, 5111, 5112}
             case Control(auger, planter, _) => !auger && !planter
             case Deadman => s.client.jog.None?
             case _ => true
    ensures Step(s, call).mem == Midway(s, call) == s.mem && Step(s, call).client.jog == s.client.jog
  {
    if Runs(s.client, call) {
      RanStep(s, call);
      hide Step, Midway, Runs;
    } else {
      hide Payload;
    }
  }

  lemma WriteFloor(mem: Memory, addr: int, value: int, reply: Reply)
    requires addr < 5000
    ensures WriteWord(mem, addr, value, reply) == Written(mem, false, false)
  {
  }

  // ---------------------------------------------------------------- jog payloads

  /** A hold word by word: the other axis it leaves is cleared first; unless that raised,
      the new word takes exactly the button's bit; a hold that raised leaves the record
      as it was, any other arms it for half a second. */
  lemma HoldWords(s: System, call: Call, a: int)
    requires call.op.JogHold? && Runs(s.client, call) && JogOnList(s.client.jog)
    requires Resolve(call.op.block, call.op.button).Some? && IsJogButton(call.op.button)
    ensures var (addr, bit) := Resolve(call.op.block, call.op.button).value;
            var (jog, w) := (s.client.jog, call.world);
            var leaves := jog.Some? && jog.value.addr != addr;
            var broke := leaves && !Answered(w.first);
            var cleared := leaves && a == jog.value.addr && Arrives(w.first);
            && Word(Midway(s, call), a) == (if cleared then 0 else Word(s.mem, a))
            && Word(Step(s, call).mem, a) ==
               (if a == addr && !broke && Arrives(w.second) then bit else if cleared then 0 else Word(s.mem, a))
            && Step(s, call).client.jog ==
               if broke || !Answered(w.second) then jog else Some(Jog(addr, bit, w.body + 0.5))
  {
    ResolvedButtons(call.op.block, call.op.button);
    RanStep(s, call);
    var (addr, bit) := Resolve(call.op.block, call.op.button).value;
    var (jog, w) := (s.client.jog, call.world);
    if jog.Some? && jog.value.addr != addr {
      AnyWrite(s.mem, jog.value.addr, 0, w.first, a);
      AnyWrite(WriteWord(s.mem, jog.value.addr, 0, w.first).mem, addr, bit, w.second, a);
    } else {
      AnyWrite(s.mem, addr, bit, w.second, a);
    }
    hide Step, Midway, Runs, Resolve, WriteWord, Word, HasJogBit, IsJogButton, IsButtonWord;
  }

  lemma AnyWrite(mem: Memory, addr: int, value: int, reply: Reply, a: int)
    requires addr >= 5000 && 0 <= value < 65536
    ensures var one := WriteWord(mem, addr, value, reply);
            && Word(one.mem, a) == (if a == addr && Arrives(reply) then value else Word(mem, a))
            && (one.raised <==> !Answered(reply)) && (one.ok <==> reply.Lands?)
  {
  }

  /** A stop word by word: the axis' word is cleared, and the record dropped only if it
      is that axis' and nothing raised. */
  lemma StopWords(s: System, call: Call, a: int)
    requires call.op.JogStop? && Runs(s.client, call)
    requires Resolve(call.op.block, call.op.button).Some? && IsJogButton(call.op.button)
    ensures var addr := Resolve(call.op.block, call.op.button).value.0;
            var (jog, w) := (s.client.jog, call.world);
            && Word(Step(s, call).mem, a) == (if a == addr && Arrives(w.first) then 0 else Word(s.mem, a))
            && Step(s, call).client.jog ==
               if jog.Some? && jog.value.addr == addr && Answered(w.first) then None else jog
  {
    ResolvedButtons(call.op.block, call.op.button);
    RanStep(s, call);
    AnyWrite(s.mem, Resolve(call.op.block, call.op.button).value.0, 0, call.world.first, a);
    hide Step, Midway, Runs, Resolve, WriteWord, Word, HasJogBit, IsJogButton, IsButtonWord, IsJogWord;
  }

  /** A tick that finds the jog fresh changes nothing at all, between its writes either;
      one that finds it lapsed clears its word and, unless that raised, its record. */
  lemma TickExactly(s: System, call: Call, a: int)
    requires call.op.Deadman? && Runs(s.client, call) && s.client.jog.Some? && JogOnList(s.client.jog)
    ensures var (jog, w, after) := (s.client.jog, call.world, Step(s, call));
            if w.body <= jog.value.expiry
            then after.mem == s.mem && Midway(s, call) == s.mem && after.client.jog == jog
            else
              && Word(after.mem, a) == (if a == jog.value.addr && Arrives(w.first) then 0 else Word(s.mem, a))
              && after.client.jog == if Answered(w.first) then None else jog
  {
    RanStep(s, call);
    AnyWrite(s.mem, s.client.jog.value.addr, 0, call.world.first, a);
    hide Step, Midway, Runs, WriteWord, Word;
  }

  // -------------------------------------------------------------- other payloads

  /** A machine command shows exactly its bit and leaves 0, unless the first reply was
      lost or the second write did not arrive. */
  lemma MachineEffect(s: System, call: Call, a: int)
    requires call.op.Machine? && Runs(s.client, call) && MachineWord(call.op.command).Some?
    ensures var (addr, bit) := MachineWord(call.op.command).value;
            PulsedWord(s, call, addr, bit, a)
  {
    var (addr, bit) := MachineWord(call.op.command).value;
    MachineBits(call.op.command);
    RanStep(s, call);
    PulseEffect(s.client.jog, s.mem, addr, bit, call.world);
    hide Step, Midway, Runs, Pulse, Word, MachineWord;
  }

  /** A robot command likewise, in the robot's word. */
  lemma RobotEffect(s: System, call: Call, a: int)
    requires call.op.RobotCommand? && Runs(s.client, call) && RobotBit(call.op.robotButton).Some?
    ensures PulsedWord(s, call, 6200, RobotBit(call.op.robotButton).value, a)
  {
    RobotBits(call.op.robotButton);
    RanStep(s, call);
    PulseEffect(s.client.jog, s.mem, 6200, RobotBit(call.op.robotButton).value, call.world);
    hide Step, Midway, Runs, Pulse, Word, RobotBit;
  }

  predicate PulsedWord(s: System, call: Call, addr: int, bit: int, a: int) {
    var (mid, after, w) := (Midway(s, call), Step(s, call), call.world);
    && Word(mid, a) == (if a == addr && Arrives(w.first) then bit else Word(s.mem, a))
    && Word(after.mem, a) == (if a == addr && w.first.Lands? && Arrives(w.second) then 0 else Word(mid, a))
    && after.client.jog == s.client.jog
  }

  /** The start words: each takes 1 or 0 exactly if it was asked for and its own write
      arrived; the planter's is not written once the auger's has raised. */
  lemma ControlEffect(s: System, call: Call, a: int)
    requires call.op.Control? && Runs(s.client, call)
    ensures var (op, w, after) := (call.op, call.world, Step(s, call));
            var planted := if op.auger then Answered(w.first) && Arrives(w.second) else Arrives(w.first);
            && Word(after.mem, a) ==
               (if (a == 5110 && op.auger && Arrives(w.first)) || (a == 5111 && op.planter && planted)
                then if op.on then 1 else 0
                else Word(s.mem, a))
            && after.client.jog == s.client.jog
  {
    var value := if call.op.on then 1 else 0;
    RanStep(s, call);
    AnyWrite(s.mem, 5110, value, call.world.first, a);
    AnyWrite(s.mem, 5111, value, call.world.first, a);
    AnyWrite(WriteWord(s.mem, 5110, value, call.world.first).mem, 5111, value, call.world.second, a);
    hide Step, Midway, Runs, WriteWord, Word;
  }

  // ------------------------------------------------------------ a jog kept alive

  /** A call that has no business ending the jog on `addr`: no stop of that axis, no
      hold of another one, no press in that word. */
  predicate LeavesAxis(op: Op, addr: int) {
    match op
    case Press(block, button) =>
      Resolve(block, button).None? || IsJogButton(button) || Resolve(block, button).value.0 != addr
    case JogStop(block, button) =>
      Resolve(block, button).None? || !IsJogButton(button) || Resolve(block, button).value.0 != addr
    case JogHold(block, button) =>
      Resolve(block, button).None? || !IsJogButton(button) || Resolve(block, button).value.0 == addr
    case _ => true
  }

  /** The jog on `addr` is held and its bit is up. */
  predicate HeldUp(s: System, addr: int) {
    s.client.jog.Some? && s.client.jog.value.addr == addr && Jogging(s.mem, addr)
  }

  lemma HoldKeepsUp(s: System, call: Call, addr: int)
    requires call.op.JogHold? && Runs(s.client, call) && JogOnList(s.client.jog)
    requires HeldUp(s, addr) && LeavesAxis(call.op, addr)
    requires call.world.first in {Lands, Raises} && call.world.second in {Lands, Raises}
    ensures HeldUp(Step(s, call), addr)
  {
    if Resolve(call.op.block, call.op.button).None? || !IsJogButton(call.op.button) {
      TurnedAway(s, call);
    } else {
      HoldWords(s, call, addr);
      ResolvedButtons(call.op.block, call.op.button);
      hide Step, Midway, Runs, Resolve, Word, HasJogBit, IsJogButton, IsButtonWord;
    }
  }

  lemma StopKeepsUp(s: System, call: Call, addr: int)
    requires call.op.JogStop? && Runs(s.client, call) && HeldUp(s, addr) && LeavesAxis(call.op, addr)
    ensures HeldUp(Step(s, call), addr) && Step(s, call).client.jog == s.client.jog
  {
    if Resolve(call.op.block, call.op.button).None? || !IsJogButton(call.op.button) {
      TurnedAway(s, call);
    } else {
      StopWords(s, call, addr);
    }
    hide Step, Midway, Runs, Resolve, Word, HasJogBit, IsJogButton;
  }

  lemma PlainKeepsUp(s: System, call: Call, addr: int)
    requires !MovesJog(call.op) && Runs(s.client, call) && JogOnList(s.client.jog)
    requires HeldUp(s, addr) && LeavesAxis(call.op, addr)
    ensures HeldUp(Step(s, call), addr) && Step(s, call).client.jog == s.client.jog
  {
    match call.op
    case Press(block, button) =>
      if Resolve(block, button).None? || IsJogButton(button) {
        TurnedAway(s, call);
      } else {
        PressEffect(s, call);
      }
      hide Step, Midway, Runs, Resolve, Word, HasJogBit, IsJogButton;
    case Machine(command) =>
      if MachineWord(command).None? {
        TurnedAway(s, call);
      } else {
        MachineEffect(s, call, addr);
        MachineWords(command);
      }
      hide Step, Midway, Runs, MachineWord, Word, HasJogBit;
    case RobotCommand(button) =>
      if RobotBit(button).None? {
        TurnedAway(s, call);
      } else {
        RobotEffect(s, call, addr);
      }
      hide Step, Midway, Runs, RobotBit, Word, HasJogBit;
    case AmrWrite(_, _, _) =>
      RunsExactly(s.client, call);
      AmrWriteEffect(s, call);
      hide Step, Midway, Runs, Word, HasJogBit;
    case Control(_, _, _) =>
      ControlEffect(s, call, addr);
      hide Step, Midway, Runs, Word, HasJogBit;
    case _ =>
      TurnedAway(s, call);
      hide Step, Midway, Runs, Word, HasJogBit;
  }

  lemma StepKeepsUp(s: System, call: Call, addr: int)
    requires JogOnList(s.client.jog) && HeldUp(s, addr) && LeavesAxis(call.op, addr)
    requires call.world.first in {Lands, Raises} && call.world.second in {Lands, Raises}
    requires call.op.Deadman? ==> call.world.body <= s.client.jog.value.expiry
    ensures HeldUp(Step(s, call), addr)
    ensures !Arms(s, call) ==> Step(s, call).client.jog == s.client.jog
  {
    if !Runs(s.client, call) {
      hide Payload, Jogging;
    } else if call.op.JogHold? {
      HoldKeepsUp(s, call, addr);
      RanStep(s, call);
      if !Arms(s, call) {
        UnarmedHold(s, call);
      }
      hide Step, Midway, Runs, Payload, Resolve, Jogging, IsJogButton;
    } else if call.op.JogStop? {
      StopKeepsUp(s, call, addr);
      hide Step, Midway, Runs, Payload, Resolve, Jogging, IsJogButton;
    } else if call.op.Deadman? {
      TickExactly(s, call, addr);
      hide Step, Midway, Runs, Payload, Jogging;
    } else {
      PlainKeepsUp(s, call, addr);
      hide Step, Midway, Runs, Payload, Resolve, Jogging;
    }
  }

  lemma UnarmedHold(s: System, call: Call)
    requires call.op.JogHold? && Runs(s.client, call) && !Arms(s, call)
    ensures Step(s, call).client.jog == s.client.jog
  {
    hide Resolve, WriteWord, IsJogButton;
  }

  /** Hold-to-jog works: on a clean bus, an axis that has been armed stays held with its
      bit up through any calls that have no business ending it, as long as each tick
      finds the last arming at most half a second old. */
  lemma {:induction false} HeldJogStaysUp(s: System, calls: seq<Call>, addr: int, armed: real)
    requires JogOnList(s.client.jog) && HeldUp(s, addr) && s.client.jog.value.expiry == armed + 0.5
    requires CleanBus(calls) && forall i :: 0 <= i < |calls| ==> LeavesAxis(calls[i].op, addr)
    requires forall i :: 0 <= i < |calls| && calls[i].op.Deadman? ==>
               calls[i].world.body - LastArmed(s, calls[..i], armed) <= 0.5
    ensures var now := Run(s, calls);
            HeldUp(now, addr) && now.client.jog.value.expiry == LastArmed(s, calls, armed) + 0.5
    decreases |calls|
  {
    if calls != [] {
      hide Step, Jogging, Arms, LeavesAxis, Runs;
      var n := |calls| - 1;
      var before, call := calls[..n], calls[n];
      assert forall i :: 0 <= i < n ==> before[i] == calls[i] && before[..i] == calls[..i];
      HeldJogStaysUp(s, before, addr, armed);
      var now := Run(s, before);
      RunWritesAllowed(s, before);
      StepKeepsUp(now, call, addr);
      if Arms(now, call) {
        ArmedHold(now, call);
      }
    }
  }

  lemma ArmedHold(s: System, call: Call)
    requires JogOnList(s.client.jog) && Arms(s, call)
    ensures Step(s, call).client.jog.Some? && Step(s, call).client.jog.value.expiry == call.world.body + 0.5
  {
    RanStep(s, call);
    hide Step, Midway, Runs, Resolve, WriteWord;
  }
}
