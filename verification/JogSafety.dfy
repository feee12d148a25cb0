/** What the PLC client keeps over any sequence of calls: which words it writes,
    that at most one axis is ever jogged and the client knows which, how long a jog
    can outlive its refreshes, and how often a dead PLC is dialled. */
module JogSafety {
  import opened Wrappers
  import opened PushButtons
  import opened Plc

  // --------------------------------------------------------------- single writes

  predicate Jogging(mem: Memory, w: int) { IsJogWord(w) && HasJogBit(Word(mem, w)) }

  ghost predicate SameElsewhere(before: Memory, after: Memory, addr: int) {
    forall a :: a != addr ==> Word(after, a) == Word(before, a)
  }

  ghost predicate NoNewJog(before: Memory, after: Memory) {
    forall w :: Jogging(after, w) ==> Jogging(before, w)
  }

  predicate Arrives(reply: Reply) { reply.Lands? || reply.Lost? }

  lemma WriteTouchesOne(mem: Memory, addr: int, value: int, reply: Reply)
    ensures SameElsewhere(mem, WriteWord(mem, addr, value, reply).mem, addr)
  {
  }

  lemma ClearedWord(mem: Memory, addr: int, reply: Reply)
    requires IsJogWord(addr)
    ensures var after := WriteWord(mem, addr, 0, reply).mem;
            forall w :: Jogging(after, w) <==> Jogging(mem, w) && !(w == addr && Arrives(reply))
  {
    assert !HasJogBit(0);
  }

  lemma RaisedWord(mem: Memory, addr: int, bit: int, reply: Reply)
    requires IsJogWord(addr) && HasJogBit(bit) && 0 < bit < 0x1_0000
    ensures var after := WriteWord(mem, addr, bit, reply).mem;
            forall w :: Jogging(after, w) <==> Jogging(mem, w) || (w == addr && Arrives(reply))
  {
    hide HasJogBit;
  }

  lemma PlainWrite(mem: Memory, addr: int, value: int, reply: Reply)
    requires !IsJogWord(addr) || !HasJogBit(value % 0x1_0000)
    ensures NoNewJog(mem, WriteWord(mem, addr, value, reply).mem)
  {
    hide HasJogBit;
  }

  lemma PlainPulse(jog: Option<Jog>, mem: Memory, addr: int, value: int, w: World)
    requires !IsJogWord(addr) || !HasJogBit(value % 0x1_0000)
    ensures var e := Pulse(jog, mem, addr, value, w);
            NoNewJog(mem, e.mid) && NoNewJog(mem, e.mem) && e.jog == jog
            && SameElsewhere(mem, e.mid, addr) && SameElsewhere(mem, e.mem, addr)
  {
    PlainWrite(mem, addr, value, w.first);
    WriteTouchesOne(mem, addr, value, w.first);
    var one := WriteWord(mem, addr, value, w.first);
    assert !HasJogBit(0);
    PlainWrite(one.mem, addr, 0, w.second);
    WriteTouchesOne(one.mem, addr, 0, w.second);
    hide HasJogBit, IsJogWord, WriteWord;
  }

  // ----------------------------------------------------------------- allow-list

  predicate IsWritable(addr: int) { IsButtonWord(addr) || IsAmrWord(addr) }

  predicate JogOnList(jog: Option<Jog>) { jog.Some? ==> IsJogWord(jog.value.addr) }

  ghost predicate OnlyWritable(before: Memory, after: Memory) {
    forall a :: !IsWritable(a) ==> Word(after, a) == Word(before, a)
  }

  predicate MovesJog(op: Op) { op.JogHold? || op.JogStop? || op.Deadman? }

  /** Every payload but the three jog ones leaves the jog alone and raises no jog
      bit, and writes nothing off the list. */
  lemma PlainPayload(jog: Option<Jog>, mem: Memory, op: Op, w: World)
    requires !MovesJog(op) && (op.AmrWrite? ==> IsAmrWord(op.addr))
    ensures var e := Payload(jog, mem, op, w);
            NoNewJog(mem, e.mid) && NoNewJog(mem, e.mem) && e.jog == jog
            && OnlyWritable(mem, e.mid) && OnlyWritable(mem, e.mem)
  {
    hide HasJogBit, Word, Resolve, MachineWord, RobotBit, WriteWord, Pulse;
    match op
    case Press(block, button) =>
      var spec := Resolve(block, button);
      if spec.Some? && !IsJogButton(button) {
        ResolvedButtons(block, button);
        PlainPulse(jog, mem, spec.value.0, spec.value.1, w);
      }
    case Machine(command) =>
      var spec := MachineWord(command);
      if spec.Some? {
        MachineWords(command);
        PlainPulse(jog, mem, spec.value.0, spec.value.1, w);
      }
    case RobotCommand(button) =>
      if RobotBit(button).Some? {
        PlainPulse(jog, mem, ROBOT_WORD, RobotBit(button).value, w);
      }
    case AmrWrite(addr, value, pulse) =>
      PlainPulse(jog, mem, addr, value % 0x1_0000, w);
      PlainWrite(mem, addr, value % 0x1_0000, w.first);
      WriteTouchesOne(mem, addr, value % 0x1_0000, w.first);
    case Control(auger, planter, on) =>
      var value := if on then 1 else 0;
      PlainWrite(mem, 5110, value, w.first);
      WriteTouchesOne(mem, 5110, value, w.first);
      PlainWrite(mem, 5111, value, w.first);
      WriteTouchesOne(mem, 5111, value, w.first);
      var mid := WriteWord(mem, 5110, value, w.first).mem;
      PlainWrite(mid, 5111, value, w.second);
      WriteTouchesOne(mid, 5111, value, w.second);
    case _ =>
  }

  lemma MachineWords(command: MachineCommand)
    requires MachineWord(command).Some?
    ensures MachineWord(command).value.0 in {5000, 5001, 5002}
  {
  }

  lemma JogPayloadAllowed(jog: Option<Jog>, mem: Memory, op: Op, w: World)
    requires MovesJog(op) && JogOnList(jog)
    ensures var e := Payload(jog, mem, op, w);
            JogOnList(e.jog) && OnlyWritable(mem, e.mid) && OnlyWritable(mem, e.mem)
  {
    hide HasJogBit, Word, Resolve, WriteWord;
    if jog.Some? {
      WriteTouchesOne(mem, jog.value.addr, 0, w.first);
    }
    if !op.Deadman? && Resolve(op.block, op.button).Some? {
      ResolvedButtons(op.block, op.button);
      var (addr, bit) := Resolve(op.block, op.button).value;
      WriteTouchesOne(mem, addr, 0, w.first);
      WriteTouchesOne(mem, addr, bit, w.second);
      if jog.Some? {
        WriteTouchesOne(WriteWord(mem, jog.value.addr, 0, w.first).mem, addr, bit, w.second);
      }
    }
  }

  /** What a payload that ran leaves of the system. */
  lemma RanStep(s: System, call: Call)
    requires Runs(s.client, call)
    ensures var e := Payload(s.client.jog, s.mem, call.op, call.world);
            && Step(s, call).mem == e.mem && Midway(s, call) == e.mid
            && Step(s, call).client.jog == if e.raised then s.client.jog else e.jog
  {
    hide Payload;
  }

  /** Whatever the bus does, a call changes allow-listed words only, and the held
      jog stays on the list. */
  lemma StepWritesAllowed(s: System, call: Call)
    requires JogOnList(s.client.jog)
    ensures JogOnList(Step(s, call).client.jog)
    ensures OnlyWritable(s.mem, Step(s, call).mem) && OnlyWritable(s.mem, Midway(s, call))
  {
    hide Payload, Word, IsWritable;
    if Runs(s.client, call) {
      if MovesJog(call.op) {
        JogPayloadAllowed(s.client.jog, s.mem, call.op, call.world);
      } else {
        PlainPayload(s.client.jog, s.mem, call.op, call.world);
      }
    }
  }

  /** Over any run, on any bus, no word off the allow-list is ever written. */
  lemma {:induction false} RunWritesAllowed(s: System, calls: seq<Call>)
    requires JogOnList(s.client.jog)
    ensures JogOnList(Run(s, calls).client.jog) && OnlyWritable(s.mem, Run(s, calls).mem)
    decreases |calls|
  {
    hide Step, Word, IsWritable;
    if calls != [] {
      var before := calls[..|calls| - 1];
      RunWritesAllowed(s, before);
      StepWritesAllowed(Run(s, before), calls[|calls| - 1]);
    }
  }

  // ------------------------------------------------------------------ one jog

  /** Every raised jog bit is in the word the client holds. */
  ghost predicate Tracked(jog: Option<Jog>, mem: Memory) {
    forall w :: Jogging(mem, w) ==> jog.Some? && jog.value.addr == w
  }

  ghost predicate AtMostOneJog(mem: Memory) {
    forall v, w :: Jogging(mem, v) && Jogging(mem, w) ==> v == w
  }

  /** The guards under which a call loses track of a jog: a clear that the PLC
      refuses is taken for done, and a jog write whose reply is lost is taken for
      not made. */
  predicate LosesTrack(s: System, call: Call) {
    Runs(s.client, call) &&
    var jog, w := s.client.jog, call.world;
    match call.op
    case JogStop(block, button) =>
      Resolve(block, button).Some? && IsJogButton(button)
      && w.first.Refused? && Jogging(s.mem, Resolve(block, button).value.0)
    case JogHold(block, button) =>
      Resolve(block, button).Some? && IsJogButton(button) &&
      var addr := Resolve(block, button).value.0;
      if jog.Some? && jog.value.addr != addr then
        if w.first.Lands? then w.second.Lost?
        else w.first.Refused? && (w.second.Lost? || (!w.second.Raises? && Jogging(s.mem, jog.value.addr)))
      else w.second.Lost? && jog.None?
    case Deadman =>
      jog.Some? && w.body > jog.value.expiry && w.first.Refused? && Jogging(s.mem, jog.value.addr)
    case _ => false
  }

  /** What a hold leaves raised: with `prior` the word held before if it is another
      axis, the clear drops that bit if it arrives, and unless the clear raised, the
      new word's bit goes up if its write arrives. */
  lemma HoldEffect(jog: Option<Jog>, mem: Memory, block: Block, button: Button, w: World)
    requires Resolve(block, button).Some? && IsJogButton(button) && JogOnList(jog)
    ensures var (addr, bit) := Resolve(block, button).value;
            var switching := jog.Some? && jog.value.addr != addr;
            var broke := switching && (w.first.Raises? || w.first.Lost?);
            var e := Held(jog, mem, block, button, w);
            && IsJogWord(addr)
            && (forall x :: Jogging(e.mid, x) <==>
                 Jogging(mem, x) && !(switching && x == jog.value.addr && Arrives(w.first)))
            && (forall x :: Jogging(e.mem, x) <==> Jogging(e.mid, x) || (!broke && x == addr && Arrives(w.second)))
            && e.raised == (broke || w.second.Raises? || w.second.Lost?)
            && (!e.raised ==> e.jog == Some(Jog(addr, bit, w.body + JOG_DEADMAN)))
  {
    ResolvedButtons(block, button);
    var (addr, bit) := Resolve(block, button).value;
    if jog.Some? && jog.value.addr != addr {
      var cleared := WriteWord(mem, jog.value.addr, 0, w.first).mem;
      ClearedWord(mem, jog.value.addr, w.first);
      RaisedWord(cleared, addr, bit, w.second);
      WriteRaises(mem, jog.value.addr, 0, w.first);
      WriteRaises(cleared, addr, bit, w.second);
      hide HasJogBit, Word, Resolve, Jogging, IsJogWord, IsJogButton, WriteWord;
    } else {
      RaisedWord(mem, addr, bit, w.second);
      WriteRaises(mem, addr, bit, w.second);
      hide HasJogBit, Word, Resolve, Jogging, IsJogWord, IsJogButton, WriteWord;
    }
  }

  lemma WriteRaises(mem: Memory, addr: int, value: int, reply: Reply)
    requires IsJogWord(addr)
    ensures WriteWord(mem, addr, value, reply).raised <==> reply.Raises? || reply.Lost?
  {
  }

  lemma HoldTracks(s: System, call: Call)
    requires call.op.JogHold? && Runs(s.client, call)
    requires JogOnList(s.client.jog) && Tracked(s.client.jog, s.mem)
    ensures AtMostOneJog(Midway(s, call))
    ensures Tracked(Step(s, call).client.jog, Step(s, call).mem) <==> !LosesTrack(s, call)
  {
    var jog := s.client.jog;
    var spec := Resolve(call.op.block, call.op.button);
    if spec.Some? && IsJogButton(call.op.button) {
      HoldEffect(jog, s.mem, call.op.block, call.op.button, call.world);
      hide Held, Resolve, Jogging, Ensured, IsJogWord, IsJogButton;
      var mem := Step(s, call).mem;
      assert Jogging(mem, spec.value.0) || !Jogging(mem, spec.value.0);
      assert jog.Some? ==> Jogging(mem, jog.value.addr) || !Jogging(mem, jog.value.addr);
    }
  }

  lemma StopTracks(s: System, call: Call)
    requires (call.op.JogStop? || call.op.Deadman?) && Runs(s.client, call)
    requires JogOnList(s.client.jog) && Tracked(s.client.jog, s.mem)
    ensures AtMostOneJog(Midway(s, call))
    ensures Tracked(Step(s, call).client.jog, Step(s, call).mem) <==> !LosesTrack(s, call)
  {
    var w, jog := call.world, s.client.jog;
    if call.op.JogStop? && Resolve(call.op.block, call.op.button).Some? {
      ResolvedButtons(call.op.block, call.op.button);
      if IsJogButton(call.op.button) {
        ClearedWord(s.mem, Resolve(call.op.block, call.op.button).value.0, w.first);
        WriteRaises(s.mem, Resolve(call.op.block, call.op.button).value.0, 0, w.first);
      }
    }
    if call.op.Deadman? && jog.Some? {
      ClearedWord(s.mem, jog.value.addr, w.first);
      WriteRaises(s.mem, jog.value.addr, 0, w.first);
    }
    RanStep(s, call);
    hide HasJogBit, Word, Resolve, Jogging, Ensured, Step, Midway, IsJogWord, WriteWord;
  }

  /** One call from a tracked state: between its two writes there is still at most
      one axis jogging, and the client still knows every jog afterwards exactly when
      none of those guards held. */
  lemma StepTracks(s: System, call: Call)
    requires JogOnList(s.client.jog) && Tracked(s.client.jog, s.mem)
    ensures AtMostOneJog(Midway(s, call))
    ensures Tracked(Step(s, call).client.jog, Step(s, call).mem) <==> !LosesTrack(s, call)
  {
    if !Runs(s.client, call) {
      hide Payload, Jogging;
    } else if call.op.JogHold? {
      HoldTracks(s, call);
    } else if MovesJog(call.op) {
      StopTracks(s, call);
    } else {
      hide Payload, Jogging;
      PlainPayload(s.client.jog, s.mem, call.op, call.world);
    }
  }

  /** Every write either lands or raises with nothing written. */
  predicate CleanBus(calls: seq<Call>) {
    forall i :: 0 <= i < |calls| ==>
      calls[i].world.first in {Lands, Raises} && calls[i].world.second in {Lands, Raises}
  }

  /** No jog held, no jog bit up: a client that has just been created. */
  ghost predicate AtRest(s: System) {
    s.client.jog.None? && forall w :: !Jogging(s.mem, w)
  }

  lemma {:induction false} RunTracks(s: System, calls: seq<Call>)
    requires AtRest(s) && CleanBus(calls)
    ensures JogOnList(Run(s, calls).client.jog)
    ensures Tracked(Run(s, calls).client.jog, Run(s, calls).mem)
    decreases |calls|
  {
    hide Step, Jogging, Ensured;
    if calls != [] {
      var before, last := calls[..|calls| - 1], calls[|calls| - 1];
      RunTracks(s, before);
      var now := Run(s, before);
      StepWritesAllowed(now, last);
      assert last.world.first in {Lands, Raises} && last.world.second in {Lands, Raises};
      assert !LosesTrack(now, last);
      StepTracks(now, last);
    }
  }

  /** Jog safety: after any sequence of calls on a clean bus, and between the two
      writes of the next call whatever that one meets, at most one jog-capable word
      holds a jog bit, and at rest the client holds that very jog. */
  lemma JogSafety(s: System, calls: seq<Call>, next: Call)
    requires AtRest(s) && CleanBus(calls)
    ensures var now := Run(s, calls);
            AtMostOneJog(now.mem) && Tracked(now.client.jog, now.mem) && AtMostOneJog(Midway(now, next))
  {
    hide Run, Step, Midway, Jogging;
    RunTracks(s, calls);
    StepTracks(Run(s, calls), next);
  }

  // ------------------------------------------------------- what the bus may break

  const QUIET: System := System(Client(true, false, 0.0, None), map[])

  function At(t: real, first: Reply, second: Reply): World { World(t, t, t, true, true, first, second, true, true) }

  /** A lost reply hides a running axis from the deadman: the bit of a jog whose
      write landed but raised stays up through every later tick. */
  lemma {:induction false} LostReplyStrandsJog(ticks: seq<Call>)
    requires forall i :: 0 <= i < |ticks| ==> ticks[i].op.Deadman?
    ensures var started := Step(QUIET, Call(JogHold(AugerSlide, JogFwd), At(0.0, Lands, Lost)));
            Jogging(Run(started, ticks).mem, 5400) && Run(started, ticks).client.jog.None?
    decreases |ticks|
  {
    if ticks != [] {
      LostReplyStrandsJog(ticks[..|ticks| - 1]);
    }
  }

  /** A refused clear is forgotten: switching axes then leaves two axes jogging. */
  lemma RefusedClearJogsTwoAxes()
    ensures var one := Step(QUIET, Call(JogHold(AugerSlide, JogFwd), At(0.0, Lands, Lands)));
            var two := Step(one, Call(JogHold(PlanterSlide, JogFwd), At(0.1, Refused, Lands)));
            Jogging(two.mem, 5400) && Jogging(two.mem, 5500)
  {
  }

  // --------------------------------------------------------------- jog time bound

  /** A deadman tick that did its work: nothing is held, or it got to the bus and
      either the jog was fresh or its clear landed. */
  predicate GoodTick(s: System, call: Call) {
    call.op.Deadman? &&
    (s.client.jog.None?
     || (Runs(s.client, call) && (call.world.body > s.client.jog.value.expiry ==> call.world.first.Lands?)))
  }

  /** When the last good tick of the run looked at the clock (`since` before any). */
  function LastTick(s: System, calls: seq<Call>, since: real): real {
    if calls == [] then since else
    var before, last := calls[..|calls| - 1], calls[|calls| - 1];
    if GoodTick(Run(s, before), last) then last.world.body else LastTick(s, before, since)
  }

  /** A hold that reached the end of its payload and armed the expiry. */
  predicate Arms(s: System, call: Call) {
    && call.op.JogHold? && Runs(s.client, call)
    && Resolve(call.op.block, call.op.button).Some? && IsJogButton(call.op.button)
    && !Payload(s.client.jog, s.mem, call.op, call.world).raised
  }

  /** When the expiry was last armed (`since` before any). */
  function LastArmed(s: System, calls: seq<Call>, since: real): real {
    if calls == [] then since else
    var before, last := calls[..|calls| - 1], calls[|calls| - 1];
    if Arms(Run(s, before), last) then last.world.body else LastArmed(s, before, since)
  }

  function EndOf(calls: seq<Call>, since: real): real {
    if calls == [] then since else calls[|calls| - 1].world.body
  }

  lemma {:induction false} ExpiryOutlivesTick(s: System, calls: seq<Call>, since: real)
    requires AtRest(s) && CleanBus(calls) && Serial(calls)
    requires calls != [] ==> since <= calls[0].world.start
    ensures LastTick(s, calls, since) <= EndOf(calls, since)
    ensures var jog := Run(s, calls).client.jog; jog.Some? ==>
              && jog.value.expiry == LastArmed(s, calls, since) + 0.5
              && (Jogging(Run(s, calls).mem, jog.value.addr) ==> LastTick(s, calls, since) <= jog.value.expiry)
    decreases |calls|
  {
    if calls != [] {
      var before, last := calls[..|calls| - 1], calls[|calls| - 1];
      ExpiryOutlivesTick(s, before, since);
      RunTracks(s, before);
      RunTracks(s, calls);
      ExpiryStep(Run(s, before), last);
      hide Step, Jogging, Arms, GoodTick, Tracked, AtRest, Runs;
      assert InOrder(last.world);
      assert EndOf(before, since) <= last.world.start;
    }
  }

  /** What one call does to the pair of held jog and raised bit. */
  ghost predicate KeepsExpiry(s: System, call: Call) {
    var (before, jog) := (s.client.jog, Step(s, call).client.jog);
    && (Arms(s, call) ==> jog.Some? && jog.value.expiry == call.world.body + JOG_DEADMAN)
    && (!Arms(s, call) && jog.Some? ==> before == jog)
    && (!Arms(s, call) && jog.Some? && Jogging(Step(s, call).mem, jog.value.addr) ==> Jogging(s.mem, jog.value.addr))
    && (GoodTick(s, call) && jog.Some? && Jogging(Step(s, call).mem, jog.value.addr) ==>
         call.world.body <= jog.value.expiry)
  }

  lemma ExpiryStep(s: System, call: Call)
    requires JogOnList(s.client.jog) && Tracked(s.client.jog, s.mem)
    requires call.world.first in {Lands, Raises} && call.world.second in {Lands, Raises}
    ensures KeepsExpiry(s, call)
  {
    if !Runs(s.client, call) {
      hide Payload, Jogging;
    } else if call.op.JogHold? {
      HoldKeepsExpiry(s, call);
    } else if MovesJog(call.op) {
      StopKeepsExpiry(s, call);
    } else {
      hide Payload, Jogging;
      PlainPayload(s.client.jog, s.mem, call.op, call.world);
    }
  }

  lemma HoldKeepsExpiry(s: System, call: Call)
    requires call.op.JogHold? && Runs(s.client, call) && JogOnList(s.client.jog)
    requires call.world.first in {Lands, Raises} && call.world.second in {Lands, Raises}
    ensures KeepsExpiry(s, call)
  {
    if Resolve(call.op.block, call.op.button).Some? && IsJogButton(call.op.button) {
      HoldEffect(s.client.jog, s.mem, call.op.block, call.op.button, call.world);
      hide Held, Resolve, Jogging, Ensured, IsJogWord, IsJogButton;
    }
  }

  lemma StopKeepsExpiry(s: System, call: Call)
    requires (call.op.JogStop? || call.op.Deadman?) && Runs(s.client, call) && JogOnList(s.client.jog)
    requires call.world.first in {Lands, Raises} && call.world.second in {Lands, Raises}
    ensures KeepsExpiry(s, call)
  {
    var w, jog := call.world, s.client.jog;
    if call.op.JogStop? && Resolve(call.op.block, call.op.button).Some? {
      ResolvedButtons(call.op.block, call.op.button);
      if IsJogButton(call.op.button) {
        ClearedWord(s.mem, Resolve(call.op.block, call.op.button).value.0, w.first);
      }
    }
    if call.op.Deadman? && jog.Some? {
      ClearedWord(s.mem, jog.value.addr, w.first);
    }
    hide HasJogBit, Word, Resolve, Jogging, Ensured;
  }

  /** Jog time bound: on a clean bus, whatever else is called and however often the
      clear has to be retried, a jog bit that is still up was armed at most
      JOG_DEADMAN plus the time since the last good tick ago. With good ticks at most
      `gap` apart no jog outlives its arming by more than JOG_DEADMAN + gap. */
  lemma JogTimeBound(s: System, calls: seq<Call>, since: real, w: int, gap: real)
    requires AtRest(s) && CleanBus(calls) && Serial(calls)
    requires calls != [] ==> since <= calls[0].world.start
    requires Jogging(Run(s, calls).mem, w)
    requires EndOf(calls, since) - LastTick(s, calls, since) <= gap
    ensures EndOf(calls, since) - LastArmed(s, calls, since) <= 0.5 + gap
  {
    hide Step, Jogging, Run, LastTick, LastArmed, EndOf;
    RunTracks(s, calls);
    ExpiryOutlivesTick(s, calls, since);
  }

  // ---------------------------------------------------------- fault-free buttons

  predicate FaultFree(calls: seq<Call>) {
    forall i :: 0 <= i < |calls| ==> calls[i].world.first.Lands? && calls[i].world.second.Lands?
  }

  /** Every pushbutton word is 0 but the held one, which shows the held bit. */
  ghost predicate Released(jog: Option<Jog>, mem: Memory) {
    forall w :: IsButtonWord(w) ==>
      Word(mem, w) == 0 || (jog.Some? && jog.value.addr == w && jog.value.bit == Word(mem, w))
  }

  /** A pulse for every fate of its writes. */
  lemma PulseEffect(jog: Option<Jog>, mem: Memory, addr: int, value: int, w: World)
    requires addr >= WRITE_BASE && 0 <= value < 0x1_0000
    ensures var e := Pulse(jog, mem, addr, value, w);
            && Word(e.mid, addr) == (if Arrives(w.first) then value else Word(mem, addr))
            && Word(e.mem, addr) == (if w.first.Lands? && Arrives(w.second) then 0 else Word(e.mid, addr))
            && SameElsewhere(mem, e.mid, addr) && SameElsewhere(mem, e.mem, addr) && e.jog == jog
  {
  }

  lemma LandedWrite(mem: Memory, addr: int, value: int)
    requires addr >= WRITE_BASE && 0 <= value < 0x1_0000
    ensures var one := WriteWord(mem, addr, value, Lands);
            !one.raised && one.ok && Word(one.mem, addr) == value && SameElsewhere(mem, one.mem, addr)
  {
  }

  lemma JogReleases(jog: Option<Jog>, mem: Memory, op: Op, w: World)
    requires MovesJog(op) && Released(jog, mem) && JogOnList(jog) && w.first.Lands? && w.second.Lands?
    ensures var e := Payload(jog, mem, op, w); !e.raised && Released(e.jog, e.mem)
  {
    if jog.Some? {
      LandedWrite(mem, jog.value.addr, 0);
    }
    if !op.Deadman? && Resolve(op.block, op.button).Some? {
      ResolvedButtons(op.block, op.button);
      var (addr, bit) := Resolve(op.block, op.button).value;
      LandedWrite(mem, addr, 0);
      LandedWrite(mem, addr, bit);
      if jog.Some? {
        LandedWrite(WriteWord(mem, jog.value.addr, 0, Lands).mem, addr, bit);
      }
    }
    hide Resolve, HasJogBit, IsJogWord, IsButtonWord, Word, WriteWord, IsJogButton;
  }

  lemma PulseReleases(jog: Option<Jog>, mem: Memory, addr: int, value: int, w: World)
    requires Released(jog, mem) && w.first.Lands? && w.second.Lands?
    requires addr >= WRITE_BASE && 0 <= value < 0x1_0000
    ensures Released(jog, Pulse(jog, mem, addr, value, w).mem)
  {
    PulseEffect(jog, mem, addr, value, w);
    hide Pulse, Word, IsButtonWord;
  }

  lemma OtherWordReleases(jog: Option<Jog>, mem: Memory, addr: int, value: int, reply: Reply)
    requires Released(jog, mem) && IsAmrWord(addr)
    ensures Released(jog, WriteWord(mem, addr, value, reply).mem)
  {
    WriteTouchesOne(mem, addr, value, reply);
    hide Word, WriteWord;
  }

  lemma PlainReleases(jog: Option<Jog>, mem: Memory, op: Op, w: World)
    requires !MovesJog(op) && (op.AmrWrite? ==> IsAmrWord(op.addr))
    requires Released(jog, mem) && w.first.Lands? && w.second.Lands?
    ensures var e := Payload(jog, mem, op, w); e.jog == jog && Released(jog, e.mem)
  {
    PlainPayload(jog, mem, op, w);
    hide Released, Word, Resolve, MachineWord, RobotBit, WriteWord, Pulse, HasJogBit;
    match op
    case Press(block, button) =>
      if Resolve(block, button).Some? {
        ResolvedButtons(block, button);
        PulseReleases(jog, mem, Resolve(block, button).value.0, Resolve(block, button).value.1, w);
      }
    case Machine(command) =>
      if MachineWord(command).Some? {
        MachineBits(command);
        PulseReleases(jog, mem, MachineWord(command).value.0, MachineWord(command).value.1, w);
      }
    case RobotCommand(button) =>
      if RobotBit(button).Some? {
        RobotBits(button);
        PulseReleases(jog, mem, ROBOT_WORD, RobotBit(button).value, w);
      }
    case AmrWrite(addr, value, pulse) =>
      PulseReleases(jog, mem, addr, value % 0x1_0000, w);
      OtherWordReleases(jog, mem, addr, value % 0x1_0000, w.first);
    case Control(auger, planter, on) =>
      var value := if on then 1 else 0;
      OtherWordReleases(jog, mem, 5110, value, w.first);
      OtherWordReleases(jog, mem, 5111, value, w.first);
      OtherWordReleases(jog, WriteWord(mem, 5110, value, w.first).mem, 5111, value, w.second);
    case _ =>
  }

  lemma MachineBits(command: MachineCommand)
    requires MachineWord(command).Some?
    ensures var (addr, bit) := MachineWord(command).value; addr >= WRITE_BASE && 0 <= bit < 0x1_0000
  {
  }

  lemma RobotBits(button: Button)
    requires RobotBit(button).Some?
    ensures 0 <= RobotBit(button).value < 0x1_0000
  {
  }

  lemma StepReleases(s: System, call: Call)
    requires Released(s.client.jog, s.mem) && JogOnList(s.client.jog)
    requires call.world.first.Lands? && call.world.second.Lands?
    ensures Released(Step(s, call).client.jog, Step(s, call).mem)
  {
    hide Payload, Released;
    if Runs(s.client, call) {
      RanStep(s, call);
      if MovesJog(call.op) {
        JogReleases(s.client.jog, s.mem, call.op, call.world);
      } else {
        PlainReleases(s.client.jog, s.mem, call.op, call.world);
      }
    }
  }

  /** On a fault-free bus, between calls every pushbutton word is 0 except that the
      held jog's word shows exactly the held bit (unless a press on it cleared it). */
  lemma {:induction false} RunReleases(s: System, calls: seq<Call>)
    requires AtRest(s) && FaultFree(calls) && forall w :: IsButtonWord(w) ==> Word(s.mem, w) == 0
    ensures Released(Run(s, calls).client.jog, Run(s, calls).mem)
    decreases |calls|
  {
    hide Step, Word, IsButtonWord, Jogging;
    if calls != [] {
      var before := calls[..|calls| - 1];
      RunReleases(s, before);
      RunWritesAllowed(s, before);
      StepReleases(Run(s, before), calls[|calls| - 1]);
    }
  }

  /** A press as the PLC sees it: between its writes the word shows exactly the
      button's bit; afterwards it is 0 again, except that the bit stays up when the
      first write's reply was lost or the second write did not arrive. Nothing else in
      memory changes and the held jog stays on record. */
  lemma PressEffect(s: System, call: Call)
    requires call.op.Press? && Runs(s.client, call)
    requires Resolve(call.op.block, call.op.button).Some? && !IsJogButton(call.op.button)
    ensures var (addr, bit) := Resolve(call.op.block, call.op.button).value;
            var (before, mid, after) := (s.mem, Midway(s, call), Step(s, call).mem);
            var (first, second) := (call.world.first, call.world.second);
            && Word(mid, addr) == (if Arrives(first) then bit else Word(before, addr))
            && Word(after, addr) == (if first.Lands? && Arrives(second) then 0 else Word(mid, addr))
            && SameElsewhere(before, mid, addr) && SameElsewhere(before, after, addr)
            && Step(s, call).client.jog == s.client.jog
  {
    ResolvedButtons(call.op.block, call.op.button);
    RanStep(s, call);
    var (addr, bit) := Resolve(call.op.block, call.op.button).value;
    PulseEffect(s.client.jog, s.mem, addr, bit, call.world);
    hide Resolve, HasJogBit, IsJogButton, Step, Midway, Runs, Pulse, Word;
  }

  /** A handshake word as the PLC sees it: a plain write leaves the value truncated to
      16 bits, a momentary one shows it between its writes and leaves 0, so that a start
      request does not stay latched unless a reply was lost or the second write did not
      arrive. */
  lemma AmrWriteEffect(s: System, call: Call)
    requires call.op.AmrWrite? && Runs(s.client, call)
    ensures var (addr, value) := (call.op.addr, call.op.value % 0x1_0000);
            var (before, after, w) := (s.mem, Step(s, call).mem, call.world);
            var shown := if Arrives(w.first) then value else Word(before, addr);
            && Word(after, addr) == (if call.op.pulse && w.first.Lands? && Arrives(w.second) then 0 else shown)
            && (call.op.pulse && value != 0 ==> Word(Midway(s, call), addr) == shown)
            && SameElsewhere(before, after, addr) && Step(s, call).client.jog == s.client.jog
  {
    var (addr, value) := (call.op.addr, call.op.value % 0x1_0000);
    assert IsAmrWord(addr);
    RanStep(s, call);
    PulseEffect(s.client.jog, s.mem, addr, value, call.world);
    OneWrite(s.mem, addr, value, call.world.first);
    hide Step, Midway, Runs, Pulse, Word, WriteWord;
  }

  lemma OneWrite(mem: Memory, addr: int, value: int, reply: Reply)
    requires addr >= WRITE_BASE && 0 <= value < 0x1_0000
    ensures var after := WriteWord(mem, addr, value, reply).mem;
            Word(after, addr) == (if Arrives(reply) then value else Word(mem, addr)) && SameElsewhere(mem, after, addr)
  {
  }

  /** A refused release goes unnoticed: the press is complete, its bit stays up, and
      with no jog on record no deadman tick will ever clear it. */
  lemma {:induction false} RefusedReleaseStays(ticks: seq<Call>)
    requires forall i :: 0 <= i < |ticks| ==> ticks[i].op.Deadman?
    ensures var press := Call(Press(AugerSlide, StartHoming), At(0.0, Lands, Refused));
            Completes(QUIET, press) && Word(Run(Step(QUIET, press), ticks).mem, 5400) == 256
            && Run(Step(QUIET, press), ticks).client.jog.None?
    decreases |ticks|
  {
    if ticks != [] {
      RefusedReleaseStays(ticks[..|ticks| - 1]);
    }
  }

  // ------------------------------------------------------------- negative cache

  /** Does this call, from this state, try to open the connection? */
  predicate Dials(s: System, call: Call) {
    !Immediate(s.client, call.op) && !call.op.Close? && Attempts(s.client, call.world)
  }

  predicate DialFails(s: System, call: Call) { Dials(s, call) && !call.world.connects }

  /** When the last connect attempt ended, if it failed. */
  function Failure(s: System, call: Call, failed: Option<real>): Option<real> {
    if !Dials(s, call) then failed else if call.world.connects then None else Some(call.world.connected)
  }

  /** A live socket has no retry pending; after a failed attempt there is no socket and
      the next retry is exactly a cooldown after its end. */
  predicate CacheHolds(c: Client, failed: Option<real>) {
    && (c.live ==> c.nextRetry == 0.0 && failed.None?)
    && (failed.Some? ==> c.nextRetry == failed.value + CONNECT_COOLDOWN)
  }

  /** One call keeps the cache exactly when it is not a close after a failed attempt. */
  lemma StepCache(s: System, call: Call, failed: Option<real>)
    requires CacheHolds(s.client, failed) && (failed.Some? ==> failed.value + CONNECT_COOLDOWN != 0.0)
    ensures CacheHolds(Step(s, call).client, Failure(s, call, failed)) <==> !(call.op.Close? && failed.Some?)
  {
    hide Payload;
  }

  /** From a failed attempt that ended at `end` on: still dead with that retry time, or
      the cooldown is over by the clock of the last call. */
  predicate Waiting(s: System, calls: seq<Call>, end: real) {
    || (!s.client.live && s.client.nextRetry == end + CONNECT_COOLDOWN)
    || (calls != [] && calls[|calls| - 1].world.body >= end + CONNECT_COOLDOWN)
  }

  lemma StepWaits(s: System, calls: seq<Call>, call: Call, end: real)
    requires Waiting(s, calls, end) && InOrder(call.world) && !call.op.Close?
    requires calls != [] ==> calls[|calls| - 1].world.body <= call.world.start
    ensures Waiting(Step(s, call), calls + [call], end)
    ensures Dials(s, call) ==> call.world.start >= end + CONNECT_COOLDOWN
  {
    hide Payload;
  }

  lemma {:induction false} CoolsDown(s: System, calls: seq<Call>, i: nat, j: nat)
    requires Serial(calls) && i < j <= |calls| && DialFails(Run(s, calls[..i]), calls[i])
    requires forall m :: i < m < j ==> !calls[m].op.Close?
    ensures Waiting(Run(s, calls[..j]), calls[..j], calls[i].world.connected)
    decreases j
  {
    var before, call := calls[..j - 1], calls[j - 1];
    assert calls[..j] == before + [call] && (before + [call])[..j - 1] == before;
    if j == i + 1 {
      hide Payload;
    } else {
      CoolsDown(s, calls, i, j - 1);
      hide Step, Waiting, DialFails;
      assert InOrder(calls[j - 1].world) && calls[j - 2].world.body <= calls[j - 1].world.start;
      StepWaits(Run(s, before), before, call, calls[i].world.connected);
    }
  }

  /** Negative cache: over any run, an attempt after a failed one starts at least a
      cooldown after its end, unless the client was closed in between. */
  lemma NegativeCache(s: System, calls: seq<Call>, i: nat, j: nat)
    requires Serial(calls) && i < j < |calls|
    requires DialFails(Run(s, calls[..i]), calls[i]) && Dials(Run(s, calls[..j]), calls[j])
    ensures || calls[j].world.start >= calls[i].world.connected + 3.0
            || exists m :: i < m < j && calls[m].op.Close?
  {
    if forall m :: i < m < j ==> !calls[m].op.Close? {
      CoolsDown(s, calls, i, j);
      hide Run, Waiting, Dials, DialFails;
      assert InOrder(calls[j].world) && calls[j - 1].world.body <= calls[j].world.start;
      assert !calls[j].op.Close? by { DialIsNoClose(Run(s, calls[..j]), calls[j]); }
      StepWaits(Run(s, calls[..j]), calls[..j], calls[j], calls[i].world.connected);
    }
  }

  lemma DialIsNoClose(s: System, call: Call)
    requires Dials(s, call)
    ensures !call.op.Close?
  {
  }

  /** The client is closed between two failed attempts less than a cooldown apart. */
  lemma CloseForgetsFailure()
    ensures var s := System(Client(false, false, 0.0, None), map[]);
            var w := World(10.0, 12.0, 12.0, true, false, Lands, Lands, true, true);
            var v := w.(start := 12.5, connected := 14.5, body := 14.5);
            var calls := [Call(ReadOnly, w), Call(Close, w.(start := 12.0)), Call(ReadOnly, v)];
            && Serial(calls) && DialFails(Run(s, calls[..0]), calls[0]) && DialFails(Run(s, calls[..2]), calls[2])
            && calls[2].world.start < calls[0].world.connected + 3.0
  {
    var s := System(Client(false, false, 0.0, None), map[]);
    var w := World(10.0, 12.0, 12.0, true, false, Lands, Lands, true, true);
    var v := w.(start := 12.5, connected := 14.5, body := 14.5);
    var calls := [Call(ReadOnly, w), Call(Close, w.(start := 12.0)), Call(ReadOnly, v)];
    assert calls[..0] == [] && calls[..2][..1] == [calls[0]] && calls[..2][..1][..0] == [];
    assert Run(s, calls[..2][..1]).client.nextRetry == 15.0;
    assert Run(s, calls[..2]).client.nextRetry == 0.0;
  }

  /** Over any run, closes included, a live client has no retry pending. */
  lemma {:induction false} LiveHasNoRetry(s: System, calls: seq<Call>)
    requires s.client.live ==> s.client.nextRetry == 0.0
    ensures Run(s, calls).client.live ==> Run(s, calls).client.nextRetry == 0.0
    decreases |calls|
  {
    hide Payload;
    if calls != [] {
      LiveHasNoRetry(s, calls[..|calls| - 1]);
    }
  }

  /** No payload without a live client: as long as the PLC cannot be dialled, no call of
      any kind writes a word or touches the held jog. */
  lemma {:induction false} DeadPlcUntouched(s: System, calls: seq<Call>)
    requires !s.client.live
    requires forall i :: 0 <= i < |calls| ==> !(calls[i].world.importable && calls[i].world.connects)
    ensures var now := Run(s, calls); now.mem == s.mem && now.client.jog == s.client.jog && !now.client.live
    decreases |calls|
  {
    hide Payload;
    if calls != [] {
      DeadPlcUntouched(s, calls[..|calls| - 1]);
    }
  }
}
