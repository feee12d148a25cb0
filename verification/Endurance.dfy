/** The endurance test: BatteryTest's shared state, its worker's cycle, and any
    number of starts and stops around it (dashboard/serve_battery.py). */
module Endurance {
  import opened Wrappers
  import H = PlantHandshake
  import P = Plc
  import V = Velocity

  datatype Direction = Forward | Backward
  type Implement = H.Implement
  datatype Phase = Idle | Driving(direction: Direction) | Planting(implement: Implement)

  // ------------------------------------------------------------ the locked state

  datatype Shared = Shared(running: bool, cancel: bool, phase: Phase,
                           forward: nat, backward: nat, cycles: nat,
                           augers: nat, planters: nat, plantTimeouts: nat)

  function Begun(s: Shared): Shared { Shared(true, false, Driving(Forward), 0, 0, 0, 0, 0, 0) }

  function Stopped(s: Shared): Shared { s.(cancel := true, running := false, phase := Idle) }

  function Finished(s: Shared): Shared { s.(running := false, phase := Idle) }

  /** A completed leg; the backward one closes a cycle. */
  function LegDone(s: Shared, d: Direction): Shared {
    match d
    case Forward => s.(forward := s.forward + 1)
    case Backward => s.(backward := s.backward + 1, cycles := s.cycles + 1)
  }

  function PlantEnded(s: Shared, w: Implement, o: H.Outcome): Shared {
    match o
    case Done => (match w case Auger => s.(augers := s.augers + 1) case Planter => s.(planters := s.planters + 1))
    case TimedOut => s.(plantTimeouts := s.plantTimeouts + 1)
    case _ => s
  }

  /** What a run is started with. */
  datatype Settings = Settings(speed: real, stopV: real, plantTimeout: real)

  /** The PLC side after both start words have been released, auger first. */
  function Released(s: P.System, auger: P.World, planter: P.World): P.System {
    P.Step(P.Step(s, P.Call(P.Control(true, false, false), auger)), P.Call(P.Control(false, true, false), planter))
  }

  class BatteryTest {
    var settings: Settings
    var running: bool
    var cancel: bool
    var phase: Phase
    var forward: nat
    var backward: nat
    var cycles: nat
    var augers: nat
    var planters: nat
    var plantTimeouts: nat

    function State(): Shared
      reads this
    {
      Shared(running, cancel, phase, forward, backward, cycles, augers, planters, plantTimeouts)
    }

    constructor ()
      ensures State() == Shared(false, false, Idle, 0, 0, 0, 0, 0, 0) && settings == Settings(0.0, 0.0, 60.0)
    {
      settings := Settings(0.0, 0.0, 60.0);
      running, cancel, phase := false, false, Idle;
      forward, backward, cycles, augers, planters, plantTimeouts := 0, 0, 0, 0, 0, 0;
    }

    /** The first locked region of start(): whether to go on to the join. */
    method MayStart() returns (free: bool)
      ensures free == !State().running
    {
      free := !running;
    }

    /** The second locked region of start(): the join has completed. */
    method Begin(chosen: Settings) returns (started: bool)
      modifies this
      ensures started == !old(running)
      ensures State() == if started then Begun(old(State())) else old(State())
      ensures settings == if started then chosen else old(settings)
    {
      if running {
        return false;
      }
      running, cancel, phase := true, false, Driving(Forward);
      forward, backward, cycles, augers, planters, plantTimeouts := 0, 0, 0, 0, 0, 0;
      settings := chosen;
      started := true;
    }

    /** Release both start words; without a PLC there is nothing to release. */
    method ClearPlc(plc: P.PlcClient?, auger: P.World, planter: P.World)
      modifies if plc == null then {} else {plc, plc.plc}
      ensures plc != null ==> plc.State() == Released(old(plc.State()), auger, planter)
    {
      if plc != null {
        var one := plc.ControlWords(true, false, false, auger);
        var two := plc.ControlWords(false, true, false, planter);
      }
    }

    method Stop(vel: V.VelocityState, now: real, plc: P.PlcClient?, auger: P.World, planter: P.World)
      modifies this, vel, if plc == null then {} else {plc, plc.plc}
      ensures State() == Stopped(old(State())) && settings == old(settings)
      ensures vel.State() == V.Commanded(old(vel.State()), 0.0, 0.0, now)
      ensures plc != null ==> plc.State() == Released(old(plc.State()), auger, planter)
    {
      hide Released, P.Step;
      cancel, running, phase := true, false, Idle;
      vel.SetCommand(0.0, 0.0, now);
      ClearPlc(plc, auger, planter);
    }

    method EnterPhase(phase: Phase)
      modifies this`phase
      ensures State() == old(State()).(phase := phase)
    {
      this.phase := phase;
    }

    method CountLeg(d: Direction)
      modifies this
      ensures State() == LegDone(old(State()), d)
    {
      if d == Forward {
        forward := forward + 1;
      } else {
        backward := backward + 1;
        cycles := cycles + 1;
      }
    }

    method CountPlant(w: Implement, o: H.Outcome)
      modifies this
      ensures State() == PlantEnded(old(State()), w, o)
    {
      if o == H.Done {
        if w == H.Auger {
          augers := augers + 1;
        } else {
          planters := planters + 1;
        }
      } else if o == H.TimedOut {
        plantTimeouts := plantTimeouts + 1;
      }
    }

    /** The cleanup every run ends with, whatever ended it. */
    method Finish(vel: V.VelocityState, now: real, plc: P.PlcClient?, auger: P.World, planter: P.World)
      modifies this, vel, if plc == null then {} else {plc, plc.plc}
      ensures State() == Finished(old(State())) && settings == old(settings)
      ensures vel.State() == V.Commanded(old(vel.State()), 0.0, 0.0, now)
      ensures plc != null ==> plc.State() == Released(old(plc.State()), auger, planter)
    {
      hide Released, P.Step;
      vel.SetCommand(0.0, 0.0, now);
      ClearPlc(plc, auger, planter);
      running, phase := false, Idle;
    }
  }

  lemma ReleaseOne(s: P.System, auger: bool, w: P.World)
    ensures var call := P.Call(P.Control(auger, !auger, false), w);
            var addr := if auger then 5110 else 5111;
            var after := P.Step(s, call);
            && P.Word(after.mem, addr) ==
               (if P.Runs(s.client, call) && (w.first.Lands? || w.first.Lost?) then 0 else P.Word(s.mem, addr))
            && (forall a :: a != addr ==> P.Word(after.mem, a) == P.Word(s.mem, a))
            && after.client.jog == s.client.jog
  {
  }

  /** Stop and cleanup release each start word exactly when the client is reached and
      its own write arrives, whatever becomes of the other; nothing else changes. */
  lemma ReleasedWords(s: P.System, auger: P.World, planter: P.World)
    ensures var one := P.Call(P.Control(true, false, false), auger);
            var two := P.Call(P.Control(false, true, false), planter);
            var (mid, after) := (P.Step(s, one), Released(s, auger, planter));
            && P.Word(after.mem, 5110) ==
               (if P.Runs(s.client, one) && (auger.first.Lands? || auger.first.Lost?) then 0 else P.Word(s.mem, 5110))
            && P.Word(after.mem, 5111) ==
               (if P.Runs(mid.client, two) && (planter.first.Lands? || planter.first.Lost?)
                then 0 else P.Word(s.mem, 5111))
            && (forall a :: a !in {5110, 5111} ==> P.Word(after.mem, a) == P.Word(s.mem, a))
            && after.client.jog == s.client.jog
  {
    ReleaseOne(s, true, auger);
    ReleaseOne(P.Step(s, P.Call(P.Control(true, false, false), auger)), false, planter);
    hide P.Step, P.Word, P.Runs;
  }

  // ------------------------------------------------------------------ the worker

  datatype Activity = Leg(direction: Direction) | Plant(implement: Implement)

  /** A start pulse, with what the worker had last told the motion side and the PLC
      when it was issued. */
  datatype Pulse = Pulse(implement: Implement, moving: bool, amrState: int)

  datatype DriveResult = Covered | Short | Aborted

  /** Where the worker is. Every step reads or writes the shared state at most once. */
  datatype Pc =
    | Top
    | LegIn(d: Direction)                      // set the phase
    | LegAmr(d: Direction)                     // AMR state word := Moving
    | DriveOn(d: Direction)                    // encoders fresh? then motion starts
    | DriveOff(d: Direction)                   // drive_distance ends with a stop
    | LegCheck(d: Direction, failed: bool, covered: bool)
    | LegCount(d: Direction, covered: bool)
    | LegGate(d: Direction)
    | Park(d: Direction)                       // AMR state word := Stationary
    | PlantGate(d: Direction, w: Implement)
    | PlantIn(d: Direction, w: Implement)      // set the phase
    | PlantPulse(d: Direction, w: Implement)
    | PlantWait(d: Direction, w: Implement)
    | PlantCount(d: Direction, w: Implement, o: H.Outcome)
    | PlantEnd(d: Direction)
    | Resume                                   // between the two halves of a cycle
    | FinStop | FinClear | FinIdle | Dead

  /** How an activity ended, as its drive or its handshake answered. */
  datatype End =
    | LegOver(direction: Direction, result: DriveResult)
    | PlantOver(implement: Implement, outcome: H.Outcome)

  /** `moving`: the worker's last velocity write was not (0,0). `amrState`: the last
      %MW5112 value that landed (0 before any). `drive` and `plant`: the last answers of
      a drive (None if the encoders were stale) and of a handshake. `ended`: the
      activities that came to their count, with those answers. `unfinished`: plant steps
      that ended cancelled or skipped. */
  datatype Worker = Worker(pc: Pc, moving: bool, amrState: int, log: seq<Activity>, pulses: seq<Pulse>,
                           drive: Option<DriveResult>, plant: Option<H.Outcome>, ended: seq<End>, unfinished: nat)

  const HIRED: Worker := Worker(Top, false, 0, [], [], None, None, [], 0)

  /** The outside world during one step. */
  datatype Answer = Answer(empty: bool, stale: bool, drive: DriveResult, plc: bool, landed: bool,
                           pulseConnected: bool, plant: H.Outcome)

  /** Where a step leads, given the cancel flag it may read. */
  function NextPc(pc: Pc, cancel: bool, a: Answer): Pc {
    match pc
    case Top => if cancel || a.empty then FinStop else LegIn(Forward)
    case LegIn(d) => LegAmr(d)
    case LegAmr(d) => DriveOn(d)
    case DriveOn(d) => if a.stale then LegCheck(d, true, false) else DriveOff(d)
    case DriveOff(d) => LegCheck(d, a.drive.Aborted?, a.drive.Covered?)
    case LegCheck(d, failed, covered) => if cancel || failed then FinStop else LegCount(d, covered)
    case LegCount(d, _) => LegGate(d)
    case LegGate(d) => if cancel || a.empty then FinStop else Park(d)
    case Park(d) => PlantGate(d, H.Auger)
    case PlantGate(d, i) => if cancel || a.empty then FinStop else PlantIn(d, i)
    case PlantIn(d, i) => PlantPulse(d, i)
    case PlantPulse(d, i) => if a.plc && a.pulseConnected then PlantWait(d, i) else PlantCount(d, i, H.Skipped)
    case PlantWait(d, i) => PlantCount(d, i, a.plant)
    case PlantCount(d, i, o) =>
      if o.CancelledOut? then FinStop else if i == H.Auger then PlantGate(d, H.Planter) else PlantEnd(d)
    case PlantEnd(d) => if cancel then FinStop else if d == Forward then Resume else Top
    case Resume => if cancel || a.empty then FinStop else LegIn(Backward)
    case FinStop => FinClear
    case FinClear => FinIdle
    case FinIdle => Dead
    case Dead => Dead
  }

  /** What a step at `pc` does to the shared state. */
  function Touch(s: Shared, pc: Pc): Shared {
    match pc
    case LegIn(d) => s.(phase := Driving(d))
    case LegCount(d, covered) => if covered then LegDone(s, d) else s
    case PlantIn(_, i) => s.(phase := Planting(i))
    case PlantCount(_, i, o) => PlantEnded(s, i, o)
    case FinIdle => Finished(s)
    case _ => s
  }

  /** The activity a step at `pc` logs. */
  function Logs(pc: Pc): Option<Activity> {
    match pc
    case LegIn(d) => Some(Leg(d))
    case PlantIn(_, i) => Some(Plant(i))
    case _ => None
  }

  function AmrWritten(was: int, value: int, a: Answer): int { if a.plc && a.landed then value else was }

  /** What a step does to the worker's own record. */
  function Record(w: Worker, a: Answer): Worker {
    match w.pc
    case LegAmr(_) => w.(amrState := AmrWritten(w.amrState, 2, a))
    case DriveOn(_) => w.(moving := w.moving || !a.stale, drive := None)
    case DriveOff(_) => w.(moving := false, drive := Some(a.drive))
    case LegCount(d, _) => if w.drive.Some? then w.(ended := w.ended + [LegOver(d, w.drive.value)]) else w
    case Park(_) => w.(amrState := AmrWritten(w.amrState, 1, a))
    case PlantPulse(_, i) =>
      var p := w.(plant := if a.plc && a.pulseConnected then None else Some(H.Skipped));
      if a.plc then p.(pulses := p.pulses + [Pulse(i, w.moving, w.amrState)]) else p
    case PlantWait(_, _) => w.(plant := Some(a.plant))
    case PlantCount(_, i, o) =>
      var p := if w.plant.Some? then w.(ended := w.ended + [PlantOver(i, w.plant.value)]) else w;
      if o.CancelledOut? || o.Skipped? then p.(unfinished := p.unfinished + 1) else p
    case FinStop => w.(moving := false)
    case _ => if Logs(w.pc).Some? then w.(log := w.log + [Logs(w.pc).value]) else w
  }

  function Step(s: Shared, w: Worker, a: Answer): (Shared, Worker) {
    (Touch(s, w.pc), Record(w, a).(pc := NextPc(w.pc, s.cancel, a)))
  }

  // -------------------------------------------------------------- the whole cycle

  /** Forward, auger, planter, backward, auger, planter, and again. */
  function Expected(i: nat): Activity { InRound(i % 6) }

  function InRound(position: nat): Activity {
    match position
    case 0 => Leg(Forward)
    case 3 => Leg(Backward)
    case 1 => Plant(H.Auger)
    case 4 => Plant(H.Auger)
    case _ => Plant(H.Planter)
  }

  predicate OnCycle(log: seq<Activity>) {
    forall i :: 0 <= i < |log| ==> log[i] == Expected(i)
  }

  /** How many activities of the current round are behind a worker at `pc`. */
  function Behind(pc: Pc): Option<nat> {
    match pc
    case Top => Some(0)
    case LegIn(d) => Some(Half(d))
    case LegAmr(d) => Some(Half(d) + 1)
    case DriveOn(d) => Some(Half(d) + 1)
    case DriveOff(d) => Some(Half(d) + 1)
    case LegCheck(d, _, _) => Some(Half(d) + 1)
    case LegCount(d, _) => Some(Half(d) + 1)
    case LegGate(d) => Some(Half(d) + 1)
    case Park(d) => Some(Half(d) + 1)
    case PlantGate(d, i) => Some(Half(d) + 1 + Turn(i))
    case PlantIn(d, i) => Some(Half(d) + 1 + Turn(i))
    case PlantPulse(d, i) => Some(Advance(Half(d) + 1 + Turn(i)))
    case PlantWait(d, i) => Some(Advance(Half(d) + 1 + Turn(i)))
    case PlantCount(d, i, _) => Some(Advance(Half(d) + 1 + Turn(i)))
    case PlantEnd(d) => Some(Advance(Half(d) + 2))
    case Resume => Some(3)
    case _ => None
  }

  function Advance(position: nat): nat { if position == 5 then 0 else position + 1 }

  function Half(d: Direction): nat { if d == Forward then 0 else 3 }

  function Turn(i: Implement): nat { if i == H.Auger then 0 else 1 }

  predicate InPlant(pc: Pc) { pc.PlantPulse? || pc.PlantWait? || pc.PlantCount? }

  /** From the park to the end of the plant steps. */
  predicate Parked(pc: Pc) { pc.PlantGate? || pc.PlantIn? || InPlant(pc) || pc.PlantEnd? }

  function PlantSteps(log: seq<Activity>): nat {
    if log == [] then 0 else PlantSteps(log[..|log| - 1]) + if log[|log| - 1].Plant? then 1 else 0
  }

  function Legs(log: seq<Activity>, d: Direction): nat {
    if log == [] then 0 else Legs(log[..|log| - 1], d) + if log[|log| - 1] == Leg(d) then 1 else 0
  }

  /** The worker's own history: activities on the cycle, position agreeing with the
      log, nothing moving from the park on, and every pulse issued at standstill. */
  predicate OnTrack(w: Worker) {
    && OnCycle(w.log)
    && (Behind(w.pc).Some? ==> |w.log| % 6 == Behind(w.pc).value)
    && (w.moving ==> w.pc.DriveOff?)
    && forall i :: 0 <= i < |w.pulses| ==> !w.pulses[i].moving
  }

  lemma LogGrows(log: seq<Activity>, x: Activity)
    requires OnCycle(log) && x == Expected(|log|)
    ensures OnCycle(log + [x])
  {
  }

  /** A step keeps its position in the round, or logs the activity that belongs there
      and advances it. */
  lemma PcPosition(pc: Pc, cancel: bool, a: Answer)
    requires Behind(NextPc(pc, cancel, a)).Some?
    ensures Behind(pc).Some?
    ensures var (was, now) := (Behind(pc).value, Behind(NextPc(pc, cancel, a)).value);
            if Logs(pc).Some? then now == Advance(was) && Logs(pc).value == InRound(was) else now == was
  {
  }

  lemma NextPosition(n: nat)
    ensures (n + 1) % 6 == Advance(n % 6)
  {
  }

  lemma StepStill(s: Shared, w: Worker, a: Answer)
    requires w.moving ==> w.pc.DriveOff?
    ensures var v := Step(s, w, a).1;
            && (v.moving ==> v.pc.DriveOff?)
            && (v.pulses == w.pulses || (|v.pulses| == |w.pulses| + 1
                 && v.pulses[..|w.pulses|] == w.pulses && !v.pulses[|w.pulses|].moving))
  {
  }

  lemma StepOnTrack(s: Shared, w: Worker, a: Answer)
    requires OnTrack(w)
    ensures OnTrack(Step(s, w, a).1)
  {
    var pc := NextPc(w.pc, s.cancel, a);
    assert Logs(w.pc).Some? ==> Behind(pc).Some?;
    if Behind(pc).Some? {
      PcPosition(w.pc, s.cancel, a);
    }
    StepStill(s, w, a);
    NextPosition(|w.log|);
    StepLogs(s, w, a);
    assert Step(s, w, a).1.pc == pc;
    hide NextPc, Behind, InRound, Step, Logs;
    if Logs(w.pc).Some? {
      LogGrows(w.log, Logs(w.pc).value);
    }
  }

  /** With the PLC there and its writes landing, every pulse so far was issued with the
      AMR state word at Stationary, and from the park on it stays so. */
  predicate AmrInStep(w: Worker) {
    && (Parked(w.pc) && !w.pc.PlantEnd? ==> w.amrState == 1)
    && (w.pc.DriveOn? || w.pc.DriveOff? ==> w.amrState == 2)
    && forall i :: 0 <= i < |w.pulses| ==> w.pulses[i].amrState == 1
  }

  lemma StepAmr(s: Shared, w: Worker, a: Answer)
    requires AmrInStep(w) && a.plc && a.landed
    ensures AmrInStep(Step(s, w, a).1)
  {
    AmrPlaces(w.pc, s.cancel, a);
    AmrRecord(w, a);
    assert Step(s, w, a).1 == Record(w, a).(pc := NextPc(w.pc, s.cancel, a));
    hide NextPc, Record, Step;
  }

  lemma AmrPlaces(pc: Pc, cancel: bool, a: Answer)
    ensures var next := NextPc(pc, cancel, a);
            && (Parked(next) && !next.PlantEnd? ==> pc.Park? || (Parked(pc) && !pc.PlantEnd?))
            && (next.DriveOn? || next.DriveOff? ==> pc.LegAmr? || pc.DriveOn?)
  {
  }

  lemma AmrRecord(w: Worker, a: Answer)
    requires a.plc && a.landed
    ensures var v := Record(w, a);
            && v.amrState == (if w.pc.LegAmr? then 2 else if w.pc.Park? then 1 else w.amrState)
            && v.pulses == if w.pc.PlantPulse? then w.pulses + [Pulse(w.pc.w, w.moving, w.amrState)] else w.pulses
  {
  }

  /** The counters against the worker's log: every plant step that ended is counted
      once, a cycle per backward leg, and no leg counted that was not driven. */
  predicate Accounted(s: Shared, w: Worker) {
    && s.cycles == s.backward
    && PlantSteps(w.log) == Ended(s, w) + (if InPlant(w.pc) then 1 else 0)
    && Driven(s, Forward) + (if InLeg(w.pc, Forward) then 1 else 0) <= Legs(w.log, Forward)
    && Driven(s, Backward) + (if InLeg(w.pc, Backward) then 1 else 0) <= Legs(w.log, Backward)
  }

  /** Completed legs in one direction. */
  function Driven(s: Shared, d: Direction): nat { if d == Forward then s.forward else s.backward }

  /** On a leg that has been logged and not yet been counted. */
  predicate InLeg(pc: Pc, d: Direction) {
    match pc
    case LegAmr(e) => e == d
    case DriveOn(e) => e == d
    case DriveOff(e) => e == d
    case LegCheck(e, _, _) => e == d
    case LegCount(e, _) => e == d
    case _ => false
  }

  lemma CountsGrow(log: seq<Activity>, x: Activity)
    ensures PlantSteps(log + [x]) == PlantSteps(log) + if x.Plant? then 1 else 0
    ensures Legs(log + [x], Forward) == Legs(log, Forward) + if x == Leg(Forward) then 1 else 0
    ensures Legs(log + [x], Backward) == Legs(log, Backward) + if x == Leg(Backward) then 1 else 0
  {
    assert (log + [x])[..|log|] == log;
  }

  /** Plant steps that have ended, by how they ended. */
  function Ended(s: Shared, w: Worker): nat { s.augers + s.planters + s.plantTimeouts + w.unfinished }

  lemma PlantPlaces(pc: Pc, cancel: bool, a: Answer)
    ensures InPlant(NextPc(pc, cancel, a)) <==> pc.PlantIn? || (InPlant(pc) && !pc.PlantCount?)
    ensures (pc.PlantCount? ==> InPlant(pc)) && (pc.PlantIn? ==> !InPlant(pc))
  {
  }

  lemma LegPlaces(pc: Pc, cancel: bool, a: Answer, d: Direction)
    ensures InLeg(NextPc(pc, cancel, a), d) ==> pc == LegIn(d) || (InLeg(pc, d) && !pc.LegCount?)
    ensures (pc.LegCount? && pc.d == d ==> InLeg(pc, d)) && (pc.LegIn? ==> !InLeg(pc, d))
  {
  }

  lemma StepEnds(s: Shared, w: Worker, a: Answer)
    ensures var (t, v) := Step(s, w, a);
            && Ended(t, v) == Ended(s, w) + (if w.pc.PlantCount? then 1 else 0)
            && (s.cycles == s.backward ==> t.cycles == t.backward)
  {
    hide NextPc;
  }

  lemma StepLegs(s: Shared, w: Worker, a: Answer)
    ensures var t := Step(s, w, a).0;
            && t.forward <= s.forward + (if w.pc.LegCount? && w.pc.d == Forward then 1 else 0)
            && t.backward <= s.backward + (if w.pc.LegCount? && w.pc.d == Backward then 1 else 0)
  {
    hide NextPc;
  }

  lemma StepLogs(s: Shared, w: Worker, a: Answer)
    ensures Step(s, w, a).1.log == if Logs(w.pc).Some? then w.log + [Logs(w.pc).value] else w.log
  {
    hide NextPc;
  }

  lemma StepPlants(s: Shared, w: Worker, a: Answer)
    requires PlantSteps(w.log) == Ended(s, w) + (if InPlant(w.pc) then 1 else 0)
    ensures var (t, v) := Step(s, w, a); PlantSteps(v.log) == Ended(t, v) + (if InPlant(v.pc) then 1 else 0)
  {
    PlantPlaces(w.pc, s.cancel, a);
    StepEnds(s, w, a);
    StepLogs(s, w, a);
    if Logs(w.pc).Some? {
      CountsGrow(w.log, Logs(w.pc).value);
    }
    assert Step(s, w, a).1.pc == NextPc(w.pc, s.cancel, a);
    hide PlantSteps, Legs, NextPc, Step, InPlant, Ended;
  }

  lemma StepDrives(s: Shared, w: Worker, a: Answer, d: Direction)
    requires Driven(s, d) + (if InLeg(w.pc, d) then 1 else 0) <= Legs(w.log, d)
    ensures var (t, v) := Step(s, w, a); Driven(t, d) + (if InLeg(v.pc, d) then 1 else 0) <= Legs(v.log, d)
  {
    LegPlaces(w.pc, s.cancel, a, d);
    StepLegs(s, w, a);
    StepLogs(s, w, a);
    if Logs(w.pc).Some? {
      CountsGrow(w.log, Logs(w.pc).value);
    }
    assert Step(s, w, a).1.pc == NextPc(w.pc, s.cancel, a);
    hide PlantSteps, Legs, NextPc, Step, InLeg;
  }

  lemma StepAccounted(s: Shared, w: Worker, a: Answer)
    requires Accounted(s, w)
    ensures Accounted(Step(s, w, a).0, Step(s, w, a).1)
  {
    hide PlantSteps, Legs, Step, InLeg, InPlant, Ended;
    StepEnds(s, w, a);
    StepPlants(s, w, a);
    StepDrives(s, w, a, Forward);
    StepDrives(s, w, a, Backward);
  }

  // --------------------------------------------------------- starts, stops, workers

  /** start() between its two locked regions waits for the thread it found. */
  datatype Starter = Free | Joining(prev: Option<nat>)

  /** `workers` are all threads ever started, `thread` the one on record. */
  datatype System = System(shared: Shared, workers: seq<Worker>, thread: Option<nat>, starter: Starter)

  datatype Event = StartCheck | StartCommit | StopNow | Work(k: nat, answer: Answer)

  predicate Enabled(y: System, e: Event) {
    match e
    case StartCheck => y.starter.Free?
    case StartCommit => y.starter.Joining? && (y.starter.prev.Some? ==>
      y.starter.prev.value < |y.workers| && y.workers[y.starter.prev.value].pc.Dead?)
    case StopNow => true
    case Work(k, _) => k < |y.workers| && !y.workers[k].pc.Dead?
  }

  /** An event that is not enabled does nothing. */
  function Next(y: System, e: Event): System {
    if !Enabled(y, e) then y else
    match e
    case StartCheck => if y.shared.running then y else y.(starter := Joining(y.thread))
    case StartCommit =>
      if y.shared.running then y.(starter := Free)
      else System(Begun(y.shared), y.workers + [HIRED], Some(|y.workers|), Free)
    case StopNow => y.(shared := Stopped(y.shared))
    case Work(k, a) =>
      var (s, w) := Step(y.shared, y.workers[k], a);
      y.(shared := s, workers := y.workers[k := w])
  }

  const UNUSED: System := System(Shared(false, false, Idle, 0, 0, 0, 0, 0, 0), [], None, Free)

  function Exec(events: seq<Event>): System {
    if events == [] then UNUSED else Next(Exec(events[..|events| - 1]), events[|events| - 1])
  }

  /** At most one worker is alive, and it is the one on record; a run in progress has
      it; a start waiting in its join waits for it and nothing is running. */
  predicate OneWorker(y: System) {
    && (forall k :: 0 <= k < |y.workers| && !y.workers[k].pc.Dead? ==> y.thread == Some(k))
    && (y.thread.Some? ==> y.thread.value < |y.workers|)
    && (y.workers != [] ==> y.thread == Some(|y.workers| - 1))
    && (y.shared.running ==> y.thread.Some? && !y.workers[y.thread.value].pc.Dead?)
    && (y.starter.Joining? ==> y.starter.prev == y.thread && !y.shared.running)
  }

  predicate Sound(y: System) {
    && OneWorker(y)
    && (forall k :: 0 <= k < |y.workers| ==> OnTrack(y.workers[k]))
    && y.shared.cycles == y.shared.backward
    && (y.thread.Some? ==> Accounted(y.shared, y.workers[y.thread.value]))
  }

  lemma StepRunning(s: Shared, w: Worker, a: Answer)
    ensures var (t, v) := Step(s, w, a);
            (t.running ==> s.running) && (t.running && !w.pc.Dead? ==> !v.pc.Dead?)
  {
  }

  lemma WorkSound(y: System, k: nat, a: Answer)
    requires Sound(y) && Enabled(y, Work(k, a))
    ensures Sound(Next(y, Work(k, a)))
  {
    StepOnTrack(y.shared, y.workers[k], a);
    StepAccounted(y.shared, y.workers[k], a);
    StepRunning(y.shared, y.workers[k], a);
    assert y.thread == Some(k);
    assert Accounted(y.shared, y.workers[k]) ==> y.shared.cycles == y.shared.backward;
    assert Step(y.shared, y.workers[k], a).0.cycles == Step(y.shared, y.workers[k], a).0.backward;
    hide Step, OnTrack, Accounted;
  }

  lemma CommitSound(y: System)
    requires Sound(y) && Enabled(y, StartCommit)
    ensures Sound(Next(y, StartCommit))
    ensures !y.shared.running
  {
    assert Accounted(Begun(y.shared), HIRED) && OnTrack(HIRED);
    hide OnTrack, Accounted;
  }

  lemma StopSound(y: System)
    requires Sound(y)
    ensures Sound(Next(y, StopNow))
  {
    if y.thread.Some? {
      assert Accounted(Stopped(y.shared), y.workers[y.thread.value]) by {
        hide PlantSteps, Legs;
      }
    }
    hide OnTrack, Accounted;
  }

  lemma NextSound(y: System, e: Event)
    requires Sound(y)
    ensures Sound(Next(y, e))
  {
    hide OnTrack, Accounted, Step;
    if Enabled(y, e) {
      match e
      case Work(k, a) => WorkSound(y, k, a);
      case StartCommit => CommitSound(y);
      case StopNow => StopSound(y);
      case StartCheck =>
    }
  }

  lemma {:induction false} AlwaysSound(events: seq<Event>)
    ensures Sound(Exec(events))
    decreases |events|
  {
    if events != [] {
      hide Sound, Next;
      AlwaysSound(events[..|events| - 1]);
      NextSound(Exec(events[..|events| - 1]), events[|events| - 1]);
    } else {
      hide OnTrack, Accounted;
    }
  }

  /** One worker: however starts, stops and worker steps interleave, at most one worker
      is alive, only it can take a step, a start that has joined finds nothing running,
      and no step of it alters the record of any other worker. */
  lemma OneWorkerAlive(events: seq<Event>, e: Event)
    ensures var y := Exec(events);
            && (forall i, j :: 0 <= i < j < |y.workers| ==> y.workers[i].pc.Dead? || y.workers[j].pc.Dead?)
            && (e.StartCommit? && Enabled(y, e) ==>
                 !y.shared.running && forall i :: 0 <= i < |y.workers| ==> y.workers[i].pc.Dead?)
            && (e.Work? && Enabled(y, e) ==> e.k == |y.workers| - 1)
            && (forall i :: 0 <= i < |y.workers| && (y.workers[i].pc.Dead? || i < |y.workers| - 1) ==>
                 Next(y, e).workers[i] == y.workers[i])
  {
    AlwaysSound(events);
    hide OnTrack, Accounted, Step, Exec;
  }

  /** The endurance cycle: every worker ever started has done a prefix of forward,
      auger, planter, backward, auger, planter, and so on; each of its start pulses went
      out with its last velocity write a stop; cycles always equal backward legs; each
      plant step that ended is counted exactly once; and no leg is counted twice. */
  lemma EnduranceCycle(events: seq<Event>)
    ensures var y := Exec(events);
            && (forall k :: 0 <= k < |y.workers| ==> OnCycle(y.workers[k].log))
            && (forall k, i :: 0 <= k < |y.workers| && 0 <= i < |y.workers[k].pulses| ==>
                 !y.workers[k].pulses[i].moving)
            && y.shared.cycles == y.shared.backward
            && (y.workers != [] ==>
                 var w := y.workers[|y.workers| - 1];
                 && PlantSteps(w.log) == y.shared.augers + y.shared.planters + y.shared.plantTimeouts + w.unfinished
                                         + (if InPlant(w.pc) then 1 else 0)
                 && y.shared.forward <= Legs(w.log, Forward) && y.shared.backward <= Legs(w.log, Backward))
  {
    AlwaysSound(events);
    var y := Exec(events);
    hide OnCycle, InPlant, InLeg, Behind, PlantSteps, Legs, Exec;
    assert forall k :: 0 <= k < |y.workers| ==> OnTrack(y.workers[k]);
    assert y.workers != [] ==> Accounted(y.shared, y.workers[|y.workers| - 1]);
  }

  /** The PLC is there throughout and its AMR state writes land. */
  predicate PlcUp(events: seq<Event>) {
    forall i :: 0 <= i < |events| && events[i].Work? ==> events[i].answer.plc && events[i].answer.landed
  }

  /** Then each start pulse also went out with the AMR state word at Stationary. */
  lemma {:induction false} PulsesWhileStationary(events: seq<Event>)
    requires PlcUp(events)
    ensures forall k :: 0 <= k < |Exec(events).workers| ==> AmrInStep(Exec(events).workers[k])
    decreases |events|
  {
    if events != [] {
      var y, e := Exec(events[..|events| - 1]), events[|events| - 1];
      PulsesWhileStationary(events[..|events| - 1]);
      assert AmrInStep(HIRED);
      if e.Work? && Enabled(y, e) {
        StepAmr(y.shared, y.workers[e.k], e.answer);
      }
      hide AmrInStep, Step;
    }
  }

  // ---------------------------------------------------------------- after a stop

  /** Past the gate of an activity that is not logged yet. */
  predicate Committed(pc: Pc) { pc.LegIn? || pc.PlantIn? }

  lemma StepAfterCancel(s: Shared, w: Worker, a: Answer)
    requires s.cancel
    ensures var (t, v) := Step(s, w, a);
            t.cancel && |v.log| + (if Committed(v.pc) then 1 else 0) <= |w.log| + (if Committed(w.pc) then 1 else 0)
  {
  }

  /** A stop is final for the run: whatever follows short of a new start, the run it
      hit begins at most the one activity it was already past the gate of, and the
      cancel flag stays up. */
  lemma {:induction false} StopIsFinal(events: seq<Event>, after: seq<Event>, k: nat)
    requires k < |Exec(events + [StopNow]).workers|
    requires forall i :: 0 <= i < |after| ==> !after[i].StartCommit?
    ensures var (was, now) := (Exec(events + [StopNow]), Exec(events + [StopNow] + after));
            now.shared.cancel && |now.workers| == |was.workers|
            && |now.workers[k].log| + (if Committed(now.workers[k].pc) then 1 else 0) <= |was.workers[k].log| + 1
    decreases |after|
  {
    if after == [] {
      assert events + [StopNow] + after == events + [StopNow];
      assert (events + [StopNow])[..|events|] == events;
    } else {
      var all, e := events + [StopNow] + after, after[|after| - 1];
      assert all[..|all| - 1] == events + [StopNow] + after[..|after| - 1];
      StopIsFinal(events, after[..|after| - 1], k);
      var y := Exec(all[..|all| - 1]);
      if e.Work? && Enabled(y, e) {
        StepAfterCancel(y.shared, y.workers[e.k], e.answer);
      }
      hide Step;
    }
  }

  /** How far a worker is from its end once the cancel flag is up. */
  function Rank(pc: Pc): nat {
    match pc
    case LegIn(_) => 8
    case LegAmr(_) => 7
    case DriveOn(_) => 6
    case DriveOff(_) => 5
    case LegCount(_, _) => 5
    case Park(_) => 5
    case PlantIn(_, _) => 8
    case PlantPulse(_, _) => 7
    case PlantWait(_, _) => 6
    case PlantCount(_, _, _) => 5
    case FinStop => 3
    case FinClear => 2
    case FinIdle => 1
    case Dead => 0
    case _ => 4
  }

  lemma StepRanks(pc: Pc, a: Answer)
    requires !pc.Dead?
    ensures Rank(NextPc(pc, true, a)) < Rank(pc) <= 8
  {
  }

  /** The steps in a run that are the k-th worker's own. */
  function OwnSteps(events: seq<Event>, k: nat): nat {
    if events == [] then 0 else
    var n := |events| - 1;
    OwnSteps(events[..n], k) + if events[n].Work? && events[n].k == k then 1 else 0
  }

  lemma {:induction false} StopRanks(events: seq<Event>, after: seq<Event>, k: nat)
    requires k < |Exec(events + [StopNow]).workers|
    requires forall i :: 0 <= i < |after| ==> !after[i].StartCommit?
    ensures var now := Exec(events + [StopNow] + after);
            && k < |now.workers|
            && (now.workers[k].pc.Dead? || Rank(now.workers[k].pc) + OwnSteps(after, k) <= 8)
    decreases |after|
  {
    StopIsFinal(events, after, k);
    if after != [] {
      var n := |after| - 1;
      var all, e := events + [StopNow] + after, after[n];
      assert all[..|all| - 1] == events + [StopNow] + after[..n];
      StopIsFinal(events, after[..n], k);
      StopRanks(events, after[..n], k);
      var y := Exec(all[..|all| - 1]);
      assert Exec(all) == Next(y, e);
      if e.Work? && Enabled(y, e) && e.k == k {
        StepRanks(y.workers[k].pc, e.answer);
      }
      hide Exec, Rank, NextPc, Record, Touch;
    } else {
      RankBound(Exec(events + [StopNow] + after).workers[k].pc);
    }
  }

  lemma RankBound(pc: Pc)
    ensures Rank(pc) <= 8 && (Rank(pc) == 0 <==> pc.Dead?)
  {
  }

  /** A stop ends the run: short of a new start, the worker it hit is dead after at most
      eight more steps of its own, however starts, stops and other steps interleave. */
  lemma StopEndsRun(events: seq<Event>, after: seq<Event>, k: nat)
    requires k < |Exec(events + [StopNow]).workers|
    requires forall i :: 0 <= i < |after| ==> !after[i].StartCommit?
    requires OwnSteps(after, k) >= 8
    ensures var now := Exec(events + [StopNow] + after); k < |now.workers| && now.workers[k].pc.Dead?
  {
    StopRanks(events, after, k);
    var now := Exec(events + [StopNow] + after);
    hide Exec, OwnSteps;
    RankBound(now.workers[k].pc);
  }
}
