/** What the endurance test's counters, phase and running flag mean, what a whole round
    does, and what ends a run. */
module EnduranceCounts {
  import opened Wrappers
  import opened Endurance
  import H = PlantHandshake

  // ------------------------------------------------------------------ counters

  /** What the worker is about to act on is what its drive or handshake answered. */
  predicate Remembers(w: Worker) {
    match w.pc
    case LegCheck(_, failed, covered) =>
      if w.drive.None? then failed else failed == w.drive.value.Aborted? && covered == w.drive.value.Covered?
    case LegCount(_, covered) => w.drive.Some? && !w.drive.value.Aborted? && covered == w.drive.value.Covered?
    case PlantCount(_, _, o) => w.plant == Some(o)
    case _ => true
  }

  /** Each counter is the number of activities that ended its way. */
  predicate Counts(s: Shared, w: Worker) {
    var ended := multiset(w.ended);
    && s.augers == ended[PlantOver(H.Auger, H.Done)] && s.planters == ended[PlantOver(H.Planter, H.Done)]
    && s.plantTimeouts == ended[PlantOver(H.Auger, H.TimedOut)] + ended[PlantOver(H.Planter, H.TimedOut)]
    && s.forward == ended[LegOver(Forward, Covered)]
    && s.backward == ended[LegOver(Backward, Covered)] && s.cycles == s.backward
  }

  lemma StepRemembers(s: Shared, w: Worker, a: Answer)
    requires Remembers(w)
    ensures Remembers(Step(s, w, a).1)
  {
  }

  /** The end that a step adds to the worker's record. */
  function Ends(w: Worker): Option<End> {
    match w.pc
    case LegCount(d, _) => if w.drive.Some? then Some(LegOver(d, w.drive.value)) else None
    case PlantCount(_, i, _) => if w.plant.Some? then Some(PlantOver(i, w.plant.value)) else None
    case _ => None
  }

  lemma StepEnded(s: Shared, w: Worker, a: Answer)
    ensures Step(s, w, a).1.ended == if Ends(w).Some? then w.ended + [Ends(w).value] else w.ended
  {
  }

  lemma TouchCounts(s: Shared, w: Worker)
    requires Remembers(w)
    ensures var (t, e) := (Touch(s, w.pc), Ends(w));
            && t.augers == s.augers + (if e == Some(PlantOver(H.Auger, H.Done)) then 1 else 0)
            && t.planters == s.planters + (if e == Some(PlantOver(H.Planter, H.Done)) then 1 else 0)
            && t.plantTimeouts == s.plantTimeouts
                 + (if e.Some? && e.value.PlantOver? && e.value.outcome.TimedOut? then 1 else 0)
            && t.forward == s.forward + (if e == Some(LegOver(Forward, Covered)) then 1 else 0)
            && t.backward == s.backward + (if e == Some(LegOver(Backward, Covered)) then 1 else 0)
            && (s.cycles == s.backward ==> t.cycles == t.backward)
  {
  }

  lemma StepCounts(s: Shared, w: Worker, a: Answer)
    requires Remembers(w) && Counts(s, w)
    ensures Counts(Step(s, w, a).0, Step(s, w, a).1)
  {
    StepEnded(s, w, a);
    TouchCounts(s, w);
    assert Step(s, w, a).0 == Touch(s, w.pc);
    hide Step, Touch, Ends, Remembers;
    if Ends(w).Some? && Ends(w).value.PlantOver? {
      assert Ends(w).value.implement == H.Auger || Ends(w).value.implement == H.Planter;
    }
  }

  /** The ends follow the log: the k-th end is that of the k-th activity, and all but at
      most the last have one. */
  predicate EndsFollowLog(w: Worker) {
    && |w.ended| <= |w.log| <= |w.ended| + 1
    && (forall k :: 0 <= k < |w.ended| ==> w.log[k] == ActivityOf(w.ended[k]))
    && (Open(w.pc).Some? ==> |w.log| == |w.ended| + 1 && w.log[|w.ended|] == Open(w.pc).value)
    && (Between(w.pc) ==> |w.log| == |w.ended|)
  }

  function ActivityOf(e: End): Activity {
    match e
    case LegOver(d, _) => Leg(d)
    case PlantOver(i, _) => Plant(i)
  }

  /** The activity under way. */
  function Open(pc: Pc): Option<Activity> {
    match pc
    case LegAmr(d) => Some(Leg(d))
    case DriveOn(d) => Some(Leg(d))
    case DriveOff(d) => Some(Leg(d))
    case LegCheck(d, _, _) => Some(Leg(d))
    case LegCount(d, _) => Some(Leg(d))
    case PlantPulse(_, i) => Some(Plant(i))
    case PlantWait(_, i) => Some(Plant(i))
    case PlantCount(_, i, _) => Some(Plant(i))
    case _ => None
  }

  predicate Between(pc: Pc) {
    || pc.Top? || pc.LegIn? || pc.LegGate? || pc.Park? || pc.PlantGate? || pc.PlantIn? || pc.PlantEnd? || pc.Resume?
  }

  lemma StepFollowsLog(s: Shared, w: Worker, a: Answer)
    requires Remembers(w) && EndsFollowLog(w)
    ensures EndsFollowLog(Step(s, w, a).1)
  {
    StepEnded(s, w, a);
    StepLogs(s, w, a);
    PlacesMove(w.pc, s.cancel, a);
    EndOfOpen(w);
    assert Step(s, w, a).1.pc == NextPc(w.pc, s.cancel, a);
    hide Step, NextPc, Ends, Remembers, Open, Between, Logs, ActivityOf;
  }

  lemma EndOfOpen(w: Worker)
    requires Remembers(w)
    ensures Ends(w).Some? <==> w.pc.LegCount? || w.pc.PlantCount?
    ensures Ends(w).Some? ==> Open(w.pc) == Some(ActivityOf(Ends(w).value)) && Logs(w.pc).None?
  {
  }

  lemma PlacesMove(pc: Pc, cancel: bool, a: Answer)
    ensures var next := NextPc(pc, cancel, a);
            && (Logs(pc).Some? ==> Between(pc) && Open(next) == Logs(pc))
            && (Logs(pc).None? && Open(next).Some? ==> Open(next) == Open(pc) && !pc.LegCount? && !pc.PlantCount?)
            && (Between(next) ==> Logs(pc).None? && (Between(pc) || pc.LegCount? || pc.PlantCount?))
            && (pc.LegCount? || pc.PlantCount? ==> Open(pc).Some?)
  {
  }

  /** Whatever interleaves: of the worker on record, each counter is the number of
      activities that ended its way, in log order; an activity that failed or was
      cancelled at its check is not among them. */
  lemma {:induction false} CountersExactly(events: seq<Event>)
    ensures forall k :: 0 <= k < |Exec(events).workers| ==>
              Remembers(Exec(events).workers[k]) && EndsFollowLog(Exec(events).workers[k])
    ensures var y := Exec(events); y.workers != [] ==> Counts(y.shared, y.workers[|y.workers| - 1])
    decreases |events|
  {
    if events != [] {
      var before, e := events[..|events| - 1], events[|events| - 1];
      CountersExactly(before);
      OneWorkerAlive(before, e);
      assert Exec(events) == Next(Exec(before), e);
      hide Exec;
      NextCounts(Exec(before), e);
      hide Counts, EndsFollowLog, Remembers, Next;
    }
  }

  lemma NextCounts(y: System, e: Event)
    requires forall k :: 0 <= k < |y.workers| ==> Remembers(y.workers[k]) && EndsFollowLog(y.workers[k])
    requires y.workers != [] ==> Counts(y.shared, y.workers[|y.workers| - 1])
    requires e.Work? && Enabled(y, e) ==> e.k == |y.workers| - 1
    ensures var z := Next(y, e);
            && (forall k :: 0 <= k < |z.workers| ==> Remembers(z.workers[k]) && EndsFollowLog(z.workers[k]))
            && (z.workers != [] ==> Counts(z.shared, z.workers[|z.workers| - 1]))
  {
    assert Counts(Begun(y.shared), HIRED) && EndsFollowLog(HIRED) && Remembers(HIRED);
    if e.Work? && Enabled(y, e) {
      StepRemembers(y.shared, y.workers[e.k], e.answer);
      StepFollowsLog(y.shared, y.workers[e.k], e.answer);
      StepCounts(y.shared, y.workers[e.k], e.answer);
    } else if e.StopNow? && y.workers != [] {
      StopCounts(y.shared, y.workers[|y.workers| - 1]);
    }
    hide Counts, EndsFollowLog, Remembers, Step, Begun, Stopped;
  }

  lemma StopCounts(s: Shared, w: Worker)
    requires Counts(s, w)
    ensures Counts(Stopped(s), w)
  {
  }

  // ------------------------------------------------------ running flag and phase

  /** The phase an activity is shown as. */
  function PhaseOf(log: seq<Activity>): Phase {
    if log == [] then Driving(Forward) else
    match log[|log| - 1]
    case Leg(d) => Driving(d)
    case Plant(i) => Planting(i)
  }

  ghost predicate Told(y: System) {
    var alive := y.workers != [] && !y.workers[|y.workers| - 1].pc.Dead?;
    && (y.shared.running <==> alive && !y.shared.cancel)
    && (if !alive then y.shared.phase == Idle
        else y.shared.running ==> y.shared.phase == PhaseOf(y.workers[|y.workers| - 1].log))
  }

  lemma StepTold(s: Shared, w: Worker, a: Answer)
    requires !w.pc.Dead? && (s.running <==> !s.cancel) && (s.running ==> s.phase == PhaseOf(w.log))
    ensures var (t, v) := Step(s, w, a);
            && t.cancel == s.cancel && (t.running <==> !v.pc.Dead? && !t.cancel)
            && (v.pc.Dead? ==> t.phase == Idle) && (t.running ==> t.phase == PhaseOf(v.log))
  {
  }

  /** The test says that it runs exactly while a worker is alive and has not been stopped;
      it then shows what that worker last began, and idle when no worker is alive. */
  lemma {:induction false} RunningExactly(events: seq<Event>)
    ensures Told(Exec(events))
    decreases |events|
  {
    if events != [] {
      var before, e := events[..|events| - 1], events[|events| - 1];
      RunningExactly(before);
      OneWorkerAlive(before, e);
      var y := Exec(before);
      if e.Work? && Enabled(y, e) {
        StepTold(y.shared, y.workers[e.k], e.answer);
      }
      hide Step, PhaseOf;
      assert PhaseOf([]) == Driving(Forward) by {
        FirstPhase();
      }
    }
  }

  lemma FirstPhase()
    ensures PhaseOf([]) == Driving(Forward)
  {
  }

  /** A start that finds no worker alive hires one, with every counter at 0. */
  lemma StartHires(events: seq<Event>)
    requires var y := Exec(events);
      y.starter.Joining? && (y.workers != [] ==> y.workers[|y.workers| - 1].pc.Dead?)
    ensures var (y, z) := (Exec(events), Exec(events + [StartCommit]));
            && z.workers == y.workers + [HIRED] && z.starter.Free?
            && z.shared == Shared(true, false, Driving(Forward), 0, 0, 0, 0, 0, 0)
  {
    AlwaysSound(events);
    assert (events + [StartCommit])[..|events|] == events;
    hide OnTrack, Accounted;
  }

  // ----------------------------------------------------------------- a whole round

  /** Everything goes well. */
  const FINE: Answer := Answer(false, false, Covered, true, true, true, H.Done)

  /** n steps of a worker alone with all going well. */
  function Solo(s: Shared, w: Worker, n: nat): (Shared, Worker)
    decreases n
  {
    if n == 0 then (s, w) else
    var (t, v) := Step(s, w, FINE);
    Solo(t, v, n - 1)
  }

  lemma {:induction false} SoloAdds(s: Shared, w: Worker, m: nat, n: nat)
    ensures Solo(s, w, m + n) == var (t, v) := Solo(s, w, m); Solo(t, v, n)
    decreases m
  {
    hide Step;
    if m > 0 {
      var (t, v) := Step(s, w, FINE);
      SoloAdds(t, v, m - 1, n);
    }
  }

  lemma SoloOne(s: Shared, w: Worker)
    ensures Solo(s, w, 1) == Step(s, w, FINE)
  {
    hide Step;
  }

  /** Where a leg and the park after it lead. */
  function LegRun(s: Shared, w: Worker, d: Direction): (Shared, Worker) {
    (LegDone(s.(phase := Driving(d)), d),
     w.(pc := PlantGate(d, H.Auger), amrState := 1, moving := false, drive := Some(Covered),
        log := w.log + [Leg(d)], ended := w.ended + [LegOver(d, Covered)]))
  }

  lemma SoloTwo(s: Shared, w: Worker)
    ensures Solo(s, w, 2) == var (t, v) := Step(s, w, FINE); Step(t, v, FINE)
  {
    var (t, v) := Step(s, w, FINE);
    SoloOne(s, w);
    SoloOne(t, v);
    SoloAdds(s, w, 1, 1);
    hide Step, Solo;
  }

  lemma SoloDrive(s: Shared, w: Worker, d: Direction)
    requires w.pc == LegIn(d) && !s.cancel
    ensures Solo(s, w, 4) ==
            (s.(phase := Driving(d)),
             w.(pc := LegCheck(d, false, true), amrState := 2, moving := false, drive := Some(Covered),
                log := w.log + [Leg(d)]))
  {
    var (t, v) := Solo(s, w, 2);
    SoloTwo(s, w);
    SoloTwo(t, v);
    SoloAdds(s, w, 2, 2);
    hide Solo;
  }

  lemma SoloPark(s: Shared, w: Worker, d: Direction)
    requires w.pc == LegCheck(d, false, true) && !s.cancel && w.drive == Some(Covered)
    ensures Solo(s, w, 4) ==
            (LegDone(s, d),
             w.(pc := PlantGate(d, H.Auger), amrState := 1, ended := w.ended + [LegOver(d, Covered)]))
  {
    var (t, v) := Solo(s, w, 2);
    SoloTwo(s, w);
    SoloTwo(t, v);
    SoloAdds(s, w, 2, 2);
    hide Solo;
  }

  lemma SoloLeg(s: Shared, w: Worker, d: Direction)
    requires w.pc == LegIn(d) && !s.cancel
    ensures Solo(s, w, 8) == LegRun(s, w, d)
  {
    SoloDrive(s, w, d);
    var (t, v) := Solo(s, w, 4);
    SoloPark(t, v, d);
    SoloAdds(s, w, 4, 4);
    hide Solo, Step;
  }

  /** Where one plant step leads. */
  function PlantRun(s: Shared, w: Worker, d: Direction, i: Implement): (Shared, Worker) {
    (PlantEnded(s.(phase := Planting(i)), i, H.Done),
     w.(pc := if i == H.Auger then PlantGate(d, H.Planter) else PlantEnd(d), plant := Some(H.Done),
        log := w.log + [Plant(i)], pulses := w.pulses + [Pulse(i, w.moving, w.amrState)],
        ended := w.ended + [PlantOver(i, H.Done)]))
  }

  lemma SoloPulse(s: Shared, w: Worker, d: Direction, i: Implement)
    requires w.pc == PlantGate(d, i) && !s.cancel
    ensures Solo(s, w, 2) ==
            (s.(phase := Planting(i)), w.(pc := PlantPulse(d, i), log := w.log + [Plant(i)]))
  {
    SoloTwo(s, w);
    hide Solo;
  }

  lemma SoloWait(s: Shared, w: Worker, d: Direction, i: Implement)
    requires w.pc == PlantPulse(d, i)
    ensures Solo(s, w, 2) ==
            (s, w.(pc := PlantCount(d, i, H.Done), plant := Some(H.Done),
                   pulses := w.pulses + [Pulse(i, w.moving, w.amrState)]))
  {
    SoloTwo(s, w);
    hide Solo;
  }

  lemma SoloCount(s: Shared, w: Worker, d: Direction, i: Implement)
    requires w.pc == PlantCount(d, i, H.Done) && w.plant == Some(H.Done)
    ensures Solo(s, w, 1) ==
            (PlantEnded(s, i, H.Done),
             w.(pc := if i == H.Auger then PlantGate(d, H.Planter) else PlantEnd(d),
                ended := w.ended + [PlantOver(i, H.Done)]))
  {
    SoloOne(s, w);
    hide Solo;
  }

  lemma SoloPlant(s: Shared, w: Worker, d: Direction, i: Implement)
    requires w.pc == PlantGate(d, i) && !s.cancel
    ensures Solo(s, w, 5) == PlantRun(s, w, d, i)
  {
    var (t, v) := Solo(s, w, 2);
    SoloPulse(s, w, d, i);
    var (t', v') := Solo(t, v, 2);
    SoloWait(t, v, d, i);
    SoloCount(t', v', d, i);
    SoloAdds(s, w, 2, 3);
    SoloAdds(t, v, 2, 1);
    hide Solo, Step, PlantEnded;
  }

  /** Half a round: a leg, the auger and the planter. */
  function HalfRun(s: Shared, w: Worker, d: Direction): (Shared, Worker) {
    var (s1, w1) := LegRun(s, w, d);
    var (s2, w2) := PlantRun(s1, w1, d, H.Auger);
    PlantRun(s2, w2, d, H.Planter)
  }

  lemma RunsLead(s: Shared, w: Worker, d: Direction, i: Implement)
    ensures LegRun(s, w, d).1.pc == PlantGate(d, H.Auger) && LegRun(s, w, d).0.cancel == s.cancel
    ensures PlantRun(s, w, d, i).0.cancel == s.cancel
    ensures PlantRun(s, w, d, i).1.pc == if i == H.Auger then PlantGate(d, H.Planter) else PlantEnd(d)
  {
  }

  lemma SoloHalf(s: Shared, w: Worker, d: Direction)
    requires w.pc == LegIn(d) && !s.cancel
    ensures Solo(s, w, 18) == HalfRun(s, w, d)
  {
    hide Solo, Step, LegRun, PlantRun;
    var (s1, w1) := LegRun(s, w, d);
    SoloLeg(s, w, d);
    RunsLead(s, w, d, H.Auger);
    var (s2, w2) := PlantRun(s1, w1, d, H.Auger);
    SoloPlant(s1, w1, d, H.Auger);
    RunsLead(s1, w1, d, H.Auger);
    SoloPlant(s2, w2, d, H.Planter);
    SoloAdds(s, w, 8, 10);
    SoloAdds(s1, w1, 5, 5);
  }

  lemma HalfEffect(s: Shared, w: Worker, d: Direction)
    ensures var (t, v) := HalfRun(s, w, d);
            && t == LegDone(s, d).(augers := s.augers + 1, planters := s.planters + 1, phase := Planting(H.Planter))
            && v.pc == PlantEnd(d)
            && v.log == w.log + [Leg(d), Plant(H.Auger), Plant(H.Planter)]
            && v.pulses == w.pulses + [Pulse(H.Auger, false, 1), Pulse(H.Planter, false, 1)]
  {
  }

  /** The steps between the halves read the gates and change nothing else. */
  lemma GateStep(s: Shared, w: Worker)
    requires !s.cancel && (w.pc.Top? || w.pc.PlantEnd? || w.pc.Resume?)
    ensures Step(s, w, FINE) == (s, w.(pc := NextPc(w.pc, false, FINE)))
    ensures NextPc(w.pc, false, FINE) ==
            match w.pc
            case Top => LegIn(Forward)
            case PlantEnd(d) => if d == Forward then Resume else Top
            case _ => LegIn(Backward)
  {
  }

  /** A round in which all goes well: forward, auger, planter, backward, auger, planter,
      each pulse at standstill with the PLC told so, and the counters one leg each way,
      one cycle and two of each implement further on. */
  lemma WholeRound(s: Shared, w: Worker)
    requires w.pc.Top? && !s.cancel
    ensures var (t, v) := Solo(s, w, 40);
            && t == s.(forward := s.forward + 1, backward := s.backward + 1, cycles := s.cycles + 1,
                       augers := s.augers + 2, planters := s.planters + 2, phase := Planting(H.Planter))
            && v.pc.Top?
            && v.log == w.log + ([Leg(Forward), Plant(H.Auger), Plant(H.Planter)]
                                 + [Leg(Backward), Plant(H.Auger), Plant(H.Planter)])
            && v.pulses == w.pulses + ([Pulse(H.Auger, false, 1), Pulse(H.Planter, false, 1)]
                                       + [Pulse(H.Auger, false, 1), Pulse(H.Planter, false, 1)])
  {
    hide Solo, Step, HalfRun, NextPc;
    GateStep(s, w);
    var w1 := w.(pc := LegIn(Forward));
    SoloHalf(s, w1, Forward);
    HalfEffect(s, w1, Forward);
    var (s2, w2) := HalfRun(s, w1, Forward);
    GateStep(s2, w2);
    var w3 := w2.(pc := Resume);
    GateStep(s2, w3);
    var w4 := w2.(pc := LegIn(Backward));
    SoloHalf(s2, w4, Backward);
    HalfEffect(s2, w4, Backward);
    var (s5, w5) := HalfRun(s2, w4, Backward);
    GateStep(s5, w5);
    Chain(s, w);
  }

  lemma Chain(s: Shared, w: Worker)
    ensures var (s1, w1) := Step(s, w, FINE);
            var (s2, w2) := Solo(s1, w1, 18);
            var (s3, w3) := Step(s2, w2, FINE);
            var (s4, w4) := Step(s3, w3, FINE);
            var (s5, w5) := Solo(s4, w4, 18);
            Solo(s, w, 40) == Step(s5, w5, FINE)
  {
    hide Solo, Step;
    var (s1, w1) := Step(s, w, FINE);
    var (s2, w2) := Solo(s1, w1, 18);
    var (s3, w3) := Step(s2, w2, FINE);
    var (s4, w4) := Step(s3, w3, FINE);
    var (s5, w5) := Solo(s4, w4, 18);
    SoloOne(s, w);
    SoloOne(s2, w2);
    SoloOne(s3, w3);
    SoloOne(s5, w5);
    SoloAdds(s, w, 1, 39);
    SoloAdds(s1, w1, 18, 21);
    SoloAdds(s2, w2, 1, 20);
    SoloAdds(s3, w3, 1, 19);
    SoloAdds(s4, w4, 18, 1);
  }

  // ----------------------------------------------------------------- what ends a run

  /** A worker goes on unless it is cancelled, the battery is empty, its leg failed or its
      wait was cancelled. */
  lemma GoesOn(pc: Pc, cancel: bool, a: Answer)
    requires !cancel && !a.empty && !pc.FinStop? && !pc.FinClear? && !pc.FinIdle? && !pc.Dead?
    requires !(pc.LegCheck? && pc.failed) && !(pc.PlantCount? && pc.o.CancelledOut?)
    ensures var next := NextPc(pc, cancel, a); !next.FinStop? && !next.FinClear? && !next.FinIdle? && !next.Dead?
  {
  }

  /** A leg whose encoders were stale or whose drive was aborted is the last. */
  lemma FailedLegEndsRun(d: Direction, a: Answer, cancel: bool, later: bool, b: Answer)
    ensures a.stale ==> NextPc(NextPc(DriveOn(d), cancel, a), later, b) == FinStop
    ensures a.drive.Aborted? ==> NextPc(NextPc(DriveOff(d), cancel, a), later, b) == FinStop
  {
  }

  /** How far a worker is from its end once the battery stays empty. */
  function EmptyRank(pc: Pc): nat {
    match pc
    case LegIn(_) => 10
    case LegAmr(_) => 9
    case DriveOn(_) => 8
    case DriveOff(_) => 7
    case LegCheck(_, _, _) => 6
    case LegCount(_, _) => 5
    case Park(_) => 5
    case PlantIn(_, _) => 9
    case PlantPulse(_, _) => 8
    case PlantWait(_, _) => 7
    case PlantCount(_, _, _) => 6
    case PlantEnd(_) => 5
    case FinStop => 3
    case FinClear => 2
    case FinIdle => 1
    case Dead => 0
    case _ => 4
  }

  lemma StepEmptyRanks(pc: Pc, cancel: bool, a: Answer)
    requires a.empty && !pc.Dead?
    ensures EmptyRank(NextPc(pc, cancel, a)) < EmptyRank(pc)
  {
  }

  lemma EmptyRankBound(pc: Pc)
    ensures EmptyRank(pc) <= 10 && (EmptyRank(pc) == 0 <==> pc.Dead?)
  {
  }

  lemma NextEmptyRank(y: System, e: Event, k: nat)
    requires k < |y.workers| && (e.Work? && e.k == k ==> e.answer.empty)
    ensures var z := Next(y, e);
            && k < |z.workers| && (y.workers[k].pc.Dead? ==> z.workers[k].pc.Dead?)
            && (!y.workers[k].pc.Dead? ==>
                 EmptyRank(z.workers[k].pc) + (if e.Work? && e.k == k then 1 else 0) <= EmptyRank(y.workers[k].pc))
  {
    if e.Work? && Enabled(y, e) && e.k == k {
      StepEmptyRanks(y.workers[k].pc, y.shared.cancel, e.answer);
    }
    hide EmptyRank, NextPc, Record, Touch;
  }

  /** An empty battery ends the run: once every answer to a worker says empty, it is dead
      after at most ten more steps of its own, whatever else happens. */
  lemma {:induction false} EmptyBatteryEndsRun(events: seq<Event>, after: seq<Event>, k: nat)
    requires k < |Exec(events).workers|
    requires forall i :: 0 <= i < |after| && after[i].Work? && after[i].k == k ==> after[i].answer.empty
    ensures var now := Exec(events + after);
            && k < |now.workers|
            && (now.workers[k].pc.Dead? || EmptyRank(now.workers[k].pc) + OwnSteps(after, k) <= 10)
            && (OwnSteps(after, k) >= 10 ==> now.workers[k].pc.Dead?)
    decreases |after|
  {
    if after == [] {
      assert events + after == events;
      EmptyRankBound(Exec(events).workers[k].pc);
    } else {
      var n := |after| - 1;
      var all, e := events + after, after[n];
      assert all[..|all| - 1] == events + after[..n] && all[|all| - 1] == e;
      EmptyBatteryEndsRun(events, after[..n], k);
      var y := Exec(events + after[..n]);
      assert Exec(all) == Next(y, e);
      NextEmptyRank(y, e, k);
      EmptyRankBound(Next(y, e).workers[k].pc);
      hide Exec, EmptyRank, Next;
    }
  }
}
