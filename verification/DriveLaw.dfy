/** The fixed-distance drive from its trace alone: which way it goes, what it writes pass
    by pass, and why it ends. */
module DriveLaw {
  import opened FixedDrive
  import opened Polling
  import V = Velocity

  // ----------------------------------------------------------- in terms of the trace

  /** +1 forward, -1 backward. */
  function Sign(r: Request): real { if r.backward then -1.0 else 1.0 }

  /** Mean encoder pulses since the start, counted in the direction asked for. */
  function Covered(r: Request, s: Sample): real {
    Sign(r) * ((s.left - r.startLeft + (s.right - r.startRight)) as real / 2.0)
  }

  function Target(r: Request): real { r.meters * r.pulsesPerMeter }

  /** The speed asked for, no slower than 0.05 and no faster than 15. */
  function Cruise(r: Request): real {
    var speed := if r.speed < 0.0 then -r.speed else r.speed;
    if speed < 0.05 then 0.05 else if speed > 15.0 then 15.0 else speed
  }

  predicate InTime(r: Request, s: Sample) { s.clock < r.startedAt + 30.0 }

  /** Others have moved the speed more than 0.01 off `mine` since it was written. */
  predicate Disturbed(s: Sample, mine: real) {
    var lin := V.TwistOf(V.Twist(mine, 0.0), s.others).lin;
    !(-0.01 <= lin - mine <= 0.01)
  }

  predicate GoesOn(r: Request, s: Sample, mine: real) {
    InTime(r, s) && !s.cancelled && Covered(r, s) < Target(r) && !Disturbed(s, mine)
  }

  /** Crawl over the last half metre, cruise before. */
  function NextSpeed(r: Request, s: Sample): real {
    Sign(r) * if Target(r) - Covered(r, s) <= 0.5 * r.pulsesPerMeter then 0.08 else Cruise(r)
  }

  predicate EndsAs(r: Request, s: Sample, mine: real, exit: Exit) {
    match exit
    case Expired => !InTime(r, s)
    case Cancelled => InTime(r, s) && s.cancelled
    case Reached => InTime(r, s) && !s.cancelled && Covered(r, s) >= Target(r)
    case Overridden => InTime(r, s) && !s.cancelled && Covered(r, s) < Target(r) && Disturbed(s, mine)
  }

  /** The speeds written so far follow from the samples of the passes that went on. */
  predicate Lawful(r: Request, env: nat -> Sample, log: seq<real>) {
    && log != [] && log[0] == Sign(r) * Cruise(r)
    && forall i :: 0 <= i < |log| - 1 ==> GoesOn(r, env(i), log[i]) && log[i + 1] == NextSpeed(r, env(i))
  }

  // ---------------------------------------------------------------- the loop obeys it

  lemma {:induction false} TurnIsApart(lin: real, a: real, b: real, events: seq<V.Event>)
    ensures V.TwistOf(V.Twist(lin, a), events).lin == V.TwistOf(V.Twist(lin, b), events).lin
    decreases |events|
  {
    if events != [] {
      TurnIsApart(lin, a, b, events[..|events| - 1]);
    }
  }

  lemma TravelIsCovered(r: Request, s: Sample)
    ensures Travel(PlanOf(r), s) == Covered(r, s)
  {
  }

  lemma PassLaw(r: Request, s: Sample, traveled: real, mine: real, vel: V.Vel)
    requires vel.lin == mine
    ensures match Pass(PlanOf(r), s, traveled, mine, vel)
            case Go(t, speed, v) =>
              GoesOn(r, s, mine) && speed == NextSpeed(r, s) && t == Covered(r, s) && v.lin == speed
            case Leave(exit, taken, t, _) =>
              && EndsAs(r, s, mine, exit)
              && taken == (if exit.Reached? || exit.Overridden? then 1 else 0)
              && t == if exit.Reached? || exit.Overridden? then Covered(r, s) else traveled
  {
    TravelIsCovered(r, s);
    V.RunFromEvents(vel, s.others);
    TurnIsApart(mine, vel.ang, 0.0, s.others);
    hide V.Run, V.TwistOf, V.GivenAt, V.Awake, Travel, Covered;
  }

  /** The distance known after the passes of a log that went on. */
  function LastCovered(r: Request, env: nat -> Sample, n: nat): real {
    if n == 0 then 0.0 else Covered(r, env(n - 1))
  }

  lemma {:induction false} LoopLaw(r: Request, env: nat -> Sample, i: nat, log: seq<real>, vel: V.Vel)
    requires Paced(env) && Lawful(r, env, log) && |log| == i + 1 && vel.lin == log[i]
    ensures var report := Loop(PlanOf(r), env, i, LastCovered(r, env, i), log, vel);
            Lawful(r, env, report.speeds) && Ends(r, env, report)
    decreases PassesLeft(PlanOf(r), env(i).clock)
  {
    var p := PlanOf(r);
    var turn := Pass(p, env(i), LastCovered(r, env, i), log[i], vel);
    PassLaw(r, env(i), LastCovered(r, env, i), log[i], vel);
    LoopTurns(p, env, i, LastCovered(r, env, i), log, vel);
    if turn.Go? {
      assert PacedAt(env, i);
      TurnCounts(p.deadline, PERIOD, env(i).clock, env(i + 1).clock);
      hide Loop, Pass, GoesOn, NextSpeed, Covered, EndsAs;
      assert Lawful(r, env, log + [turn.speed]);
      LoopLaw(r, env, i + 1, log + [turn.speed], turn.vel);
    } else {
      hide Loop, Pass, GoesOn, NextSpeed, Covered, EndsAs;
    }
  }

  /** The loop ended at the sample after the last pass that went on, for the reason it
      gives, with the distance of the last sample it took. */
  predicate Ends(r: Request, env: nat -> Sample, report: Report) {
    report.speeds != [] &&
    var n := |report.speeds| - 1;
    var read := report.exit.Reached? || report.exit.Overridden?;
    && EndsAs(r, env(n), report.speeds[n], report.exit)
    && report.passes == (if read then n + 1 else n)
    && report.traveled == LastCovered(r, env, report.passes)
  }

  /** A drive is exactly this: with a reading that is missing or more than 3 s old it
      reports the encoder and writes nothing. Otherwise it first writes its cruise speed,
      in the direction asked for; every pass that is in time, not cancelled, short of the
      target and not overridden writes crawl over the last half metre and cruise before;
      the first other pass ends it, aborted exactly if cancelled or overridden, and the
      stop is written last. */
  lemma DriveExactly(r: Request, env: nat -> Sample, vel: V.Vel)
    requires Paced(env)
    ensures var (report, o, speeds) := (Report0(r, env, vel), OutcomeOf(r, env, vel), Speeds(r, env, vel));
            if r.lastOdom == 0.0 || r.now - r.lastOdom > 3.0
            then o == Outcome(false, false, 0.0, true) && speeds == []
            else
              && Lawful(r, env, report.speeds) && Ends(r, env, report) && speeds == report.speeds + [0.0]
              && !o.encoderError && o.traveled == report.traveled
              && (o.aborted <==> report.exit.Cancelled? || report.exit.Overridden?)
              && (o.done <==> !o.aborted && o.traveled >= Target(r))
  {
    ReportLaw(r, env, vel);
    TargetIsPlanned(r);
    hide Report0, Lawful, Ends, PlanOf;
  }

  lemma TargetIsPlanned(r: Request)
    ensures PlanOf(r).target == Target(r)
  {
  }

  lemma FirstSpeed(r: Request)
    ensures Signed(PlanOf(r), PlanOf(r).cruise) == Sign(r) * Cruise(r)
  {
  }

  lemma ReportLaw(r: Request, env: nat -> Sample, vel: V.Vel)
    requires Paced(env)
    ensures var report := Report0(r, env, vel); Lawful(r, env, report.speeds) && Ends(r, env, report)
  {
    var first := Signed(PlanOf(r), PlanOf(r).cruise);
    FirstSpeed(r);
    hide Loop, Ends, PlanOf, Signed, Sign, Cruise, GoesOn, NextSpeed, Covered;
    assert Lawful(r, env, [first]);
    LoopLaw(r, env, 0, [first], V.Commanded(vel, first, 0.0, r.setAt));
  }

  /** Forward is forward: every speed before the stop is positive on a forward drive and
      negative on a backward one. */
  lemma SpeedsPointTheWay(r: Request, env: nat -> Sample, vel: V.Vel, i: nat)
    requires Paced(env) && i < |Speeds(r, env, vel)| - 1
    ensures if r.backward then Speeds(r, env, vel)[i] < 0.0 else Speeds(r, env, vel)[i] > 0.0
  {
    DriveExactly(r, env, vel);
    hide Report0, OutcomeOf, Speeds, GoesOn, Ends;
    var log := Report0(r, env, vel).speeds;
    assert i > 0 ==> log[i - 1 + 1] == NextSpeed(r, env(i - 1));
  }

  /** And a drive that is done is there: by the last encoder sample the wheels have
      turned, on average, the whole distance in the direction asked for. */
  lemma DoneIsThere(r: Request, env: nat -> Sample, vel: V.Vel)
    requires Paced(env) && OutcomeOf(r, env, vel).done && r.meters > 0.0 && r.pulsesPerMeter > 0.0
    ensures var n := Report0(r, env, vel).passes;
            && n > 0
            && var s := env(n - 1);
               var mean := (s.left - r.startLeft + (s.right - r.startRight)) as real / 2.0;
               if r.backward then mean <= -(r.meters * r.pulsesPerMeter) else mean >= r.meters * r.pulsesPerMeter
  {
    DriveExactly(r, env, vel);
    Positive(r.meters, r.pulsesPerMeter);
    hide Report0, OutcomeOf, Speeds, Lawful, EndsAs;
  }
}
