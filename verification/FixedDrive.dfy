/** The fixed-distance drive: serve.drive_distance with auto_drive.plan_speed. */
module FixedDrive {
  import opened Wrappers
  import opened Polling
  import V = Velocity

  const MAX_LIN_INPUT: real := 15.0
  const MIN_SPEED: real := 0.05
  const CRAWL: real := 0.08
  const DEADLINE: real := 30.0
  const STALE: real := 3.0
  const PERIOD: real := 0.02

  /** Next speed, or None once the target has been reached. */
  function PlanSpeed(traveled: real, target: real, slowZone: real, cruise: real, crawl: real): Option<real> {
    if traveled >= target then None
    else if target - traveled <= slowZone then Some(crawl)
    else Some(cruise)
  }

  // ------------------------------------------------------------------- the world

  /** One pass of the loop: the clock at its test, then after the sleep what the
      cancel predicate and the encoders say, and what the other threads did to the
      shared velocity before the loop took its lock at `at`. */
  datatype Sample = Sample(clock: real, cancelled: bool, left: int, right: int, others: seq<V.Event>, at: real)

  /** Each pass sleeps for at least one period. */
  ghost predicate Paced(env: nat -> Sample) {
    forall i: nat :: PacedAt(env, i)
  }

  predicate PacedAt(env: nat -> Sample, i: nat) { env(i + 1).clock >= env(i).clock + PERIOD }

  datatype Plan = Plan(backward: bool, cruise: real, target: real, slowZone: real,
                       startLeft: int, startRight: int, deadline: real)

  function Signed(p: Plan, x: real): real { if p.backward then -x else x }

  /** Pulses travelled in the commanded direction. */
  function Travel(p: Plan, s: Sample): real {
    Signed(p, ((s.left - p.startLeft) + (s.right - p.startRight)) as real / 2.0)
  }

  function Planned(p: Plan, traveled: real): Option<real> {
    PlanSpeed(traveled, p.target, p.slowZone, p.cruise, CRAWL)
  }

  // -------------------------------------------------------------------- the loop

  datatype Exit = Reached | Cancelled | Overridden | Expired

  /** How the loop ended: after how many passes, how far, every speed written. */
  datatype Report = Report(exit: Exit, passes: nat, traveled: real, speeds: seq<real>, vel: V.Vel)

  function PassesLeft(p: Plan, clock: real): nat { TurnsLeft(p.deadline, PERIOD, clock) }

  /** One pass: leave (having read the encoders or not), or go on with the distance,
      the speed written and the shared velocity. */
  datatype Turn =
    | Leave(exit: Exit, taken: nat, traveled: real, vel: V.Vel)
    | Go(traveled: real, speed: real, vel: V.Vel)

  /** `mine` is the speed this loop wrote last. */
  function Pass(p: Plan, s: Sample, traveled: real, mine: real, vel: V.Vel): (turn: Turn)
    ensures turn.Go? ==> s.clock < p.deadline
  {
    if s.clock >= p.deadline then Leave(Expired, 0, traveled, vel)
    else if s.cancelled then Leave(Cancelled, 0, traveled, vel)
    else
      var now := Travel(p, s);
      var next := Planned(p, now);
      if next.None? then Leave(Reached, 1, now, vel) else
      var met := V.Run(vel, s.others);
      if V.Overridden(met, mine) then Leave(Overridden, 1, now, met) else
      var speed := Signed(p, next.value);
      Go(now, speed, V.Refreshed(met, mine, speed, s.at))
  }

  function Loop(p: Plan, env: nat -> Sample, i: nat, traveled: real, speeds: seq<real>, vel: V.Vel): Report
    requires Paced(env) && speeds != []
    decreases PassesLeft(p, env(i).clock)
  {
    match Pass(p, env(i), traveled, speeds[|speeds| - 1], vel)
    case Leave(exit, taken, t, v) => Report(exit, i + taken, t, speeds, v)
    case Go(t, speed, v) =>
      assert PacedAt(env, i);
      TurnCounts(p.deadline, PERIOD, env(i).clock, env(i + 1).clock);
      Loop(p, env, i + 1, t, speeds + [speed], v)
  }

  // -------------------------------------------------------------- the whole drive

  datatype Outcome = Outcome(done: bool, aborted: bool, traveled: real, encoderError: bool)

  /** Everything a drive is started with: `lastOdom` is 0 until a first reading. The
      clock is read when the encoders are checked, when the first command is set, when
      the deadline is fixed and when the final stop is written. */
  datatype Request = Request(backward: bool, speed: real, meters: real, pulsesPerMeter: real,
                             startLeft: int, startRight: int, lastOdom: real, now: real,
                             setAt: real, startedAt: real, stopAt: real)

  predicate Stale(r: Request) { r.lastOdom == 0.0 || r.now - r.lastOdom > STALE }

  function Bounded(speed: real): real {
    var s := V.Abs(speed);
    var top := if s < MAX_LIN_INPUT then s else MAX_LIN_INPUT;
    if MIN_SPEED > top then MIN_SPEED else top
  }

  function PlanOf(r: Request): Plan {
    Plan(r.backward, Bounded(r.speed), r.meters * r.pulsesPerMeter, 0.5 * r.pulsesPerMeter,
         r.startLeft, r.startRight, r.startedAt + DEADLINE)
  }

  function Report0(r: Request, env: nat -> Sample, vel: V.Vel): Report
    requires Paced(env)
  {
    var p := PlanOf(r);
    Loop(p, env, 0, 0.0, [Signed(p, p.cruise)], V.Commanded(vel, Signed(p, p.cruise), 0.0, r.setAt))
  }

  function OutcomeOf(r: Request, env: nat -> Sample, vel: V.Vel): Outcome
    requires Paced(env)
  {
    if Stale(r) then Outcome(false, false, 0.0, true) else
    var report := Report0(r, env, vel);
    var aborted := report.exit in {Cancelled, Overridden};
    Outcome(!aborted && report.traveled >= PlanOf(r).target, aborted, report.traveled, false)
  }

  /** The speeds written to the shared command, in order; the final stop is the last. */
  function Speeds(r: Request, env: nat -> Sample, vel: V.Vel): seq<real>
    requires Paced(env)
  {
    if Stale(r) then [] else Report0(r, env, vel).speeds + [0.0]
  }

  /** Python's round to three places, ties to even. */
  function RoundMilli(x: real): real { Nearest(x * 1000.0) as real / 1000.0 }

  function Nearest(x: real): int {
    var n := x.Floor;
    var rest := x - n as real;
    if rest > 0.5 || (rest == 0.5 && n % 2 == 1) then n + 1 else n
  }

  /** The distance reported, in metres to the millimetre. */
  function TraveledM(r: Request, o: Outcome): real
    requires !o.encoderError ==> r.pulsesPerMeter != 0.0
  {
    if o.encoderError then 0.0 else RoundMilli(o.traveled / r.pulsesPerMeter)
  }

  /** What the other threads do to the shared velocity while the loop sleeps. */
  method Interfere(vel: V.VelocityState, events: seq<V.Event>)
    modifies vel
    ensures vel.State() == V.Run(old(vel.State()), events)
  {
    for k := 0 to |events|
      invariant vel.State() == V.Run(old(vel.State()), events[..k])
    {
      assert events[..k + 1][..k] == events[..k];
      match events[k]
      case Set(at, lin, ang) => vel.SetCommand(lin, ang, at);
      case Refresh(at, expected, lin) => var _ := vel.RefreshSpeed(expected, lin, at);
      case Tick(at, _) => var _ := vel.ConsumeForPublish(at);
    }
    assert events[..|events|] == events;
  }

  /** An uncalibrated chassis (no pulses per metre) makes the source divide by zero. */
  method DriveDistance(r: Request, env: nat -> Sample, vel: V.VelocityState)
    returns (result: Outcome, traveledM: real, speeds: seq<real>)
    requires Paced(env) && (!Stale(r) ==> r.pulsesPerMeter != 0.0)
    modifies vel
    ensures result.encoderError == Stale(r) && traveledM == TraveledM(r, result)
    ensures result == OutcomeOf(r, env, old(vel.State())) && speeds == Speeds(r, env, old(vel.State()))
    ensures result.encoderError ==> speeds == [] && vel.State() == old(vel.State())
    ensures !result.encoderError ==>
              speeds != [] && speeds[|speeds| - 1] == 0.0
    ensures !result.encoderError ==>
              vel.State() == V.Commanded(Report0(r, env, old(vel.State())).vel, 0.0, 0.0, r.stopAt)
  {
    var p := PlanOf(r);
    if Stale(r) {
      return Outcome(false, false, 0.0, true), 0.0, [];
    }
    var mine := Signed(p, p.cruise);
    vel.SetCommand(mine, 0.0, r.setAt);
    speeds := [mine];
    var traveled, aborted, i := 0.0, false, 0;
    ghost var full := Report0(r, env, old(vel.State()));
    while env(i).clock < p.deadline
      invariant speeds != [] && speeds[|speeds| - 1] == mine
      invariant full == Loop(p, env, i, traveled, speeds, vel.State())
      decreases PassesLeft(p, env(i).clock)
    {
      assert PacedAt(env, i);
      TurnCounts(p.deadline, PERIOD, env(i).clock, env(i + 1).clock);
      if env(i).cancelled {
        aborted := true;
        break;
      }
      traveled := Travel(p, env(i));
      var next := Planned(p, traveled);
      if next.None? {
        break;
      }
      Interfere(vel, env(i).others);
      var speed := Signed(p, next.value);
      var overridden := vel.RefreshSpeed(mine, speed, env(i).at);
      if overridden {
        aborted := true;
        break;
      }
      mine := speed;
      speeds := speeds + [mine];
      i := i + 1;
    }
    vel.SetCommand(0.0, 0.0, r.stopAt);
    speeds := speeds + [0.0];
    result := Outcome(!aborted && traveled >= p.target, aborted, traveled, false);
    traveledM := RoundMilli(traveled / r.pulsesPerMeter);
  }

  // ------------------------------------------------------------------ when done

  /** Distance known before pass i: 0 before the first, else the pass before it. */
  function Known(p: Plan, env: nat -> Sample, i: nat): real {
    if i == 0 then 0.0 else Travel(p, env(i - 1))
  }

  /** Only a pass that reaches the target leaves with it covered. */
  lemma PassDistance(p: Plan, s: Sample, traveled: real, mine: real, vel: V.Vel)
    ensures match Pass(p, s, traveled, mine, vel)
            case Leave(exit, taken, t, _) =>
              if exit.Reached? then taken == 1 && t == Travel(p, s) >= p.target
              else t == traveled || t < p.target
            case Go(t, _, _) => t == Travel(p, s) < p.target
  {
    hide V.Run, Travel;
  }

  /** What the loop leaves behind: short of the target unless it left by reaching it,
      and then it was short of it one pass before. */
  lemma {:induction false} LoopEnds(p: Plan, env: nat -> Sample, i: nat, speeds: seq<real>, vel: V.Vel)
    requires Paced(env) && speeds != [] && Known(p, env, i) < p.target
    ensures var report := Loop(p, env, i, Known(p, env, i), speeds, vel);
            if report.exit.Reached?
            then report.passes > 0 && Known(p, env, report.passes - 1) < p.target <= report.traveled
                 && report.traveled == Known(p, env, report.passes)
            else report.traveled < p.target
    decreases PassesLeft(p, env(i).clock)
  {
    var turn := Pass(p, env(i), Known(p, env, i), speeds[|speeds| - 1], vel);
    PassDistance(p, env(i), Known(p, env, i), speeds[|speeds| - 1], vel);
    hide Pass, Travel, PassesLeft;
    if turn.Go? {
      assert PacedAt(env, i);
      TurnCounts(p.deadline, PERIOD, env(i).clock, env(i + 1).clock);
      LoopEnds(p, env, i + 1, speeds + [turn.speed], turn.vel);
    }
  }

  /** `done` is reported exactly when the loop left on reaching the target; a target
      of nothing is also done when the deadline passes before the first pass. */
  lemma DoneExactly(r: Request, env: nat -> Sample, vel: V.Vel)
    requires Paced(env) && !Stale(r)
    ensures OutcomeOf(r, env, vel).done <==>
              Report0(r, env, vel).exit.Reached? || (PlanOf(r).target <= 0.0 && env(0).clock >= PlanOf(r).deadline)
  {
    var p := PlanOf(r);
    var first := Signed(p, p.cruise);
    var started := V.Commanded(vel, first, 0.0, r.setAt);
    if p.target > 0.0 {
      LoopEnds(p, env, 0, [first], started);
    } else {
      var turn := Pass(p, env(0), 0.0, first, started);
      hide V.Run;
      if turn.Go? {
          assert PacedAt(env, 0);
        TurnCounts(p.deadline, PERIOD, env(0).clock, env(1).clock);
        LoopEnds(p, env, 1, [first] + [turn.speed], turn.vel);
      }
    }
  }

  /** No coasting past the plan: if no pass that was read advances by more than
      `stride` pulses over the one before, a finished drive has covered the target
      and less than one stride more. */
  lemma DoneWithinStride(r: Request, env: nat -> Sample, vel: V.Vel, stride: real)
    requires Paced(env) && OutcomeOf(r, env, vel).done && PlanOf(r).target > 0.0
    requires forall i: nat :: i < Report0(r, env, vel).passes ==>
      Known(PlanOf(r), env, i + 1) - Known(PlanOf(r), env, i) <= stride
    ensures PlanOf(r).target <= OutcomeOf(r, env, vel).traveled < PlanOf(r).target + stride
  {
    var p := PlanOf(r);
    LoopEnds(p, env, 0, [Signed(p, p.cruise)], V.Commanded(vel, Signed(p, p.cruise), 0.0, r.setAt));
    var last: nat := Report0(r, env, vel).passes - 1;
    hide Loop, Travel;
    assert Known(p, env, last + 1) - Known(p, env, last) <= stride;
  }

  lemma RoundsNear(x: real)
    ensures -0.0005 <= RoundMilli(x) - x <= 0.0005
  {
  }

  /** The rounded value is a whole number of thousandths, no other is nearer, and of two
      equally near it is the even one. */
  lemma RoundsToMilli(x: real, m: int) returns (n: int)
    ensures RoundMilli(x) == n as real / 1000.0 && IsRounded(x * 1000.0, n, m)
  {
    n := Nearest(x * 1000.0);
    NearestIsRounded(x * 1000.0, m);
  }

  lemma NearestIsRounded(x: real, m: int)
    ensures IsRounded(x, Nearest(x), m)
  {
    var low := x.Floor;
    assert m <= low || m >= low + 1;
  }

  predicate IsRounded(x: real, n: int, m: int) {
    var (here, there) := (V.Abs(x - n as real), V.Abs(x - m as real));
    here <= there && (here == there && n != m ==> n % 2 == 0)
  }

  lemma Quotient(x: real, y: real, z: real)
    requires y > 0.0
    ensures x / y >= z <==> x >= z * y
  {
    assert x / y * y == x;
    ScalesOrder(x / y, z, y);
  }

  /** In metres: a finished drive reports the requested distance, to half a millimetre,
      and at most one stride more. */
  lemma DoneReportsRequest(r: Request, env: nat -> Sample, vel: V.Vel, strideM: real)
    requires Paced(env) && OutcomeOf(r, env, vel).done && r.meters > 0.0 && r.pulsesPerMeter > 0.0
    requires forall i: nat :: i < Report0(r, env, vel).passes ==>
      Known(PlanOf(r), env, i + 1) - Known(PlanOf(r), env, i) <= strideM * r.pulsesPerMeter
    ensures r.meters - 0.0005 <= TraveledM(r, OutcomeOf(r, env, vel)) < r.meters + strideM + 0.0005
  {
    var ppm, o := r.pulsesPerMeter, OutcomeOf(r, env, vel);
    Positive(r.meters, ppm);
    DoneWithinStride(r, env, vel, strideM * ppm);
    hide Report0, RoundMilli, OutcomeOf, Paced, Known;
    Share(o.traveled, r.meters, strideM, ppm);
    RoundsNear(o.traveled / ppm);
  }

  lemma Positive(x: real, y: real)
    requires x > 0.0 && y > 0.0
    ensures x * y > 0.0
  {
  }

  lemma Share(traveled: real, meters: real, strideM: real, ppm: real)
    requires ppm > 0.0 && meters * ppm <= traveled < meters * ppm + strideM * ppm
    ensures meters <= traveled / ppm < meters + strideM
  {
    assert meters * ppm + strideM * ppm == (meters + strideM) * ppm;
    Quotient(traveled, ppm, meters);
    Quotient(traveled, ppm, meters + strideM);
  }

  // -------------------------------------------------------------- cruise, crawl, stop

  /** Cruise up to position k, crawl from there on. */
  predicate TwoPhases(p: Plan, speeds: seq<real>, k: nat) {
    && 0 < k <= |speeds|
    && (forall i :: 0 <= i < k ==> speeds[i] == Signed(p, p.cruise))
    && (forall i :: k <= i < |speeds| ==> speeds[i] == Signed(p, CRAWL))
  }

  ghost predicate Monotone(p: Plan, env: nat -> Sample) {
    forall i: nat :: NotBack(p, env, i)
  }

  predicate NotBack(p: Plan, env: nat -> Sample, i: nat) { Travel(p, env(i)) <= Travel(p, env(i + 1)) }

  lemma {:induction false} LoopPhases(p: Plan, env: nat -> Sample, i: nat, traveled: real, speeds: seq<real>,
                                      vel: V.Vel, k: nat)
    returns (turn: nat)
    requires Paced(env) && Monotone(p, env) && TwoPhases(p, speeds, k)
    requires k < |speeds| ==> Planned(p, Travel(p, env(i))) != Some(p.cruise) || p.cruise == CRAWL
    ensures TwoPhases(p, Loop(p, env, i, traveled, speeds, vel).speeds, turn)
    decreases PassesLeft(p, env(i).clock)
  {
    turn := k;
    var pass := Pass(p, env(i), traveled, speeds[|speeds| - 1], vel);
    hide V.Run;
    if pass.Go? {
      assert PacedAt(env, i);
      TurnCounts(p.deadline, PERIOD, env(i).clock, env(i + 1).clock);
      assert NotBack(p, env, i);
      var next := if k < |speeds| || Planned(p, pass.traveled) != Some(p.cruise) then k else k + 1;
      turn := LoopPhases(p, env, i + 1, pass.traveled, speeds + [pass.speed], pass.vel, next);
    }
  }

  /** While the encoders do not run backward, the speeds written are cruise, then
      crawl, then the stop. */
  lemma CruiseCrawlStop(r: Request, env: nat -> Sample, vel: V.Vel)
    requires Paced(env) && !Stale(r) && Monotone(PlanOf(r), env)
    ensures var speeds := Speeds(r, env, vel);
            speeds[|speeds| - 1] == 0.0 && exists turn {:trigger TwoPhases(PlanOf(r), speeds[..|speeds| - 1], turn)} ::
              TwoPhases(PlanOf(r), speeds[..|speeds| - 1], turn)
  {
    var p := PlanOf(r);
    var first := Signed(p, p.cruise);
    var turn := LoopPhases(p, env, 0, 0.0, [first], V.Commanded(vel, first, 0.0, r.setAt), 1);
    var log := Report0(r, env, vel).speeds;
    assert (log + [0.0])[..|log|] == log;
  }

  // ----------------------------------------------------------- direction symmetry

  function MirrorVel(v: V.Vel): V.Vel { v.(lin := -v.lin) }

  function MirrorEvent(e: V.Event): V.Event {
    match e
    case Set(at, lin, ang) => V.Set(at, -lin, ang)
    case Refresh(at, expected, lin) => V.Refresh(at, -expected, -lin)
    case Tick(at, ok) => e
  }

  function MirrorEvents(events: seq<V.Event>): (m: seq<V.Event>)
    ensures |m| == |events|
  {
    seq(|events|, i requires 0 <= i < |events| => MirrorEvent(events[i]))
  }

  function Negated(xs: seq<real>): (m: seq<real>)
    ensures |m| == |xs|
  {
    seq(|xs|, i requires 0 <= i < |xs| => -xs[i])
  }

  /** The other threads' reversed commands reverse the shared velocity. */
  lemma {:induction false} MirrorRun(v: V.Vel, events: seq<V.Event>)
    ensures V.Run(MirrorVel(v), MirrorEvents(events)) == MirrorVel(V.Run(v, events))
    decreases |events|
  {
    if events != [] {
      var n := |events| - 1;
      MirrorRun(v, events[..n]);
      assert MirrorEvents(events)[..n] == MirrorEvents(events[..n]);
      hide V.Run, MirrorEvents;
      MirrorNext(V.Run(v, events[..n]), events[n]);
    }
  }

  lemma MirrorNext(v: V.Vel, e: V.Event)
    ensures V.Next(MirrorVel(v), MirrorEvent(e)) == MirrorVel(V.Next(v, e))
  {
  }

  /** The world of a drive whose encoders and rivals run the other way. */
  ghost predicate Mirrored(p: Plan, q: Plan, env: nat -> Sample, mirror: nat -> Sample) {
    && q == p.(backward := !p.backward, startLeft := q.startLeft, startRight := q.startRight)
    && forall i: nat ::
         && mirror(i) == env(i).(left := mirror(i).left, right := mirror(i).right,
                                 others := MirrorEvents(env(i).others))
         && mirror(i).left - q.startLeft == -(env(i).left - p.startLeft)
         && mirror(i).right - q.startRight == -(env(i).right - p.startRight)
  }

  lemma NegatedSnoc(xs: seq<real>, x: real)
    ensures Negated(xs + [x]) == Negated(xs) + [-x]
  {
  }

  function MirrorTurn(turn: Turn): Turn {
    match turn
    case Leave(exit, taken, traveled, vel) => Leave(exit, taken, traveled, MirrorVel(vel))
    case Go(traveled, speed, vel) => Go(traveled, -speed, MirrorVel(vel))
  }

  lemma PassMirrors(p: Plan, q: Plan, s: Sample, m: Sample, traveled: real, mine: real, vel: V.Vel)
    requires q == p.(backward := !p.backward, startLeft := q.startLeft, startRight := q.startRight)
    requires m == s.(left := m.left, right := m.right, others := MirrorEvents(s.others))
    requires m.left - q.startLeft == -(s.left - p.startLeft) && m.right - q.startRight == -(s.right - p.startRight)
    ensures Pass(q, m, traveled, -mine, MirrorVel(vel)) == MirrorTurn(Pass(p, s, traveled, mine, vel))
  {
    MirrorRun(vel, s.others);
    assert Travel(q, m) == Travel(p, s);
    hide V.Run, MirrorEvents, Travel;
  }

  lemma {:induction false} LoopMirrors(p: Plan, q: Plan, env: nat -> Sample, mirror: nat -> Sample, i: nat,
                                       traveled: real, speeds: seq<real>, vel: V.Vel)
    requires Paced(env) && Paced(mirror) && Mirrored(p, q, env, mirror) && speeds != []
    ensures var a := Loop(p, env, i, traveled, speeds, vel);
            Loop(q, mirror, i, traveled, Negated(speeds), MirrorVel(vel))
              == a.(speeds := Negated(a.speeds), vel := MirrorVel(a.vel))
    decreases PassesLeft(p, env(i).clock)
  {
    hide TurnsLeft, V.Run, MirrorEvents;
    var mine := speeds[|speeds| - 1];
    var pass := Pass(p, env(i), traveled, mine, vel);
    assert mirror(i).clock == env(i).clock;
    PassMirrors(p, q, env(i), mirror(i), traveled, mine, vel);
    LoopTurns(p, env, i, traveled, speeds, vel);
    assert Negated(speeds)[|speeds| - 1] == -mine;
    LoopTurns(q, mirror, i, traveled, Negated(speeds), MirrorVel(vel));
    if pass.Go? {
      assert PacedAt(env, i);
      TurnCounts(p.deadline, PERIOD, env(i).clock, env(i + 1).clock);
      NegatedSnoc(speeds, pass.speed);
      hide Pass, PassesLeft, Negated, MirrorVel, Mirrored, Loop;
      LoopMirrors(p, q, env, mirror, i + 1, pass.traveled, speeds + [pass.speed], pass.vel);
    } else {
      hide Pass, PassesLeft, Negated, MirrorVel, Mirrored, Loop;
    }
  }

  lemma LoopTurns(p: Plan, env: nat -> Sample, i: nat, traveled: real, speeds: seq<real>, vel: V.Vel)
    requires Paced(env) && speeds != []
    ensures Loop(p, env, i, traveled, speeds, vel) ==
            match Pass(p, env(i), traveled, speeds[|speeds| - 1], vel)
            case Leave(exit, taken, t, v) => Report(exit, i + taken, t, speeds, v)
            case Go(t, speed, v) => Loop(p, env, i + 1, t, speeds + [speed], v)
  {
    hide Pass, PassesLeft;
  }

  lemma MirrorStart(v: V.Vel, lin: real, now: real)
    ensures V.Commanded(MirrorVel(v), -lin, 0.0, now) == MirrorVel(V.Commanded(v, lin, 0.0, now))
    ensures Negated([lin]) == [-lin]
  {
  }

  /** The request that a mirrored world answers alike. */
  predicate Reversed(r: Request, back: Request) {
    back == r.(backward := !r.backward, startLeft := back.startLeft, startRight := back.startRight)
  }

  lemma ReportMirrors(r: Request, back: Request, env: nat -> Sample, mirror: nat -> Sample, vel: V.Vel)
    requires Paced(env) && Paced(mirror) && Mirrored(PlanOf(r), PlanOf(back), env, mirror) && Reversed(r, back)
    ensures var a := Report0(r, env, vel);
            Report0(back, mirror, MirrorVel(vel)) == a.(speeds := Negated(a.speeds), vel := MirrorVel(a.vel))
  {
    var p, q := PlanOf(r), PlanOf(back);
    var first := Signed(p, p.cruise);
    assert Signed(q, q.cruise) == -first;
    assert q == p.(backward := !p.backward, startLeft := q.startLeft, startRight := q.startRight);
    MirrorStart(vel, first, r.setAt);
    hide Loop, Bounded, Mirrored, Negated, MirrorVel, V.Commanded, PlanOf, Reversed;
    LoopMirrors(p, q, env, mirror, 0, 0.0, [first], V.Commanded(vel, first, 0.0, r.setAt));
  }

  /** Direction symmetry: reversed encoder deltas and reversed overrides turn a
      forward drive into a backward one with the same outcome and exactly the negated
      speeds. */
  lemma DirectionSymmetry(r: Request, back: Request, env: nat -> Sample, mirror: nat -> Sample, vel: V.Vel)
    requires Paced(env) && Paced(mirror) && Mirrored(PlanOf(r), PlanOf(back), env, mirror) && Reversed(r, back)
    ensures OutcomeOf(back, mirror, MirrorVel(vel)) == OutcomeOf(r, env, vel)
    ensures Speeds(back, mirror, MirrorVel(vel)) == Negated(Speeds(r, env, vel))
  {
    assert PlanOf(back).target == PlanOf(r).target;
    ReportMirrors(r, back, env, mirror, vel);
    hide Report0, Mirrored, MirrorVel, Bounded, PlanOf;
    NegatedSnoc(Report0(r, env, vel).speeds, 0.0);
  }
}
