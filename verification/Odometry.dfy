/** Mileage from raw encoder counts: domain/odometry.OdometryAccumulator against the
    readings since the chassis last reconnected. */
module Odometry {

  import opened Wrappers

  datatype Reading = Reading(left: int, right: int, at: real)

  datatype Config = Config(maxDelta: int, reconnectGapS: real)

  datatype Odo = Odo(mileage: real, left: int, right: int, lastUpdate: real, prev: Option<(int, int)>)

  const FRESH: Odo := Odo(0.0, 0, 0, 0.0, None)

  function Abs(x: int): nat { if x < 0 then -x else x }

  // -------------------------------------------------------------------- one reading

  /** The chassis counts as having reconnected between two reading times. */
  predicate Gap(cfg: Config, earlier: real, later: real) {
    earlier > 0.0 && later - earlier > cfg.reconnectGapS
  }

  predicate Accepted(cfg: Config, l: int, r: int, reading: Reading) {
    Abs(reading.left - l) < cfg.maxDelta && Abs(reading.right - r) < cfg.maxDelta
  }

  /** Twice the movement of the centre of the axle, in pulses. */
  function Doubled(l: int, r: int, reading: Reading): int {
    reading.left - l + (reading.right - r)
  }

  function Updated(cfg: Config, o: Odo, reading: Reading): Odo {
    var reconnected := Gap(cfg, o.lastUpdate, reading.at);
    var mileage := if reconnected then 0.0 else o.mileage;
    var prev := if reconnected then None else o.prev;
    var step := match prev
      case None => 0.0
      case Some(p) => if Accepted(cfg, p.0, p.1, reading) then Abs(Doubled(p.0, p.1, reading)) as real / 2.0 else 0.0;
    Odo(mileage + step, reading.left, reading.right, reading.at, Some((reading.left, reading.right)))
  }

  class OdometryAccumulator {
    const cfg: Config
    var mileagePulses: real
    var left: int
    var right: int
    var lastUpdate: real
    var prev: Option<(int, int)>

    function State(): Odo
      reads this
    {
      Odo(mileagePulses, left, right, lastUpdate, prev)
    }

    constructor (cfg: Config)
      ensures this.cfg == cfg && State() == FRESH
    {
      this.cfg := cfg;
      mileagePulses, left, right, lastUpdate, prev := 0.0, 0, 0, 0.0, None;
    }

    method Update(left: int, right: int, now: real)
      modifies this
      ensures State() == Updated(cfg, old(State()), Reading(left, right, now))
    {
      if lastUpdate > 0.0 && now - lastUpdate > cfg.reconnectGapS {
        mileagePulses, prev := 0.0, None;
      }
      if prev.Some? {
        var dl, dr := left - prev.value.0, right - prev.value.1;
        if Abs(dl) < cfg.maxDelta && Abs(dr) < cfg.maxDelta {
          var mean := (dl + dr) as real / 2.0;
          mileagePulses := mileagePulses + if mean < 0.0 then -mean else mean;
        }
      }
      prev := Some((left, right));
      this.left, this.right, lastUpdate := left, right, now;
    }
  }

  // -------------------------------------------------------------------------- runs

  function Run(cfg: Config, history: seq<Reading>): Odo {
    if history == [] then FRESH
    else Updated(cfg, Run(cfg, history[..|history| - 1]), history[|history| - 1])
  }

  predicate RestartsAt(cfg: Config, history: seq<Reading>, i: int)
    requires 0 < i < |history|
  {
    history[i - 1].at > 0.0 && history[i].at - history[i - 1].at > cfg.reconnectGapS
  }

  /** Where the readings since the last reconnect begin. */
  function LastRestart(cfg: Config, history: seq<Reading>): (k: nat)
    ensures k <= |history| && (history != [] ==> k < |history|)
    ensures k > 0 ==> RestartsAt(cfg, history, k)
    ensures forall i :: k < i < |history| ==> !RestartsAt(cfg, history, i)
  {
    var n := |history| - 1;
    if n <= 0 then 0
    else if RestartsAt(cfg, history, n) then n
    else
      var k := LastRestart(cfg, history[..n]);
      assert forall i :: 0 < i < n ==> RestartsAt(cfg, history, i) == RestartsAt(cfg, history[..n], i);
      k
  }

  predicate StepAccepted(cfg: Config, rs: seq<Reading>, i: int)
    requires 0 < i < |rs|
  {
    Abs(rs[i].left - rs[i - 1].left) < cfg.maxDelta && Abs(rs[i].right - rs[i - 1].right) < cfg.maxDelta
  }

  function StepDoubled(rs: seq<Reading>, i: int): int
    requires 0 < i < |rs|
  {
    rs[i].left - rs[i - 1].left + (rs[i].right - rs[i - 1].right)
  }

  /** Twice the sum of the centre's absolute movements over the accepted steps. */
  function DoubledPath(cfg: Config, rs: seq<Reading>): nat {
    var n := |rs| - 1;
    if n <= 0 then 0
    else DoubledPath(cfg, rs[..n]) + if StepAccepted(cfg, rs, n) then Abs(StepDoubled(rs, n)) else 0
  }

  function AcceptedSteps(cfg: Config, rs: seq<Reading>): nat {
    var n := |rs| - 1;
    if n <= 0 then 0 else AcceptedSteps(cfg, rs[..n]) + if StepAccepted(cfg, rs, n) then 1 else 0
  }

  lemma LastReadingKept(cfg: Config, history: seq<Reading>)
    requires history != []
    ensures var o, last := Run(cfg, history), history[|history| - 1];
            && o.left == last.left && o.right == last.right && o.lastUpdate == last.at
            && o.prev == Some((last.left, last.right))
  {
  }

  /** The mileage is the sum of the centre's absolute movements over the accepted steps
      since the last reconnect, whatever came before it. */
  lemma {:induction false} MileageIsPathSinceRestart(cfg: Config, history: seq<Reading>)
    ensures Run(cfg, history).mileage == DoubledPath(cfg, history[LastRestart(cfg, history)..]) as real / 2.0
    decreases |history|
  {
    if |history| > 1 {
      var n := |history| - 1;
      var before := history[..n];
      MileageIsPathSinceRestart(cfg, before);
      LastReadingKept(cfg, before);
      var k, rs := LastRestart(cfg, history), history[LastRestart(cfg, history)..];
      if k < n {
        assert rs[..|rs| - 1] == before[k..];
      }
    }
  }

  /** The mileage never exceeds maxDelta for each accepted step. */
  lemma {:induction false} PathIsBounded(cfg: Config, rs: seq<Reading>)
    ensures DoubledPath(cfg, rs) <= 2 * (cfg.maxDelta * AcceptedSteps(cfg, rs))
    decreases |rs|
  {
    var n := |rs| - 1;
    if n > 0 {
      PathIsBounded(cfg, rs[..n]);
      if StepAccepted(cfg, rs, n) {
        StepIsBounded(cfg, rs, n);
      }
      hide StepAccepted, StepDoubled;
      OneMore(cfg.maxDelta, AcceptedSteps(cfg, rs[..n]));
    }
  }

  lemma OneMore(m: int, n: nat)
    ensures m * (n + 1) == m * n + m
  {
  }

  lemma StepIsBounded(cfg: Config, rs: seq<Reading>, i: int)
    requires 0 < i < |rs| && StepAccepted(cfg, rs, i)
    ensures Abs(StepDoubled(rs, i)) <= 2 * cfg.maxDelta
  {
  }

  // --------------------------------------------------------------- net displacement

  function DoubledNet(rs: seq<Reading>): int {
    if rs == [] then 0 else
    var last := rs[|rs| - 1];
    last.left - rs[0].left + (last.right - rs[0].right)
  }

  predicate AllAccepted(cfg: Config, rs: seq<Reading>) {
    forall i :: 0 < i < |rs| ==> StepAccepted(cfg, rs, i)
  }

  predicate NeverBack(rs: seq<Reading>) { forall i :: 0 < i < |rs| ==> StepDoubled(rs, i) >= 0 }

  predicate NeverForward(rs: seq<Reading>) { forall i :: 0 < i < |rs| ==> StepDoubled(rs, i) <= 0 }

  lemma {:induction false} PathAgainstNet(cfg: Config, rs: seq<Reading>)
    requires AllAccepted(cfg, rs)
    ensures DoubledPath(cfg, rs) >= Abs(DoubledNet(rs))
    ensures DoubledPath(cfg, rs) == DoubledNet(rs) <==> NeverBack(rs)
    ensures DoubledPath(cfg, rs) == -DoubledNet(rs) <==> NeverForward(rs)
    decreases |rs|
  {
    var n := |rs| - 1;
    if n > 0 {
      var before := rs[..n];
      assert forall i :: 0 < i < n ==> StepAccepted(cfg, before, i) == StepAccepted(cfg, rs, i);
      assert forall i :: 0 < i < n ==> StepDoubled(before, i) == StepDoubled(rs, i);
      PathAgainstNet(cfg, before);
      hide Accepted;
      assert NeverBack(rs) <==> NeverBack(before) && StepDoubled(rs, n) >= 0;
      assert NeverForward(rs) <==> NeverForward(before) && StepDoubled(rs, n) <= 0;
    }
  }

  /** Mileage in bounds: at most maxDelta per accepted step; with no step rejected it is
      at least the net movement of the centre since the last reconnect, and equal to it
      exactly when the centre never turned back. */
  lemma MileageBounds(cfg: Config, history: seq<Reading>)
    ensures var rs, mileage := history[LastRestart(cfg, history)..], Run(cfg, history).mileage;
            && 0.0 <= mileage <= (cfg.maxDelta * AcceptedSteps(cfg, rs)) as real
            && (AllAccepted(cfg, rs) ==>
                  && mileage >= Abs(DoubledNet(rs)) as real / 2.0
                  && (mileage == Abs(DoubledNet(rs)) as real / 2.0 <==> NeverBack(rs) || NeverForward(rs)))
  {
    var rs := history[LastRestart(cfg, history)..];
    MileageIsPathSinceRestart(cfg, history);
    PathIsBounded(cfg, rs);
    if AllAccepted(cfg, rs) {
      PathAgainstNet(cfg, rs);
    }
  }

  // ---------------------------------------------------------------------- reconnect

  /** The state after one more reading is that of a fresh accumulator fed only this
      reading, exactly when the code sees a gap or there was no mileage to forget. */
  lemma ForgetsExactly(cfg: Config, history: seq<Reading>, r: Reading)
    requires history != []
    ensures var last := history[|history| - 1];
            var (dl, dr) := (r.left - last.left, r.right - last.right);
            Run(cfg, history + [r]) == Run(cfg, [r])
            <==> || (last.at > 0.0 && r.at - last.at > cfg.reconnectGapS)
                 || (&& Run(cfg, history).mileage == 0.0
                     && (Abs(dl) < cfg.maxDelta && Abs(dr) < cfg.maxDelta ==> dl + dr == 0))
  {
    RunMore(cfg, history, r);
    RunMore(cfg, [], r);
    assert [] + [r] == [r];
    LastReadingKept(cfg, history);
    MileageIsPathSinceRestart(cfg, history);
  }

  lemma RunMore(cfg: Config, history: seq<Reading>, r: Reading)
    ensures Run(cfg, history + [r]) == Updated(cfg, Run(cfg, history), r)
  {
    assert (history + [r])[..|history|] == history;
  }

  /** A reconnect wipes the past: whatever was read before the gap, the state is that of
      a fresh accumulator fed only what came after it. */
  lemma {:induction false} ReconnectForgets(cfg: Config, before: seq<Reading>, after: seq<Reading>)
    requires before != [] && after != []
    requires before[|before| - 1].at > 0.0 && after[0].at - before[|before| - 1].at > cfg.reconnectGapS
    ensures Run(cfg, before + after) == Run(cfg, after)
    decreases |after|
  {
    var n := |after| - 1;
    assert after == after[..n] + [after[n]];
    if n == 0 {
      ForgetsExactly(cfg, before, after[0]);
    } else {
      ReconnectForgets(cfg, before, after[..n]);
      RunMore(cfg, before + after[..n], after[n]);
      RunMore(cfg, after[..n], after[n]);
      assert before + after == before + after[..n] + [after[n]];
    }
  }

  /** A gap that follows readings stamped 0 is not seen: the mileage from before it is
      kept and the jump in the counts is added. */
  lemma GapAfterTimeZeroIsMissed(cfg: Config)
    requires cfg.maxDelta == 3000 && cfg.reconnectGapS == 5.0
    ensures var before, after := [Reading(0, 0, 0.0), Reading(100, 100, 0.0)], [Reading(0, 0, 60.0)];
            && after[0].at - before[1].at > cfg.reconnectGapS
            && Run(cfg, before + after).mileage == 200.0
            && Run(cfg, after).mileage == 0.0
  {
    var a, b, c := Reading(0, 0, 0.0), Reading(100, 100, 0.0), Reading(0, 0, 60.0);
    RunMore(cfg, [], a);
    RunMore(cfg, [a], b);
    RunMore(cfg, [a, b], c);
    RunMore(cfg, [], c);
    assert [] + [a] == [a] && [a] + [b] == [a, b] && [a, b] + [c] == [a, b, c] && [] + [c] == [c];
  }
}
