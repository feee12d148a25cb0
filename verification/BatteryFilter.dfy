/** Pack-voltage smoothing: domain/battery.MedianVoltageFilter against the whole
    history of readings. */
module BatteryFilter {

  datatype Reading = Reading(at: real, volts: real)

  datatype Config = Config(windowS: real, recomputeS: real, minValid: real, maxValid: real)

  datatype Filter = Filter(window: seq<Reading>, smoothed: real, smoothedAt: real, lastReading: real)

  const FRESH: Filter := Filter([], 0.0, 0.0, 0.0)

  // -------------------------------------------------------------------- selection

  function Newer(window: seq<Reading>, cutoff: real): seq<Reading> {
    if window == [] then [] else
    var n := |window| - 1;
    Newer(window[..n], cutoff) + if window[n].at > cutoff then [window[n]] else []
  }

  predicate InRange(cfg: Config, r: Reading) { cfg.minValid < r.volts < cfg.maxValid }

  function ValidOf(cfg: Config, window: seq<Reading>): (valid: seq<Reading>)
    ensures forall r <- valid :: InRange(cfg, r)
  {
    if window == [] then [] else
    var n := |window| - 1;
    ValidOf(cfg, window[..n]) + if InRange(cfg, window[n]) then [window[n]] else []
  }

  function Volts(rs: seq<Reading>): (xs: seq<real>)
    ensures |xs| == |rs|
  {
    seq(|rs|, i requires 0 <= i < |rs| => rs[i].volts)
  }

  // ---------------------------------------------------------------------- sorting

  predicate IsSorted(xs: seq<real>) { |xs| <= 1 || (xs[0] <= xs[1] && IsSorted(xs[1..])) }

  function Insert(x: real, xs: seq<real>): (ys: seq<real>)
    ensures |ys| == |xs| + 1 && (ys[0] == x || (xs != [] && ys[0] == xs[0]))
  {
    if xs == [] || x <= xs[0] then [x] + xs else [xs[0]] + Insert(x, xs[1..])
  }

  function Sort(xs: seq<real>): (ys: seq<real>)
    ensures |ys| == |xs|
  {
    if xs == [] then [] else Insert(xs[0], Sort(xs[1..]))
  }

  lemma {:induction false} InsertSorts(x: real, xs: seq<real>)
    requires IsSorted(xs)
    ensures IsSorted(Insert(x, xs)) && multiset(Insert(x, xs)) == multiset(xs) + multiset{x}
    decreases |xs|
  {
    if xs == [] || x <= xs[0] {
      assert ([x] + xs)[1..] == xs;
    } else {
      var rest := Insert(x, xs[1..]);
      InsertSorts(x, xs[1..]);
      assert xs == [xs[0]] + xs[1..];
      assert ([xs[0]] + rest)[1..] == rest;
    }
  }

  /** Sorting orders the values and keeps exactly them. */
  lemma {:induction false} SortSorts(xs: seq<real>)
    ensures IsSorted(Sort(xs)) && multiset(Sort(xs)) == multiset(xs)
    decreases |xs|
  {
    if xs != [] {
      SortSorts(xs[1..]);
      InsertSorts(xs[0], Sort(xs[1..]));
      assert xs == [xs[0]] + xs[1..];
    }
  }

  lemma {:induction false} SortedAt(xs: seq<real>, i: nat, j: nat)
    requires IsSorted(xs) && i <= j < |xs|
    ensures xs[i] <= xs[j]
    decreases |xs|
  {
    if i > 0 {
      SortedAt(xs[1..], i - 1, j - 1);
    } else if j > 0 {
      SortedAt(xs[1..], 0, j - 1);
    }
  }

  function Median(xs: seq<real>): real
    requires xs != []
  {
    Sort(xs)[|xs| / 2]
  }

  // -------------------------------------------------------------------- one reading

  function OnlyPositive(r: Reading): seq<Reading> { if r.volts > 0.0 then [r] else [] }

  function Pruned(cfg: Config, f: Filter, r: Reading): seq<Reading> {
    Newer(f.window + OnlyPositive(r), r.at - cfg.windowS)
  }

  /** This reading makes the displayed value be recomputed. */
  predicate Recomputes(cfg: Config, f: Filter, r: Reading) {
    r.at - f.smoothedAt >= cfg.recomputeS && ValidOf(cfg, Pruned(cfg, f, r)) != []
  }

  function Added(cfg: Config, f: Filter, r: Reading): Filter {
    var window := Pruned(cfg, f, r);
    if Recomputes(cfg, f, r)
    then Filter(window, Median(Volts(ValidOf(cfg, window))), r.at, r.at)
    else Filter(window, f.smoothed, f.smoothedAt, r.at)
  }

  class MedianVoltageFilter {
    const cfg: Config
    var window: seq<Reading>
    var smoothed: real
    var smoothedAt: real
    var lastReading: real

    function State(): Filter
      reads this
    {
      Filter(window, smoothed, smoothedAt, lastReading)
    }

    constructor (cfg: Config)
      ensures this.cfg == cfg && State() == FRESH
    {
      this.cfg := cfg;
      window, smoothed, smoothedAt, lastReading := [], 0.0, 0.0, 0.0;
    }

    method Add(volts: real, now: real)
      modifies this
      ensures State() == Added(cfg, old(State()), Reading(now, volts))
    {
      hide Newer, ValidOf, Sort, Volts;
      lastReading := now;
      if volts > 0.0 {
        window := window + [Reading(now, volts)];
      } else {
        assert window + [] == window;
      }
      window := Newer(window, now - cfg.windowS);
      if now - smoothedAt >= cfg.recomputeS {
        var valid := Sort(Volts(ValidOf(cfg, window)));
        if valid != [] {
          smoothed := valid[|valid| / 2];
          smoothedAt := now;
        }
      }
    }
  }

  // ------------------------------------------------------------------------- runs

  function Run(cfg: Config, history: seq<Reading>): Filter {
    if history == [] then FRESH else Added(cfg, Run(cfg, history[..|history| - 1]), history[|history| - 1])
  }

  function Positive(history: seq<Reading>): seq<Reading> {
    if history == [] then [] else
    var n := |history| - 1;
    Positive(history[..n]) + OnlyPositive(history[n])
  }

  predicate InOrder(history: seq<Reading>) {
    forall i :: 0 < i < |history| ==> history[i - 1].at <= history[i].at
  }

  lemma NewerOfMore(window: seq<Reading>, r: Reading, cutoff: real)
    ensures Newer(window + [r], cutoff) == Newer(window, cutoff) + if r.at > cutoff then [r] else []
  {
    assert (window + [r])[..|window|] == window;
  }

  lemma {:induction false} NewerTwice(window: seq<Reading>, early: real, late: real)
    requires early <= late
    ensures Newer(Newer(window, early), late) == Newer(window, late)
    decreases |window|
  {
    if window != [] {
      var n := |window| - 1;
      NewerTwice(window[..n], early, late);
      if window[n].at > early {
        NewerOfMore(Newer(window[..n], early), window[n], late);
      } else {
        assert Newer(window[..n], early) + [] == Newer(window[..n], early);
      }
    }
  }

  lemma PruneStep(kept: seq<Reading>, more: seq<Reading>, early: real, late: real)
    requires early <= late && |more| <= 1
    ensures Newer(Newer(kept, early) + more, late) == Newer(kept + more, late)
  {
    NewerTwice(kept, early, late);
    if more == [] {
      assert Newer(kept, early) + more == Newer(kept, early) && kept + more == kept;
    } else {
      assert more == [more[0]];
      NewerOfMore(Newer(kept, early), more[0], late);
      NewerOfMore(kept, more[0], late);
    }
  }

  /** The window that is pruned reading by reading is the whole history of positive
      readings cut off once, at the window length before the last reading. */
  lemma {:induction false} WindowIsHistory(cfg: Config, history: seq<Reading>)
    requires InOrder(history) && history != []
    ensures Run(cfg, history).window == Newer(Positive(history), history[|history| - 1].at - cfg.windowS)
    decreases |history|
  {
    hide *;
    var n := |history| - 1;
    var r, before := history[n], history[..n];
    assert history == before + [r];
    RunMore(cfg, before, r);
    PositiveMore(before, r);
    PrunedWindow(cfg, Run(cfg, before), r);
    if n == 0 {
      assert before == [];
      NoHistory(cfg);
    } else {
      Earlier(history, n);
      WindowIsHistory(cfg, before);
      PruneStep(Positive(before), OnlyPositive(r), before[n - 1].at - cfg.windowS, r.at - cfg.windowS);
    }
  }

  lemma Earlier(history: seq<Reading>, n: nat)
    requires InOrder(history) && 0 < n < |history|
    ensures InOrder(history[..n]) && history[n - 1].at <= history[n].at && |OnlyPositive(history[n])| <= 1
  {
  }

  lemma RunMore(cfg: Config, history: seq<Reading>, r: Reading)
    ensures Run(cfg, history + [r]) == Added(cfg, Run(cfg, history), r)
  {
    assert (history + [r])[..|history|] == history;
    hide Added;
  }

  lemma PositiveMore(history: seq<Reading>, r: Reading)
    ensures Positive(history + [r]) == Positive(history) + OnlyPositive(r)
  {
    assert (history + [r])[..|history|] == history;
  }

  lemma PrunedWindow(cfg: Config, f: Filter, r: Reading)
    ensures Added(cfg, f, r).window == Newer(f.window + OnlyPositive(r), r.at - cfg.windowS)
  {
    hide Newer, Recomputes, ValidOf;
  }

  lemma NoHistory(cfg: Config)
    ensures Run(cfg, []).window == [] && Positive([]) == []
  {
  }

  lemma MedianIsOne(xs: seq<real>)
    requires xs != []
    ensures Median(xs) in xs
  {
    SortSorts(xs);
    assert Median(xs) in multiset(Sort(xs));
  }

  /** The displayed value is 0 before any valid reading, else strictly in range. */
  lemma {:induction false} SmoothedInRange(cfg: Config, history: seq<Reading>)
    ensures var v := Run(cfg, history).smoothed; v == 0.0 || cfg.minValid < v < cfg.maxValid
    decreases |history|
  {
    if history != [] {
      var n := |history| - 1;
      var f, r := Run(cfg, history[..n]), history[n];
      SmoothedInRange(cfg, history[..n]);
      if Recomputes(cfg, f, r) {
        var valid := ValidOf(cfg, Pruned(cfg, f, r));
        hide Median;
        MedianIsOne(Volts(valid));
        var i :| 0 <= i < |valid| && Volts(valid)[i] == Median(Volts(valid));
        assert InRange(cfg, valid[i]);
      }
    }
  }

  /** When the value was recomputed, in order. */
  function RecomputeTimes(cfg: Config, history: seq<Reading>): seq<real> {
    if history == [] then [] else
    var n := |history| - 1;
    RecomputeTimes(cfg, history[..n])
    + if Recomputes(cfg, Run(cfg, history[..n]), history[n]) then [history[n].at] else []
  }

  /** Recomputes are at least recomputeS apart, the first at least that after time 0. */
  lemma {:induction false} RecomputesAreSpaced(cfg: Config, history: seq<Reading>)
    ensures var times := RecomputeTimes(cfg, history);
            && (forall i :: 0 < i < |times| ==> times[i] - times[i - 1] >= cfg.recomputeS)
            && (times != [] ==> times[0] >= cfg.recomputeS)
            && Run(cfg, history).smoothedAt == if times == [] then 0.0 else times[|times| - 1]
    decreases |history|
  {
    hide Recomputes, Pruned, Median;
    if history != [] {
      var n := |history| - 1;
      RecomputesAreSpaced(cfg, history[..n]);
      RecomputeWaits(cfg, Run(cfg, history[..n]), history[n]);
    }
  }

  lemma RecomputeWaits(cfg: Config, f: Filter, r: Reading)
    ensures Recomputes(cfg, f, r) ==> r.at - f.smoothedAt >= cfg.recomputeS
  {
  }

  // -------------------------------------------------- selection and order, spelled out

  /** What the three selections keep, reading by reading and in order. */
  lemma SelectionsKeep(cfg: Config, rs: seq<Reading>, r: Reading, cutoff: real)
    ensures Newer(rs + [r], cutoff) == if r.at > cutoff then Newer(rs, cutoff) + [r] else Newer(rs, cutoff)
    ensures Positive(rs + [r]) == if r.volts > 0.0 then Positive(rs) + [r] else Positive(rs)
    ensures ValidOf(cfg, rs + [r]) ==
            if cfg.minValid < r.volts < cfg.maxValid then ValidOf(cfg, rs) + [r] else ValidOf(cfg, rs)
  {
    assert (rs + [r])[..|rs|] == rs;
  }

  predicate Ascending(xs: seq<real>) { forall i, j :: 0 <= i < j < |xs| ==> xs[i] <= xs[j] }

  lemma {:induction false} SortedAscends(xs: seq<real>)
    ensures Ascending(Sort(xs))
  {
    SortSorts(xs);
    hide Sort, IsSorted;
    forall i, j | 0 <= i < j < |xs| ensures Sort(xs)[i] <= Sort(xs)[j] {
      SortedAt(Sort(xs), i, j);
    }
  }

  /** There is only one ascending arrangement of the same values. */
  lemma {:induction false} OneArrangement(xs: seq<real>, ys: seq<real>)
    requires Ascending(xs) && Ascending(ys) && multiset(xs) == multiset(ys)
    ensures xs == ys
    decreases |xs|
  {
    SameCount(xs, ys);
    if xs != [] {
      FirstAlike(xs, ys);
      FirstAlike(ys, xs);
      assert xs == [xs[0]] + xs[1..] && ys == [ys[0]] + ys[1..];
      assert multiset(xs[1..]) == multiset(xs) - multiset{xs[0]};
      assert multiset(ys[1..]) == multiset(ys) - multiset{ys[0]};
      OneArrangement(xs[1..], ys[1..]);
    }
  }

  lemma SameCount(xs: seq<real>, ys: seq<real>)
    requires multiset(xs) == multiset(ys)
    ensures |xs| == |ys|
  {
    assert |multiset(xs)| == |xs| && |multiset(ys)| == |ys|;
  }

  lemma FirstAlike(xs: seq<real>, ys: seq<real>)
    requires xs != [] && ys != [] && Ascending(xs) && multiset(xs) == multiset(ys)
    ensures xs[0] <= ys[0]
  {
    assert ys[0] in multiset(ys);
    assert ys[0] in xs;
  }

  /** The median is the upper middle value of the readings in ascending order. */
  lemma MedianIsMiddle(xs: seq<real>, ys: seq<real>)
    requires xs != [] && Ascending(ys) && multiset(ys) == multiset(xs)
    ensures |ys| == |xs| && Median(xs) == ys[|xs| / 2]
  {
    SortedAscends(xs);
    SortSorts(xs);
    OneArrangement(Sort(xs), ys);
  }

  lemma {:induction false} SomeValid(cfg: Config, window: seq<Reading>)
    ensures ValidOf(cfg, window) != [] <==> exists r :: r in window && cfg.minValid < r.volts < cfg.maxValid
    decreases |window|
  {
    if window != [] {
      var n := |window| - 1;
      SomeValid(cfg, window[..n]);
      assert window == window[..n] + [window[n]];
      if InRange(cfg, window[n]) {
        assert window[n] in window;
      }
    }
  }

  /** One reading as the gauge sees it: when the last recompute is at least recomputeS
      back and the pruned window has any in-range reading, the value becomes the upper
      middle of the in-range voltages, as of now; otherwise it stays. */
  lemma RecomputesWhenDue(cfg: Config, f: Filter, r: Reading, ys: seq<real>)
    requires Ascending(ys) && multiset(ys) == multiset(Volts(ValidOf(cfg, Added(cfg, f, r).window)))
    ensures var g := Added(cfg, f, r);
            && g.lastReading == r.at
            && if r.at - f.smoothedAt >= cfg.recomputeS
                  && exists x :: x in g.window && cfg.minValid < x.volts < cfg.maxValid
               then ys != [] && g.smoothed == ys[|ys| / 2] && g.smoothedAt == r.at
               else g.smoothed == f.smoothed && g.smoothedAt == f.smoothedAt
  {
    var window := Pruned(cfg, f, r);
    SomeValid(cfg, window);
    hide Pruned, ValidOf, Median, Ascending;
    assert Added(cfg, f, r).window == window;
    SameCount(ys, Volts(ValidOf(cfg, window)));
    if ValidOf(cfg, window) != [] {
      MedianIsMiddle(Volts(ValidOf(cfg, window)), ys);
    }
  }

  // --------------------------------------------------------------------- robustness

  lemma SmallerSub(a: multiset<real>, b: multiset<real>)
    requires a <= b
    ensures |a| <= |b|
  {
    assert b == a + (b - a);
  }

  lemma SliceSub(xs: seq<real>, i: int, j: int)
    requires 0 <= i <= j <= |xs|
    ensures multiset(xs[i..j]) <= multiset(xs)
  {
    assert xs == xs[..i] + xs[i..j] + xs[j..];
  }

  /** If fewer than half of the values are bad, the median is between the good ones. */
  lemma MedianBetweenGood(xs: seq<real>, good: multiset<real>, bad: multiset<real>, lo: real, hi: real)
    requires xs != [] && multiset(xs) == good + bad && 2 * |bad| < |xs|
    requires forall g :: g in good ==> lo <= g <= hi
    ensures lo <= Median(xs) <= hi
  {
    SortSorts(xs);
    var s := Sort(xs);
    hide Sort, IsSorted;
    MiddleNotAbove(s, good, bad, hi);
    MiddleNotBelow(s, good, bad, lo);
  }

  lemma MiddleNotAbove(s: seq<real>, good: multiset<real>, bad: multiset<real>, hi: real)
    requires s != [] && IsSorted(s) && multiset(s) == good + bad && 2 * |bad| < |s|
    requires forall g :: g in good ==> g <= hi
    ensures s[|s| / 2] <= hi
  {
    hide IsSorted;
    var h := |s| / 2;
    if s[h] > hi {
      var part := s[h..|s|];
      forall x | x in part ensures x !in good {
        var i :| h <= i < |s| && s[i] == x;
        SortedAt(s, h, i);
      }
      SliceSub(s, h, |s|);
      AllBad(part, good, bad, s);
    }
  }

  lemma MiddleNotBelow(s: seq<real>, good: multiset<real>, bad: multiset<real>, lo: real)
    requires s != [] && IsSorted(s) && multiset(s) == good + bad && 2 * |bad| < |s|
    requires forall g :: g in good ==> lo <= g
    ensures lo <= s[|s| / 2]
  {
    hide IsSorted;
    var h := |s| / 2;
    if s[h] < lo {
      var part := s[0..h + 1];
      forall x | x in part ensures x !in good {
        var i :| 0 <= i < h + 1 && s[i] == x;
        SortedAt(s, i, h);
      }
      SliceSub(s, 0, h + 1);
      AllBad(part, good, bad, s);
    }
  }

  lemma AllBad(part: seq<real>, good: multiset<real>, bad: multiset<real>, s: seq<real>)
    requires multiset(s) == good + bad && multiset(part) <= multiset(s)
    requires forall x :: x in part ==> x !in good
    ensures |part| <= |bad|
  {
    forall x ensures multiset(part)[x] <= bad[x] {
      if x in multiset(part) {
        assert x in part;
      }
    }
    SmallerSub(multiset(part), bad);
  }

  /** The readings a predicate marks as corrupt, and the others. */
  function Those(marks: Reading -> bool, rs: seq<Reading>, which: bool): (sub: seq<Reading>)
    ensures forall r <- sub :: r in rs && marks(r) == which
  {
    if rs == [] then [] else
    var n := |rs| - 1;
    Those(marks, rs[..n], which) + if marks(rs[n]) == which then [rs[n]] else []
  }

  lemma {:induction false} Partition(marks: Reading -> bool, rs: seq<Reading>)
    ensures multiset(Volts(rs)) == multiset(Volts(Those(marks, rs, false))) + multiset(Volts(Those(marks, rs, true)))
    decreases |rs|
  {
    if rs != [] {
      var n := |rs| - 1;
      Partition(marks, rs[..n]);
      assert rs == rs[..n] + [rs[n]];
      VoltsOneMore(rs[..n], rs[n]);
      VoltsOneMore(Those(marks, rs[..n], marks(rs[n])), rs[n]);
      assert Those(marks, rs[..n], !marks(rs[n])) + [] == Those(marks, rs[..n], !marks(rs[n]));
    }
  }

  lemma VoltsOneMore(rs: seq<Reading>, r: Reading)
    ensures Volts(rs + [r]) == Volts(rs) + [r.volts]
  {
  }

  /** Robustness: whatever marks readings as corrupt, if strictly fewer than half of the
      in-range readings of the window are, a recomputed value lies between any bounds
      that hold all the good ones. */
  lemma CorruptMinorityIsHarmless(cfg: Config, f: Filter, r: Reading, corrupt: Reading -> bool, lo: real, hi: real)
    requires Recomputes(cfg, f, r)
    requires var valid := ValidOf(cfg, Pruned(cfg, f, r));
      2 * |Those(corrupt, valid, true)| < |valid| && forall g <- Those(corrupt, valid, false) :: lo <= g.volts <= hi
    ensures lo <= Added(cfg, f, r).smoothed <= hi
  {
    var valid := ValidOf(cfg, Pruned(cfg, f, r));
    Partition(corrupt, valid);
    var good, bad := Volts(Those(corrupt, valid, false)), Volts(Those(corrupt, valid, true));
    hide Those, Median, Pruned, ValidOf;
    MedianBetweenGood(Volts(valid), multiset(good), multiset(bad), lo, hi);
  }
}
