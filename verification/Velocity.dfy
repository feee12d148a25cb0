/** The commanded velocity shared by the HTTP threads, the drive loop and the 20 Hz
    publisher: services/telemetry.VelocityState. One event is one region under its
    lock. */
module Velocity {
  import opened Wrappers

  datatype Vel = Vel(lin: real, ang: real, active: bool, last: real, timeout: real)

  datatype Twist = Twist(lin: real, ang: real)

  const STOP: Twist := Twist(0.0, 0.0)

  function Fresh(timeout: real): Vel { Vel(0.0, 0.0, false, 0.0, timeout) }

  function Commanded(v: Vel, lin: real, ang: real, now: real): Vel {
    v.(lin := lin, ang := ang, active := true, last := now)
  }

  function Abs(x: real): real { if x < 0.0 then -x else x }

  /** The drive loop's check that nobody changed the speed it last wrote. */
  predicate Overridden(v: Vel, expected: real) { Abs(v.lin - expected) > 0.01 }

  /** The drive loop keeps the deadman alive, unless it was overridden. */
  function Refreshed(v: Vel, expected: real, lin: real, now: real): Vel {
    if Overridden(v, expected) then v else v.(lin := lin, last := now)
  }

  function Consumed(v: Vel, now: real): (Vel, Option<Twist>) {
    if !v.active then (v, None)
    else if now - v.last > v.timeout then (v.(active := false), Some(STOP))
    else (v.(active := v.lin != 0.0 || v.ang != 0.0), Some(Twist(v.lin, v.ang)))
  }

  class VelocityState {
    var lin: real
    var ang: real
    var active: bool
    var last: real
    const timeout: real

    function State(): Vel
      reads this
    {
      Vel(lin, ang, active, last, timeout)
    }

    constructor (timeout: real)
      ensures State() == Fresh(timeout)
    {
      lin, ang, active, last := 0.0, 0.0, false, 0.0;
      this.timeout := timeout;
    }

    method SetCommand(lin: real, ang: real, now: real)
      modifies this
      ensures State() == Commanded(old(State()), lin, ang, now)
    {
      this.lin := lin;
      this.ang := ang;
      active := true;
      last := now;
    }

    method ConsumeForPublish(now: real) returns (command: Option<Twist>)
      modifies this
      ensures (State(), command) == Consumed(old(State()), now)
    {
      if !active {
        return None;
      }
      if now - last > timeout {
        active := false;
        return Some(STOP);
      }
      if lin == 0.0 && ang == 0.0 {
        active := false;
      }
      return Some(Twist(lin, ang));
    }

    /** The drive loop's locked region. */
    method RefreshSpeed(expected: real, lin: real, now: real) returns (overridden: bool)
      modifies this
      ensures overridden == Overridden(old(State()), expected)
      ensures State() == Refreshed(old(State()), expected, lin, now)
    {
      overridden := Abs(this.lin - expected) > 0.01;
      if !overridden {
        this.lin := lin;
        last := now;
      }
    }
  }

  // ------------------------------------------------------------------------ runs

  /** `ok`: the publisher did not throw on this tick. */
  datatype Event =
    | Set(at: real, lin: real, ang: real)
    | Refresh(at: real, expected: real, lin: real)
    | Tick(at: real, ok: bool)

  function Next(v: Vel, e: Event): Vel {
    match e
    case Set(at, lin, ang) => Commanded(v, lin, ang, at)
    case Refresh(at, expected, lin) => Refreshed(v, expected, lin, at)
    case Tick(at, _) => Consumed(v, at).0
  }

  /** What this event hands to the publisher. */
  function Offered(v: Vel, e: Event): seq<Twist> {
    if !e.Tick? then [] else
    match Consumed(v, e.at).1
    case None => []
    case Some(twist) => [twist]
  }

  function Run(v: Vel, events: seq<Event>): Vel {
    if events == [] then v else Next(Run(v, events[..|events| - 1]), events[|events| - 1])
  }

  /** Everything handed to the publisher over a run. */
  function Offers(v: Vel, events: seq<Event>): seq<Twist> {
    if events == [] then [] else
    var before, last := events[..|events| - 1], events[|events| - 1];
    Offers(v, before) + Offered(Run(v, before), last)
  }

  /** What got out: the ticks on which the publisher did not throw. */
  function Published(v: Vel, events: seq<Event>): seq<Twist> {
    if events == [] then [] else
    var before, last := events[..|events| - 1], events[|events| - 1];
    Published(v, before) + if last.Tick? && last.ok then Offered(Run(v, before), last) else []
  }

  // ------------------------------------------------ what the events alone say

  /** The twist that is in force: a command gives both its values, a drive-loop refresh
      replaces the speed alone, unless the speed is more than 0.01 off what the loop
      expects. */
  function InForce(t: Twist, e: Event): Twist {
    match e
    case Set(_, lin, ang) => Twist(lin, ang)
    case Refresh(_, expected, lin) => if -0.01 <= t.lin - expected <= 0.01 then Twist(lin, t.ang) else t
    case Tick(_, _) => t
  }

  function TwistOf(first: Twist, events: seq<Event>): Twist {
    if events == [] then first else InForce(TwistOf(first, events[..|events| - 1]), events[|events| - 1])
  }

  /** When that twist was last given. */
  function GivenAt(first: Twist, since: real, events: seq<Event>): real {
    if events == [] then since else
    var before, e := events[..|events| - 1], events[|events| - 1];
    match e
    case Set(at, _, _) => at
    case Refresh(at, expected, _) =>
      if -0.01 <= TwistOf(first, before).lin - expected <= 0.01 then at else GivenAt(first, since, before)
    case Tick(_, _) => GivenAt(first, since, before)
  }

  /** Awake since the last command, unless a tick has met a stop or come too late. */
  function Awake(v: Vel, events: seq<Event>): bool {
    if events == [] then v.active else
    var before, e := events[..|events| - 1], events[|events| - 1];
    var first := Twist(v.lin, v.ang);
    match e
    case Set(_, _, _) => true
    case Refresh(_, _, _) => Awake(v, before)
    case Tick(at, _) =>
      Awake(v, before) && at - GivenAt(first, v.last, before) <= v.timeout && TwistOf(first, before) != Twist(0.0, 0.0)
  }

  /** Every field of the shared velocity after any run, from the events alone. */
  lemma {:induction false} RunFromEvents(v: Vel, events: seq<Event>)
    ensures var (first, now) := (Twist(v.lin, v.ang), Run(v, events));
            && Twist(now.lin, now.ang) == TwistOf(first, events) && now.last == GivenAt(first, v.last, events)
            && now.active == Awake(v, events) && now.timeout == v.timeout
    decreases |events|
  {
    if events != [] {
      RunFromEvents(v, events[..|events| - 1]);
    }
  }

  /** What a tick hands out after any run: nothing when asleep, the stop when the command
      has gone unrefreshed for longer than the timeout, otherwise exactly the twist in
      force, turn included. */
  lemma TickOffers(v: Vel, events: seq<Event>, at: real, ok: bool)
    ensures var first := Twist(v.lin, v.ang);
            Offered(Run(v, events), Tick(at, ok)) ==
            if !Awake(v, events) then []
            else if at - GivenAt(first, v.last, events) > v.timeout then [Twist(0.0, 0.0)]
            else [TwistOf(first, events)]
  {
    RunFromEvents(v, events);
  }

  /** The first tick after a command, within the timeout, offers exactly that command. */
  lemma CommandIsOffered(v: Vel, at: real, lin: real, ang: real, t: real, ok: bool)
    requires t - at <= v.timeout
    ensures Offered(Next(v, Set(at, lin, ang)), Tick(t, ok)) == [Twist(lin, ang)]
  {
  }

  /** The drive loop's refresh keeps an awake command alive and changes its speed only. */
  lemma RefreshIsOffered(v: Vel, at: real, expected: real, lin: real, t: real, ok: bool)
    requires v.active && -0.01 <= v.lin - expected <= 0.01 && t - at <= v.timeout
    ensures Offered(Next(v, Refresh(at, expected, lin)), Tick(t, ok)) == [Twist(lin, v.ang)]
  {
  }

  predicate NoFailures(events: seq<Event>) {
    forall i :: 0 <= i < |events| && events[i].Tick? ==> events[i].ok
  }

  lemma {:induction false} AllGetsOut(v: Vel, events: seq<Event>)
    requires NoFailures(events)
    ensures Published(v, events) == Offers(v, events)
    decreases |events|
  {
    if events != [] {
      AllGetsOut(v, events[..|events| - 1]);
    }
  }

  predicate EndsInStop(log: seq<Twist>) { log != [] && log[|log| - 1] == STOP }

  /** Whatever fails: the state is inactive only before the first offer or right
      after offering a stop. */
  lemma {:induction false} IdleAfterStopOffer(events: seq<Event>, timeout: real)
    ensures !Run(Fresh(timeout), events).active ==>
      Offers(Fresh(timeout), events) == [] || EndsInStop(Offers(Fresh(timeout), events))
    decreases |events|
  {
    if events != [] {
      IdleAfterStopOffer(events[..|events| - 1], timeout);
    }
  }

  /** In a run without publish failures, idle means nothing was published yet or the
      last thing published was a stop. */
  lemma IdleMeansStopped(events: seq<Event>, timeout: real)
    requires NoFailures(events)
    ensures var log := Published(Fresh(timeout), events);
            !Run(Fresh(timeout), events).active ==> log == [] || EndsInStop(log)
  {
    IdleAfterStopOffer(events, timeout);
    AllGetsOut(Fresh(timeout), events);
  }

  lemma OneMore(v: Vel, events: seq<Event>, e: Event)
    ensures Run(v, events + [e]) == Next(Run(v, events), e)
    ensures Published(v, events + [e])
         == Published(v, events) + if e.Tick? && e.ok then Offered(Run(v, events), e) else []
  {
    assert (events + [e])[..|events|] == events;
  }

  lemma {:induction false} RunConcat(v: Vel, a: seq<Event>, b: seq<Event>)
    ensures Run(v, a + b) == Run(Run(v, a), b)
    ensures Published(v, a + b) == Published(v, a) + Published(Run(v, a), b)
    decreases |b|
  {
    if b == [] {
      assert a + b == a;
    } else {
      assert (a + b)[..|a + b| - 1] == a + b[..|b| - 1];
      RunConcat(v, a, b[..|b| - 1]);
    }
  }

  /** Idle and not commanded again: silent for good, whatever the drive loop does. */
  lemma {:induction false} IdleStaysSilent(v: Vel, events: seq<Event>)
    requires !v.active && forall i :: 0 <= i < |events| ==> !events[i].Set?
    ensures Published(v, events) == [] && !Run(v, events).active
    decreases |events|
  {
    if events != [] {
      IdleStaysSilent(v, events[..|events| - 1]);
    }
  }

  // ------------------------------------------------------ when a publish fails

  /** Idle only before anything was published, or with a stop as the last publish. */
  predicate Settled(v: Vel, log: seq<Twist>) { v.active || log == [] || EndsInStop(log) }

  /** The one guard that breaks this: the publisher throws on the tick that was to send
      the stop, while the last thing that got out still moves. */
  predicate Strands(v: Vel, log: seq<Twist>, e: Event) {
    && e.Tick? && !e.ok && v.active && log != [] && !EndsInStop(log)
    && (e.at - v.last > v.timeout || (v.lin == 0.0 && v.ang == 0.0))
  }

  /** One event from a settled state keeps it settled exactly when that guard is not
      met; every other publish failure is harmless. */
  lemma StepSettles(v: Vel, events: seq<Event>, e: Event)
    requires Settled(Run(v, events), Published(v, events))
    ensures Settled(Run(v, events + [e]), Published(v, events + [e])) <==>
            !Strands(Run(v, events), Published(v, events), e)
  {
    OneMore(v, events, e);
  }

  predicate StrandsAt(v: Vel, events: seq<Event>, i: int)
    requires 0 <= i < |events|
  {
    Strands(Run(v, events[..i]), Published(v, events[..i]), events[i])
  }

  /** Some tick of the run met the guard, and no command has been set after it. */
  predicate Stranded(v: Vel, events: seq<Event>) {
    exists i :: 0 <= i < |events| && StrandsAt(v, events, i) && NoCommand(events, i + 1)
  }

  predicate NoCommand(events: seq<Event>, from: int) {
    forall j :: 0 <= from <= j < |events| ==> !events[j].Set?
  }

  lemma StrandedMore(v: Vel, events: seq<Event>, e: Event)
    ensures Stranded(v, events + [e]) <==>
            Strands(Run(v, events), Published(v, events), e) || (Stranded(v, events) && !e.Set?)
  {
    hide Strands, Run, Published;
    var more, n := events + [e], |events|;
    assert more[..n] == events && more[n] == e;
    assert forall i :: 0 <= i < n ==> more[..i] == events[..i] && more[i] == events[i];
    if Strands(Run(v, events), Published(v, events), e) {
      assert StrandsAt(v, more, n) && NoCommand(more, n + 1);
    } else if Stranded(v, events) && !e.Set? {
      var i :| 0 <= i < n && StrandsAt(v, events, i) && NoCommand(events, i + 1);
      assert StrandsAt(v, more, i) && NoCommand(more, i + 1);
    }
    if Stranded(v, more) && !Strands(Run(v, events), Published(v, events), e) {
      var i :| 0 <= i <= n && StrandsAt(v, more, i) && NoCommand(more, i + 1);
      assert i < n && StrandsAt(v, events, i) && !more[n].Set?;
      assert NoCommand(events, i + 1) by {
        assert forall j :: i + 1 <= j < n ==> events[j] == more[j];
      }
    }
  }

  lemma UnsettledStays(v: Vel, events: seq<Event>, e: Event)
    requires !Settled(Run(v, events), Published(v, events))
    ensures Settled(Run(v, events + [e]), Published(v, events + [e])) <==> e.Set?
    ensures !Strands(Run(v, events), Published(v, events), e)
  {
    OneMore(v, events, e);
  }

  /** Over any run, failures included: the state is active, or nothing was published, or
      the last publish was a stop, if and only if no tick met the guard or a command has
      been set since. */
  lemma {:induction false} SettledExactly(v: Vel, events: seq<Event>)
    ensures Settled(Run(v, events), Published(v, events)) <==> !Stranded(v, events)
    decreases |events|
  {
    if events != [] {
      hide Run, Published, Settled, Strands, Stranded;
      var before, e := events[..|events| - 1], events[|events| - 1];
      assert events == before + [e];
      SettledExactly(v, before);
      StrandedMore(v, before, e);
      if Settled(Run(v, before), Published(v, before)) {
        StepSettles(v, before, e);
      } else {
        UnsettledStays(v, before, e);
      }
    }
  }

  /** A publish failure on the stop is never repaired: the state idles with a moving
      command as the last thing that got out, and no later tick or refresh sends
      anything. Only the chassis node's own deadman ends that motion. */
  lemma LostStopIsNotRepeated(later: seq<Event>)
    requires forall i :: 0 <= i < |later| ==> !later[i].Set?
    ensures var events := [Set(1.0, 0.5, 0.0)] + [Tick(1.0, true)] + [Tick(2.0, false)] + later;
            Published(Fresh(0.5), events) == [Twist(0.5, 0.0)] && !Run(Fresh(0.5), events).active
  {
    var v := Fresh(0.5);
    var a := [Set(1.0, 0.5, 0.0)];
    var b := a + [Tick(1.0, true)];
    var c := b + [Tick(2.0, false)];
    assert a == [] + a;
    OneMore(v, [], a[0]);
    OneMore(v, a, Tick(1.0, true));
    OneMore(v, b, Tick(2.0, false));
    RunConcat(v, c, later);
    IdleStaysSilent(Run(v, c), later);
    hide Run, Published;
  }

  /** After the last set_command: from any state, ticks and drive-loop refreshes
      publish moving commands, then at most one stop, then nothing, whichever publishes
      fail; without failures the stop has gone out exactly when an active state has
      become inactive. */
  lemma {:induction false} SingleStopThenSilence(v: Vel, events: seq<Event>)
    requires forall i :: 0 <= i < |events| ==> !events[i].Set?
    ensures var log := Published(v, events);
            && (forall i :: 0 <= i < |log| - 1 ==> log[i] != STOP)
            && (v.active && EndsInStop(log) ==> !Run(v, events).active)
            && (v.active && !Run(v, events).active && NoFailures(events) ==> EndsInStop(log))
            && (!v.active ==> log == [] && !Run(v, events).active)
    decreases |events|
  {
    if events != [] {
      var before, e := events[..|events| - 1], events[|events| - 1];
      SingleStopThenSilence(v, before);
      var sent := Published(v, before);
      if Run(v, before).active {
        assert sent != [] ==> sent[|sent| - 1] != STOP;
      } else {
        assert Offered(Run(v, before), e) == [] && Published(v, events) == sent;
      }
    }
  }

  /** That one stop is certain: once a tick meets a zero command or falls past the
      timeout, it is out, and nothing follows it. Only that tick's own publish matters,
      unless the state was idle by then, when an earlier one sent it. */
  lemma StopIsCertain(v: Vel, before: seq<Event>, tick: Event, after: seq<Event>)
    requires v.active && tick.Tick?
    requires (Run(v, before).active && tick.ok) || NoFailures(before + [tick] + after)
    requires forall i :: 0 <= i < |before + [tick] + after| ==> !(before + [tick] + after)[i].Set?
    requires var met := Run(v, before);
      tick.at - met.last > met.timeout || (met.lin == 0.0 && met.ang == 0.0)
    ensures var log := Published(v, before + [tick] + after);
            EndsInStop(log) && forall i :: 0 <= i < |log| - 1 ==> log[i] != STOP
  {
    var all := before + [tick] + after;
    var upto := before + [tick];
    assert upto[..|upto| - 1] == before;
    assert !Run(v, upto).active;
    RunConcat(v, upto, after);
    assert forall i :: 0 <= i < |after| ==> !after[i].Set? by {
      assert forall i :: 0 <= i < |after| ==> after[i] == all[|upto| + i];
    }
    SingleStopThenSilence(Run(v, upto), after);
    SingleStopThenSilence(v, all);
  }
}
