/** From a velocity command to the bytes on the chassis bus: the dashboard's 0.5 s
    deadman, the speed topic, and the base node's 1.5 s deadman, interleaved freely. */
module DeadmanChain {
  import opened Wrappers
  import opened Kinematics
  import V = Velocity
  import Protocol

  const CMD_TIMEOUT: real := 1.5

  // -------------------------------------------------------------- the base node

  datatype Node = Node(wheels: Wheels, lastCmd: real)

  function Heard(n: Node, data: seq<int>, now: real): Node {
    if |data| >= 2 then Node(Wheels(data[0], data[1]), now) else n
  }

  function Checked(n: Node, now: real): Node {
    if now - n.lastCmd > CMD_TIMEOUT then n.(wheels := Wheels(0, 0)) else n
  }

  class RobotBaseNode {
    var speedL: int
    var speedR: int
    var lastCmd: real

    function State(): Node
      reads this
    {
      Node(Wheels(speedL, speedR), lastCmd)
    }

    constructor (now: real)
      ensures State() == Node(Wheels(0, 0), now)
    {
      speedL, speedR, lastCmd := 0, 0, now;
    }

    method SpeedCallback(data: seq<int>, now: real)
      modifies this
      ensures State() == Heard(old(State()), data, now)
    {
      if |data| >= 2 {
        speedL := data[0];
        speedR := data[1];
        lastCmd := now;
      }
    }

    method CheckDeadman(now: real)
      modifies this
      ensures State() == Checked(old(State()), now)
    {
      if now - lastCmd > CMD_TIMEOUT {
        speedL := 0;
        speedR := 0;
      }
    }

    method SpeedFrame() returns (frame: Option<seq<Protocol.Octet>>)
      ensures frame == Protocol.SpeedFrame(State().wheels.left, State().wheels.right)
    {
      frame := Protocol.WriteSpeedFrame(speedL, speedR);
    }
  }

  // ------------------------------------------------------------------- the chain

  /** The chassis' scaling and the longest time a message may spend on the topic. */
  datatype Config = Config(linearScale: real, angularScale: real, speedMax: int, delay: real)

  datatype Message = Message(at: real, wheels: Wheels)

  /** `checkedAt` is the deadman check of a node cycle that has not written yet. */
  datatype Chain = Chain(vel: V.Vel, sent: seq<Message>, node: Node, checkedAt: Option<real>)

  /** Dash: the dashboard. Receive: the node's callback on the k-th message sent
      (messages may be lost, repeated or overtaken). Check and Write: a node cycle. */
  datatype Event = Dash(e: V.Event) | Receive(at: real, k: nat) | Check(at: real) | Write(at: real)

  function TimeOf(e: Event): real {
    match e
    case Dash(d) => d.at
    case Receive(at, _) => at
    case Check(at) => at
    case Write(at) => at
  }

  function WheelsOf(cfg: Config, v: V.Vel): Wheels {
    TwistToWheels(v.lin, v.ang, cfg.linearScale, cfg.angularScale, cfg.speedMax)
  }

  predicate Enabled(cfg: Config, s: Chain, e: Event) {
    match e
    case Receive(at, k) => k < |s.sent| && at - s.sent[k].at <= cfg.delay
    case Write(_) => s.checkedAt.Some?
    case _ => true
  }

  function Sent(cfg: Config, v: V.Vel, e: V.Event): seq<Message> {
    if e.Tick? && e.ok && V.Consumed(v, e.at).1.Some? then
      var t := V.Consumed(v, e.at).1.value;
      [Message(e.at, TwistToWheels(t.lin, t.ang, cfg.linearScale, cfg.angularScale, cfg.speedMax))]
    else []
  }

  /** An event that is not enabled does nothing. */
  function Next(cfg: Config, s: Chain, e: Event): Chain {
    if !Enabled(cfg, s, e) then s else
    match e
    case Dash(d) => s.(vel := V.Next(s.vel, d), sent := s.sent + Sent(cfg, s.vel, d))
    case Receive(at, k) => s.(node := Heard(s.node, [s.sent[k].wheels.left, s.sent[k].wheels.right], at))
    case Check(at) => s.(node := Checked(s.node, at), checkedAt := Some(at))
    case Write(_) => s.(checkedAt := None)
  }

  function Start(timeout: real, now: real): Chain {
    Chain(V.Fresh(timeout), [], Node(Wheels(0, 0), now), None)
  }

  function Exec(cfg: Config, start: Chain, events: seq<Event>): Chain {
    if events == [] then start else
    Next(cfg, Exec(cfg, start, events[..|events| - 1]), events[|events| - 1])
  }

  predicate Timed(events: seq<Event>) {
    forall i, j :: 0 <= i < j < |events| ==> TimeOf(events[i]) <= TimeOf(events[j])
  }

  // ------------------------------------------------------- where speeds come from

  /** What the dashboard's events alone put in force: the values of the last command,
      with the speed of any drive-loop refresh that found what it expected. */
  function Ordered(events: seq<Event>): V.Twist {
    if events == [] then V.Twist(0.0, 0.0) else
    var before, e := Ordered(events[..|events| - 1]), events[|events| - 1];
    if e.Dash? then V.InForce(before, e.e) else before
  }

  function WheelsFor(cfg: Config, t: V.Twist): Wheels {
    TwistToWheels(t.lin, t.ang, cfg.linearScale, cfg.angularScale, cfg.speedMax)
  }

  /** Event j sets the command, or refreshes it from the drive loop. */
  predicate Gives(events: seq<Event>, j: nat)
    requires j < |events|
  {
    events[j].Dash? && !events[j].e.Tick?
    && (events[j].e.Refresh? ==> -0.01 <= Ordered(events[..j]).lin - events[j].e.expected <= 0.01)
  }

  /** Some command given at `t` or later was for exactly these wheel speeds. */
  ghost predicate GivenSince(cfg: Config, events: seq<Event>, t: real, wheels: Wheels) {
    exists j :: 0 <= j < |events| && Gives(events, j) && TimeOf(events[j]) >= t
             && WheelsFor(cfg, Ordered(events[..j + 1])) == wheels
  }

  lemma {:induction false} VelIsOrdered(cfg: Config, timeout: real, now: real, events: seq<Event>)
    ensures var v := Exec(cfg, Start(timeout, now), events).vel; V.Twist(v.lin, v.ang) == Ordered(events)
    decreases |events|
  {
    if events != [] {
      VelIsOrdered(cfg, timeout, now, events[..|events| - 1]);
    }
  }

  lemma GivenLater(cfg: Config, events: seq<Event>, e: Event, t: real, u: real, wheels: Wheels)
    requires GivenSince(cfg, events, t, wheels) && u <= t
    ensures GivenSince(cfg, events + [e], u, wheels)
  {
    hide WheelsOf, Exec;
    var j :| 0 <= j < |events| && Gives(events, j) && TimeOf(events[j]) >= t
             && WheelsFor(cfg, Ordered(events[..j + 1])) == wheels;
    var more := events + [e];
    assert more[..j] == events[..j] && more[..j + 1] == events[..j + 1];
    assert Gives(more, j);
  }

  lemma GivenEarlier(cfg: Config, events: seq<Event>, t: real, u: real, wheels: Wheels)
    requires GivenSince(cfg, events, t, wheels) && u <= t
    ensures GivenSince(cfg, events, u, wheels)
  {
    hide WheelsOf, Exec;
  }

  const NONE: Wheels := Wheels(0, 0)

  predicate Starts(start: Chain) { start == Start(start.vel.timeout, start.node.lastCmd) }

  /** Each stage that could move the wheels traces back to a command that is young
      enough for that stage. */
  ghost predicate Traced(cfg: Config, start: Chain, events: seq<Event>) {
    var s := Exec(cfg, start, events);
    && s.vel.timeout == start.vel.timeout
    && (WheelsOf(cfg, s.vel) != NONE ==> GivenSince(cfg, events, s.vel.last, WheelsOf(cfg, s.vel)))
    && (forall k :: 0 <= k < |s.sent| && s.sent[k].wheels != NONE ==>
         GivenSince(cfg, events, s.sent[k].at - s.vel.timeout, s.sent[k].wheels))
    && (s.node.wheels != NONE ==>
         GivenSince(cfg, events, s.node.lastCmd - s.vel.timeout - cfg.delay, s.node.wheels))
    && (s.checkedAt.Some? && s.node.wheels != NONE ==> s.node.lastCmd >= s.checkedAt.value - CMD_TIMEOUT)
    && (s.checkedAt.Some? ==> events != [] && s.checkedAt.value <= TimeOf(events[|events| - 1]))
  }

  lemma {:induction false} RunIsTraced(cfg: Config, start: Chain, events: seq<Event>)
    requires Starts(start) && cfg.speedMax >= 0 && Timed(events)
    ensures Traced(cfg, start, events)
    decreases |events|
  {
    if events == [] {
      TwistSymmetries(0.0, 0.0, cfg.linearScale, cfg.angularScale, cfg.speedMax);
    } else {
      var before, e := events[..|events| - 1], events[|events| - 1];
      RunIsTraced(cfg, start, before);
      assert events == before + [e];
      StepIsTraced(cfg, start, before, e);
    }
  }

  lemma StepIsTraced(cfg: Config, start: Chain, before: seq<Event>, e: Event)
    requires Starts(start) && Traced(cfg, start, before) && Timed(before + [e]) && cfg.speedMax >= 0
    ensures Traced(cfg, start, before + [e])
  {
    hide WheelsOf, TwistToWheels, GivenSince, Sent;
    var s, t := Exec(cfg, start, before), Exec(cfg, start, before + [e]);
    assert (before + [e])[..|before|] == before;
    assert t == Next(cfg, s, e);
    StillGiven(cfg, start, before, e);
    match e
    case Dash(d) =>
      if Enabled(cfg, s, e) {
        CommandIsGiven(cfg, start, before, e);
        MessageIsGiven(cfg, start, before, e);
      }
    case Receive(at, k) =>
      if Enabled(cfg, s, e) && s.sent[k].wheels != NONE {
        assert t.node.wheels == s.sent[k].wheels;
        GivenLater(cfg, before, e, s.sent[k].at - s.vel.timeout,
                   t.node.lastCmd - s.vel.timeout - cfg.delay, s.sent[k].wheels);
      }
    case _ =>
  }

  /** What was traced before one more event still is. */
  lemma StillGiven(cfg: Config, start: Chain, before: seq<Event>, e: Event)
    requires Traced(cfg, start, before)
    ensures var (s, more) := (Exec(cfg, start, before), before + [e]);
            && (WheelsOf(cfg, s.vel) != NONE ==> GivenSince(cfg, more, s.vel.last, WheelsOf(cfg, s.vel)))
            && (forall k :: 0 <= k < |s.sent| && s.sent[k].wheels != NONE ==>
                 GivenSince(cfg, more, s.sent[k].at - s.vel.timeout, s.sent[k].wheels))
            && (s.node.wheels != NONE ==>
                 GivenSince(cfg, more, s.node.lastCmd - s.vel.timeout - cfg.delay, s.node.wheels))
  {
    hide WheelsOf, GivenSince, Exec;
    var s := Exec(cfg, start, before);
    if WheelsOf(cfg, s.vel) != NONE {
      GivenLater(cfg, before, e, s.vel.last, s.vel.last, WheelsOf(cfg, s.vel));
    }
    forall k | 0 <= k < |s.sent| && s.sent[k].wheels != NONE
      ensures GivenSince(cfg, before + [e], s.sent[k].at - s.vel.timeout, s.sent[k].wheels)
    {
      var t := s.sent[k].at - s.vel.timeout;
      GivenLater(cfg, before, e, t, t, s.sent[k].wheels);
    }
    if s.node.wheels != NONE {
      var t := s.node.lastCmd - s.vel.timeout - cfg.delay;
      GivenLater(cfg, before, e, t, t, s.node.wheels);
    }
  }

  /** The shared velocity after a dashboard event is a command given at its `last`. */
  lemma CommandIsGiven(cfg: Config, start: Chain, before: seq<Event>, e: Event)
    requires Starts(start) && Traced(cfg, start, before) && e.Dash?
    ensures var t := Exec(cfg, start, before + [e]);
            && t.vel.timeout == start.vel.timeout
            && (WheelsOf(cfg, t.vel) != NONE ==> GivenSince(cfg, before + [e], t.vel.last, WheelsOf(cfg, t.vel)))
  {
    hide WheelsOf, GivenSince;
    var more := before + [e];
    var s := Exec(cfg, start, before);
    assert more[..|before|] == before;
    var t := Exec(cfg, start, more);
    assert t.vel == V.Next(s.vel, e.e);
    VelIsOrdered(cfg, start.vel.timeout, start.node.lastCmd, before);
    if Gives(more, |before|) {
      JustGiven(cfg, start, before, e);
    } else {
      StillGiven(cfg, start, before, e);
      SameTwist(cfg, s.vel, t.vel);
    }
  }

  lemma SameTwist(cfg: Config, v: V.Vel, u: V.Vel)
    ensures (v.lin, v.ang) == (u.lin, u.ang) ==> WheelsOf(cfg, v) == WheelsOf(cfg, u)
  {
  }

  lemma JustGiven(cfg: Config, start: Chain, before: seq<Event>, e: Event)
    requires Starts(start) && Gives(before + [e], |before|)
    ensures var more := before + [e];
            GivenSince(cfg, more, TimeOf(e), WheelsOf(cfg, Exec(cfg, start, more).vel))
  {
    var more := before + [e];
    VelIsOrdered(cfg, start.vel.timeout, start.node.lastCmd, more);
    hide TwistToWheels, Exec;
    assert more[..|before| + 1] == more && more[|before|] == e;
  }

  /** A message sent by a tick carries a command given at most the timeout earlier. */
  lemma MessageIsGiven(cfg: Config, start: Chain, before: seq<Event>, e: Event)
    requires Traced(cfg, start, before) && e.Dash? && cfg.speedMax >= 0
    ensures var s := Exec(cfg, start, before);
            forall m <- Sent(cfg, s.vel, e.e) :: m.wheels != NONE ==>
              GivenSince(cfg, before + [e], m.at - s.vel.timeout, m.wheels)
  {
    hide TwistToWheels, GivenSince, Exec, Sent, WheelsOf;
    var s := Exec(cfg, start, before);
    SentIsCommand(cfg, s.vel, e.e);
    assert WheelsOf(cfg, s.vel) != NONE ==> GivenSince(cfg, before, s.vel.last, WheelsOf(cfg, s.vel));
    assert s.vel.timeout == start.vel.timeout;
    hide Traced;
    forall m <- Sent(cfg, s.vel, e.e) | m.wheels != NONE
      ensures GivenSince(cfg, before + [e], m.at - s.vel.timeout, m.wheels)
    {
      GivenLater(cfg, before, e, s.vel.last, m.at - s.vel.timeout, m.wheels);
    }
  }

  /** A tick that moves anything passes on the current command, still young enough. */
  lemma SentIsCommand(cfg: Config, v: V.Vel, d: V.Event)
    requires cfg.speedMax >= 0
    ensures forall m <- Sent(cfg, v, d) :: m.wheels != NONE ==>
              m.wheels == WheelsOf(cfg, v) && m.at - v.last <= v.timeout
  {
    TwistSymmetries(0.0, 0.0, cfg.linearScale, cfg.angularScale, cfg.speedMax);
    hide TwistToWheels;
  }

  /** Two-stage deadman: in every interleaving of commands, drive-loop refreshes,
      publisher ticks, topic deliveries and node cycles, a frame that moves a wheel
      carries exactly the wheel speeds of a command that was set or refreshed at most
      the dashboard timeout, the topic delay and CMD_TIMEOUT before the node's
      deadman check of that cycle. */
  lemma TwoStageDeadman(cfg: Config, start: Chain, events: seq<Event>)
    requires Starts(start) && cfg.speedMax >= 0 && Timed(events)
    requires var s := Exec(cfg, start, events); s.checkedAt.Some? && s.node.wheels != NONE
    ensures var s := Exec(cfg, start, events);
            var since := s.checkedAt.value - 1.5 - cfg.delay - start.vel.timeout;
            GivenSince(cfg, events, since, s.node.wheels)
  {
    hide Exec, WheelsOf, GivenSince;
    RunIsTraced(cfg, start, events);
    var s := Exec(cfg, start, events);
    GivenEarlier(cfg, events, s.node.lastCmd - s.vel.timeout - cfg.delay,
                 s.checkedAt.value - CMD_TIMEOUT - cfg.delay - start.vel.timeout, s.node.wheels);
  }

  /** And it works: a command whose tick, delivery and node cycle come in time is what
      the frame carries, left wheel and right wheel, whatever went before. */
  lemma CommandReachesWheels(cfg: Config, s: Chain, at: real, lin: real, ang: real, tick: real, arrival: real,
                             check: real)
    requires tick - at <= s.vel.timeout && arrival - tick <= cfg.delay && check - arrival <= 1.5
    ensures var events := [Dash(V.Set(at, lin, ang)), Dash(V.Tick(tick, true)),
                           Receive(arrival, |s.sent|), Check(check)];
            Exec(cfg, s, events).node.wheels ==
            TwistToWheels(lin, ang, cfg.linearScale, cfg.angularScale, cfg.speedMax)
  {
    hide TwistToWheels;
    var a, b := Dash(V.Set(at, lin, ang)), Dash(V.Tick(tick, true));
    var c, d := Receive(arrival, |s.sent|), Check(check);
    ExecMore(cfg, s, [], a);
    ExecMore(cfg, s, [a], b);
    ExecMore(cfg, s, [a, b], c);
    ExecMore(cfg, s, [a, b, c], d);
    assert [] + [a] == [a] && [a] + [b] == [a, b] && [a, b] + [c] == [a, b, c] && [a, b, c] + [d] == [a, b, c, d];
  }

  lemma ExecMore(cfg: Config, s: Chain, events: seq<Event>, e: Event)
    ensures Exec(cfg, s, events + [e]) == Next(cfg, Exec(cfg, s, events), e)
  {
    assert (events + [e])[..|events|] == events;
    hide Next;
  }

  /** The node's deadman: a cycle more than 1.5 s after the last message stops both
      wheels, any other leaves them as the last full message set them; a message of fewer
      than two values is ignored. */
  lemma NodeDeadman(n: Node, data: seq<int>, heard: real, check: real)
    ensures var m := Checked(Heard(n, data, heard), check);
            m.wheels ==
            if |data| >= 2 then (if check - heard > 1.5 then NONE else Wheels(data[0], data[1]))
            else if check - n.lastCmd > 1.5 then NONE
            else n.wheels
  {
  }
}
