/** One auger or planter cycle: BatteryTest._run_plant, a momentary start pulse and
    the wait for Clear-of-Ground to drop and come back. */
module PlantHandshake {
  import opened Wrappers
  import opened Polling

  const POLL: real := 0.2
  const START_TIMEOUT: real := 8.0

  datatype Implement = Auger | Planter

  datatype Outcome = Done | TimedOut | CancelledOut | Skipped

  /** One turn of the wait: the clock at the loop test, the cancel flag, the poll's
      answer with the status word if it had one, and the clock at the start test. */
  datatype Poll = Poll(clock: real, cancelled: bool, connected: bool, word: Option<int>, after: real)

  /** The same turn as the PLC answers it: one poll brings both status words, %MW5100 for
      the auger and %MW5101 for the planter. */
  datatype RawPoll = RawPoll(clock: real, cancelled: bool, connected: bool,
                             mw5100: Option<int>, mw5101: Option<int>, after: real)

  function View(which: Implement, p: RawPoll): Poll {
    Poll(p.clock, p.cancelled, p.connected, if which == Auger then p.mw5100 else p.mw5101, p.after)
  }

  function Views(which: Implement, env: nat -> RawPoll): nat -> Poll { (i: nat) => View(which, env(i)) }

  /** Bit 1 of the status word: the implement is raised. */
  predicate ClearOfGround(word: int) { word / 2 % 2 == 1 }

  predicate Down(p: Poll) { p.word.Some? && !ClearOfGround(p.word.value) }

  predicate Home(p: Poll) { p.word.Some? && ClearOfGround(p.word.value) }

  ghost predicate Paced(env: nat -> Poll) {
    forall i: nat :: PacedAt(env, i)
  }

  predicate PacedAt(env: nat -> Poll, i: nat) { env(i + 1).clock >= env(i).clock + POLL }

  /** When the wait must end, and when the implement must have left home. */
  datatype Limits = Limits(deadline: real, startBy: real)

  /** The limits of a wait whose clock is read at `now`, then at `armed`. */
  function LimitsOf(plantTimeout: real, now: real, armed: real): Limits {
    Limits(now + plantTimeout, armed + START_TIMEOUT)
  }

  function Wait(l: Limits, env: nat -> Poll, i: nat, leftHome: bool): Outcome
    requires Paced(env)
    decreases TurnsLeft(l.deadline, POLL, env(i).clock)
  {
    var p := env(i);
    if p.clock >= l.deadline then TimedOut
    else if p.cancelled then CancelledOut
    else if !p.connected then Skipped
    else if Home(p) && leftHome then Done
    else
      var left := leftHome || Down(p);
      if !left && p.after > l.startBy then TimedOut else
      assert PacedAt(env, i);
      TurnCounts(l.deadline, POLL, p.clock, env(i + 1).clock);
      Wait(l, env, i + 1, left)
  }

  /** What the PLC side answers to the start request. */
  datatype Plc = Absent | Present(pulseConnected: bool)

  /** A start request: the word and the value pulsed there. */
  datatype StartPulse = StartPulse(register: int, value: int)

  method RunPlant(which: Implement, plc: Plc, plantTimeout: real, now: real, armed: real, env: nat -> RawPoll)
    returns (outcome: Outcome, pulses: seq<StartPulse>)
    requires Paced(Views(which, env))
    ensures pulses == if plc.Absent? then [] else [StartPulse(if which == Auger then 5110 else 5111, 1)]
    ensures outcome ==
      if plc == Present(true)
      then Wait(Limits(now + plantTimeout, armed + 8.0), Views(which, env), 0, false)
      else Skipped
  {
    if plc.Absent? {
      return Skipped, [];
    }
    pulses := [StartPulse(if which == Auger then 5110 else 5111, 1)];
    if !plc.pulseConnected {
      return Skipped, pulses;
    }
    var l := LimitsOf(plantTimeout, now, armed);
    ghost var view := Views(which, env);
    var i, leftHome := 0, false;
    outcome := TimedOut;
    while env(i).clock < l.deadline
      invariant Wait(l, view, 0, false) == Wait(l, view, i, leftHome) && outcome == TimedOut
      decreases TurnsLeft(l.deadline, POLL, env(i).clock)
    {
      assert PacedAt(view, i);
      TurnCounts(l.deadline, POLL, env(i).clock, env(i + 1).clock);
      if env(i).cancelled {
        outcome := CancelledOut;
        break;
      }
      if !env(i).connected {
        outcome := Skipped;
        break;
      }
      var word := if which == Auger then env(i).mw5100 else env(i).mw5101;
      if word.Some? {
        if !ClearOfGround(word.value) {
          leftHome := true;
        } else if leftHome {
          outcome := Done;
          break;
        }
      }
      if !leftHome && env(i).after > l.startBy {
        outcome := TimedOut;
        break;
      }
      i := i + 1;
    }
  }

  // ------------------------------------------------------------ when it is done

  /** Some poll before k showed the implement down. */
  predicate SeenDown(env: nat -> Poll, k: nat) {
    exists m :: 0 <= m < k && Down(env(m))
  }

  /** Nothing before turn k ended the wait: in time, not cancelled, connected, and
      the implement down by the start limit. */
  predicate Undisturbed(l: Limits, env: nat -> Poll, k: nat) {
    forall m :: 0 <= m < k ==> Usable(l, env(m)) && (SeenDown(env, m + 1) || env(m).after <= l.startBy)
  }

  predicate Usable(l: Limits, p: Poll) { p.clock < l.deadline && !p.cancelled && p.connected }

  /** Turn j sees the implement back home after some earlier turn saw it down. */
  predicate ComesHome(l: Limits, env: nat -> Poll, j: nat) {
    Undisturbed(l, env, j) && Usable(l, env(j)) && SeenDown(env, j) && Home(env(j))
  }

  lemma {:induction false} DoneComesHome(l: Limits, env: nat -> Poll, i: nat)
    returns (j: nat)
    requires Paced(env) && Undisturbed(l, env, i)
    requires Wait(l, env, i, SeenDown(env, i)) == Done
    ensures ComesHome(l, env, j)
    decreases TurnsLeft(l.deadline, POLL, env(i).clock)
  {
    var p := env(i);
    if Home(p) && SeenDown(env, i) {
      j := i;
    } else {
      OneTurnMore(l, env, i);
      assert PacedAt(env, i);
      TurnCounts(l.deadline, POLL, p.clock, env(i + 1).clock);
      j := DoneComesHome(l, env, i + 1);
    }
  }

  lemma SeenMore(env: nat -> Poll, i: nat)
    ensures SeenDown(env, i + 1) <==> SeenDown(env, i) || Down(env(i))
  {
  }

  lemma OneTurnMore(l: Limits, env: nat -> Poll, i: nat)
    ensures SeenDown(env, i + 1) <==> SeenDown(env, i) || Down(env(i))
    ensures Undisturbed(l, env, i + 1) <==>
      Undisturbed(l, env, i) && Usable(l, env(i)) && (SeenDown(env, i + 1) || env(i).after <= l.startBy)
  {
    SeenMore(env, i);
    hide SeenDown, Usable;
  }

  lemma {:induction false} ComesHomeIsDone(l: Limits, env: nat -> Poll, i: nat, j: nat)
    requires Paced(env) && i <= j && ComesHome(l, env, j)
    ensures Wait(l, env, i, SeenDown(env, i)) == Done
    decreases j - i
  {
    OneTurnMore(l, env, i);
    hide SeenDown, TurnsLeft, ClearOfGround;
    if i < j {
      assert Usable(l, env(i)) && (SeenDown(env, i + 1) || env(i).after <= l.startBy);
      hide Undisturbed, ComesHome, Paced;
      ComesHomeIsDone(l, env, i + 1, j);
    }
  }

  /** The handshake: done exactly when, before any cancel, disconnect, start timeout
      or deadline, one poll shows the implement down and a later one shows it home. */
  lemma DoneExactly(l: Limits, env: nat -> Poll)
    requires Paced(env)
    ensures Wait(l, env, 0, false) == Done <==> exists j: nat :: ComesHome(l, env, j)
  {
    assert !SeenDown(env, 0) && Undisturbed(l, env, 0);
    if Wait(l, env, 0, false) == Done {
      var j := DoneComesHome(l, env, 0);
    }
    if j: nat :| ComesHome(l, env, j) {
      ComesHomeIsDone(l, env, 0, j);
    }
  }

  /** The resting value alone never completes a cycle, however long it is shown. */
  lemma RestingNeverDone(l: Limits, env: nat -> Poll)
    requires Paced(env) && forall i: nat :: !Down(env(i))
    ensures Wait(l, env, 0, false) != Done
  {
    DoneExactly(l, env);
  }

  // ------------------------------------------------------------- every outcome

  /** Each implement is watched in its own status word, by bit 1 of it. */
  lemma WatchedBit(p: RawPoll)
    ensures Home(View(Auger, p)) <==> p.mw5100.Some? && p.mw5100.value % 4 in {2, 3}
    ensures Down(View(Auger, p)) <==> p.mw5100.Some? && p.mw5100.value % 4 in {0, 1}
    ensures Home(View(Planter, p)) <==> p.mw5101.Some? && p.mw5101.value % 4 in {2, 3}
    ensures Down(View(Planter, p)) <==> p.mw5101.Some? && p.mw5101.value % 4 in {0, 1}
  {
  }

  /** Turn m neither ends the wait nor is its last. */
  predicate GoesOn(l: Limits, env: nat -> Poll, m: nat) {
    && Usable(l, env(m)) && !(SeenDown(env, m) && Home(env(m)))
    && (SeenDown(env, m + 1) || env(m).after <= l.startBy)
  }

  predicate Arrives(l: Limits, env: nat -> Poll, j: nat) {
    forall m :: 0 <= m < j ==> GoesOn(l, env, m)
  }

  /** Turn j ends the wait, and why. */
  predicate EndsAs(l: Limits, env: nat -> Poll, j: nat, o: Outcome) {
    var p := env(j);
    match o
    case Done => Usable(l, p) && SeenDown(env, j) && Home(p)
    case CancelledOut => p.clock < l.deadline && p.cancelled
    case Skipped => p.clock < l.deadline && !p.cancelled && !p.connected
    case TimedOut => p.clock >= l.deadline || (Usable(l, p) && !SeenDown(env, j + 1) && p.after > l.startBy)
  }

  lemma {:induction false} WaitEnds(l: Limits, env: nat -> Poll, i: nat)
    returns (j: nat)
    requires Paced(env) && Arrives(l, env, i)
    ensures Arrives(l, env, j) && EndsAs(l, env, j, Wait(l, env, i, SeenDown(env, i)))
    decreases TurnsLeft(l.deadline, POLL, env(i).clock)
  {
    SeenMore(env, i);
    if GoesOn(l, env, i) {
      assert PacedAt(env, i);
      TurnCounts(l.deadline, POLL, env(i).clock, env(i + 1).clock);
      hide SeenDown, TurnsLeft, ClearOfGround;
      j := WaitEnds(l, env, i + 1);
    } else {
      hide SeenDown, TurnsLeft, ClearOfGround;
      j := i;
    }
  }

  lemma OneEnd(l: Limits, env: nat -> Poll, j: nat, o: Outcome, k: nat, u: Outcome)
    requires Arrives(l, env, j) && EndsAs(l, env, j, o) && Arrives(l, env, k) && EndsAs(l, env, k, u)
    ensures j == k && o == u
  {
    SeenMore(env, j);
    SeenMore(env, k);
    hide SeenDown, ClearOfGround;
    assert !GoesOn(l, env, j) && !GoesOn(l, env, k);
  }

  /** The wait returns each outcome exactly if some turn ends it so and none before it
      ended it: done, cancelled, skipped on a lost connection, or timed out at the
      deadline or because the implement had not left home by the start limit. */
  lemma WaitExactly(l: Limits, env: nat -> Poll, o: Outcome)
    requires Paced(env)
    ensures Wait(l, env, 0, false) == o <==> exists j: nat :: Arrives(l, env, j) && EndsAs(l, env, j, o)
  {
    assert !SeenDown(env, 0) && Arrives(l, env, 0);
    var j := WaitEnds(l, env, 0);
    hide Arrives, EndsAs, Wait;
    if k: nat :| Arrives(l, env, k) && EndsAs(l, env, k, o) {
      OneEnd(l, env, j, Wait(l, env, 0, false), k, o);
    }
  }
}
