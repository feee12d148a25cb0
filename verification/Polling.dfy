/** How long a loop that sleeps at least one period a turn can go on before its
    deadline: the termination measure of the drive loop and of the plant wait. */
module Polling {

  function TurnsLeft(deadline: real, period: real, clock: real): nat
    requires period > 0.0
  {
    if clock >= deadline then 0 else ((deadline - clock) / period).Floor + 1
  }

  lemma TurnCounts(deadline: real, period: real, clock: real, next: real)
    requires period > 0.0 && clock < deadline && next >= clock + period
    ensures TurnsLeft(deadline, period, next) < TurnsLeft(deadline, period, clock)
  {
    var a, b := (deadline - clock) / period, (deadline - next) / period;
    Apart(a, b, deadline - clock, deadline - next, period);
  }

  lemma Apart(a: real, b: real, x: real, y: real, period: real)
    requires period > 0.0 && a * period == x && b * period == y && x - y >= period
    ensures a - b >= 1.0
  {
    ScalesOrder(a, b + 1.0, period);
  }

  lemma ScalesOrder(a: real, b: real, y: real)
    requires y > 0.0
    ensures a >= b <==> a * y >= b * y
  {
    if a < b {
      assert (b - a) * y > 0.0;
    } else {
      assert (a - b) * y >= 0.0;
    }
  }
}
