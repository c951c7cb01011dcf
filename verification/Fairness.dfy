/** Endless executions of the link: if each side gets its turn often enough, everything is delivered,
    on either bus and under every schedule. */
module Fairness {
  import opened Words
  import opened UsbStream
  import opened Link

  /** An endless run: `states(i)` before step `i`, which is an enabled action. */
  ghost predicate Execution(bus: Bus, ticks: nat -> U32, start: Sys, schedule: nat -> Action, states: nat -> Sys) {
    && states(0) == start
    && forall i: nat :: Enabled(bus, states(i), schedule(i)) && states(i + 1) == Step(ticks, states(i), schedule(i))
  }

  ghost predicate TransmitterCanMove(bus: Bus, s: Sys) {
    exists a: Action :: !a.Receive? && Enabled(bus, s, a)
  }

  ghost predicate ReceiverTurnAfter(schedule: nat -> Action, i: nat) {
    exists j: nat :: j >= i && schedule(j).Receive?
  }

  ghost predicate TransmitterTurnAfter(bus: Bus, schedule: nat -> Action, states: nat -> Sys, i: nat) {
    exists j: nat :: j >= i && (!schedule(j).Receive? || !TransmitterCanMove(bus, states(j)))
  }

  /** The receiver always gets another turn, and a transmitter that can go on moving in the end does. */
  ghost predicate Fair(bus: Bus, schedule: nat -> Action, states: nat -> Sys) {
    forall i: nat :: ReceiverTurnAfter(schedule, i) && TransmitterTurnAfter(bus, schedule, states, i)
  }

  ghost function Prefix(schedule: nat -> Action, n: nat): (actions: seq<Action>)
    ensures |actions| == n
  {
    seq(n, i requires 0 <= i < n => schedule(i))
  }

  lemma {:induction false} PrefixRuns(bus: Bus, ticks: nat -> U32, start: Sys, schedule: nat -> Action,
                                      states: nat -> Sys, n: nat)
    requires Execution(bus, ticks, start, schedule, states)
    ensures Run(bus, ticks, start, Prefix(schedule, n), states(n))
  {
    hide Enabled, Step;
    if n > 0 {
      PrefixRuns(bus, ticks, start, schedule, states, n - 1);
      assert Prefix(schedule, n) == Prefix(schedule, n - 1) + [schedule(n - 1)];
      RunSnoc(bus, ticks, start, Prefix(schedule, n - 1), states(n - 1), schedule(n - 1));
      assert n - 1 + 1 == n;
    }
  }

  /** A move of the transmitter is never a spin. */
  lemma TransmitterMovesChange(bus: Bus, ticks: nat -> U32, s: Sys, a: Action)
    requires Enabled(bus, s, a) && !a.Receive?
    ensures Step(ticks, s, a) != s
  {
    hide SubMask;
  }

  /** While all is not quiet, a fair execution changes something again. */
  lemma SomethingChanges(bus: Bus, ticks: nat -> U32, words: seq<U32>, usb: Usb, start: Sys,
                         schedule: nat -> Action, states: nat -> Sys, i: nat)
    returns (j: nat)
    requires Execution(bus, ticks, start, schedule, states) && Fair(bus, schedule, states)
    requires Sendable(words) && Inv(bus, ticks, words, usb, states(i)) && !Quiescent(states(i))
    ensures j >= i && states(j) == states(i) && states(j + 1) != states(j)
  {
    hide *;
    var r, t := Turns(bus, schedule, states, i);
    j := i;
    while j <= r || j <= t
      invariant j >= i && forall k: nat :: i <= k <= j ==> states(k) == states(i)
      decreases r + t + 2 - j
    {
      if states(j + 1) != states(j) {
        return;
      }
      j := j + 1;
    }
    var s := states(i);
    StepAt(bus, ticks, start, schedule, states, r);
    StepAt(bus, ticks, start, schedule, states, t);
    SomeMove(bus, ticks, words, usb, s);
    if !schedule(t).Receive? {
      TransmitterMovesChange(bus, ticks, s, schedule(t));
    }
    assert false;
  }

  lemma Turns(bus: Bus, schedule: nat -> Action, states: nat -> Sys, i: nat) returns (r: nat, t: nat)
    requires Fair(bus, schedule, states)
    ensures r >= i && schedule(r) == Receive
    ensures t >= i && (!schedule(t).Receive? || !TransmitterCanMove(bus, states(t)))
  {
    hide TransmitterCanMove;
    assert ReceiverTurnAfter(schedule, i) && TransmitterTurnAfter(bus, schedule, states, i);
    r :| r >= i && schedule(r).Receive?;
    t :| t >= i && (!schedule(t).Receive? || !TransmitterCanMove(bus, states(t)));
  }

  lemma SomeMove(bus: Bus, ticks: nat -> U32, words: seq<U32>, usb: Usb, s: Sys)
    requires Sendable(words) && Inv(bus, ticks, words, usb, s) && !Quiescent(s)
    ensures Step(ticks, s, Receive) != s || TransmitterCanMove(bus, s)
  {
    hide Enabled, Step, Inv, Quiescent, Sendable;
    PlanFromHere(bus, ticks, words, usb, s);
    var a := NextMove(words, WholeFrom(words, s), s);
    NeverStuck(bus, ticks, words, WholeFrom(words, s), usb, s);
    assert a.Receive? || TransmitterCanMove(bus, s);
  }

  /** Quiet stays quiet. */
  lemma QuietStays(bus: Bus, ticks: nat -> U32, s: Sys, a: Action)
    requires Quiescent(s) && s.tx.data == 0 && Enabled(bus, s, a)
    ensures Step(ticks, s, a) == s
  {
    hide SubMask;
  }

  /** Every fair execution, however scheduled, ends quiet, with every word through its four phases. */
  lemma FairRunsEndQuiet(bus: Bus, ticks: nat -> U32, words: seq<U32>, capacity: nat, usb: Usb,
                         schedule: nat -> Action, states: nat -> Sys)
    returns (n: nat)
    requires Sendable(words) && capacity >= 2
    requires Execution(bus, ticks, Initial(words, capacity, usb), schedule, states) && Fair(bus, schedule, states)
    ensures forall m: nat :: m >= n ==> states(m) == states(n)
    ensures Quiescent(states(n)) && |states(n).main.fed| == |words|
  {
    hide *;
    n := QuietFrom(bus, ticks, words, capacity, usb, schedule, states, 0);
    forall m: nat | m >= n ensures states(m) == states(n) {
      StaysThere(bus, ticks, words, capacity, usb, schedule, states, n, m);
    }
    PrefixRuns(bus, ticks, Initial(words, capacity, usb), schedule, states, n);
    ExactlyOnce(bus, ticks, words, capacity, usb, Prefix(schedule, n), states(n));
  }

  lemma {:induction false} QuietFrom(bus: Bus, ticks: nat -> U32, words: seq<U32>, capacity: nat, usb: Usb,
                                     schedule: nat -> Action, states: nat -> Sys, i: nat)
    returns (n: nat)
    requires Sendable(words) && capacity >= 2
    requires Execution(bus, ticks, Initial(words, capacity, usb), schedule, states) && Fair(bus, schedule, states)
    ensures n >= i && Quiescent(states(n))
    decreases Measure(words, states(i))
  {
    hide *;
    var start := Initial(words, capacity, usb);
    PrefixRuns(bus, ticks, start, schedule, states, i);
    Reachable(bus, ticks, words, capacity, usb, Prefix(schedule, i), states(i));
    if Quiescent(states(i)) {
      n := i;
    } else {
      var j := SomethingChanges(bus, ticks, words, usb, start, schedule, states, i);
      StepAt(bus, ticks, start, schedule, states, j);
      EveryMoveDescends(bus, ticks, words, usb, states(j), schedule(j));
      MeasureBound(bus, ticks, words, usb, states(i));
      n := QuietFrom(bus, ticks, words, capacity, usb, schedule, states, j + 1);
    }
  }

  lemma StepAt(bus: Bus, ticks: nat -> U32, start: Sys, schedule: nat -> Action, states: nat -> Sys, j: nat)
    requires Execution(bus, ticks, start, schedule, states)
    ensures Enabled(bus, states(j), schedule(j)) && states(j + 1) == Step(ticks, states(j), schedule(j))
  {
    hide Enabled, Step;
  }

  lemma {:induction false} StaysThere(bus: Bus, ticks: nat -> U32, words: seq<U32>, capacity: nat, usb: Usb,
                                      schedule: nat -> Action, states: nat -> Sys, n: nat, m: nat)
    requires Sendable(words) && capacity >= 2 && n <= m && Quiescent(states(n))
    requires Execution(bus, ticks, Initial(words, capacity, usb), schedule, states)
    ensures states(m) == states(n)
  {
    hide *;
    if n < m {
      var start := Initial(words, capacity, usb);
      StaysThere(bus, ticks, words, capacity, usb, schedule, states, n, m - 1);
      PrefixRuns(bus, ticks, start, schedule, states, n);
      Reachable(bus, ticks, words, capacity, usb, Prefix(schedule, n), states(n));
      QuietLines(bus, ticks, words, usb, states(n));
      StepAt(bus, ticks, start, schedule, states, m - 1);
      QuietStays(bus, ticks, states(m - 1), schedule(m - 1));
      assert m - 1 + 1 == m;
    }
  }

  lemma QuietLines(bus: Bus, ticks: nat -> U32, words: seq<U32>, usb: Usb, s: Sys)
    requires Inv(bus, ticks, words, usb, s) && Quiescent(s)
    ensures s.tx.data == 0
  {
    hide FlowInv, Faithful, PhaseInv;
  }
}
