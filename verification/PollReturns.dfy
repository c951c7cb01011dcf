/** When a call of the polling receiver returns. */
module PollReturns {
  import opened Words
  import opened HalTime
  import opened RxPoll

  // ---------------- With timeouts ----------------

  ghost predicate Passes(elapsed: nat -> nat, time: nat) {
    exists i: nat :: elapsed(i) >= time
  }

  /** A clock that may read the same many times over, but goes on for ever, by no more than 2^63
      microseconds at a time: `elapsed(i)` is the true time of its i-th read. */
  ghost predicate Advancing(env: Env, elapsed: nat -> nat) {
    && (forall i: nat :: env.clock(i) == elapsed(i) % TWO64 && elapsed(i) <= elapsed(i + 1) <= elapsed(i) + TWO63)
    && (forall time: nat :: Passes(elapsed, time))
  }

  lemma {:induction false} NeverBack(env: Env, elapsed: nat -> nat, i: nat, j: nat)
    requires Advancing(env, elapsed) && i <= j
    ensures elapsed(i) <= elapsed(j)
  {
    if i < j {
      NeverBack(env, elapsed, i, j - 1);
      assert elapsed(j - 1) <= elapsed(j - 1 + 1);
    }
  }

  /** A read that comes after the deadline. */
  lemma LateRead(env: Env, elapsed: nat -> nat, time: nat) returns (late: nat)
    requires Advancing(env, elapsed)
    ensures elapsed(late) >= time
  {
    assert Passes(elapsed, time);
    late :| elapsed(late) >= time;
  }

  lemma TimedOut(env: Env, elapsed: nat -> nat, from: nat, at: nat, timeout: U32)
    requires Advancing(env, elapsed) && from < at && timeout > 0
    requires elapsed(from) <= elapsed(at - 1) < elapsed(from) + timeout
    ensures elapsed(at) >= elapsed(at - 1)
    ensures Expired(Deadline(env.clock(from), timeout), env.clock(at)) <==> elapsed(at) >= elapsed(from) + timeout
  {
    assert elapsed(at - 1) <= elapsed(at - 1 + 1) <= elapsed(at - 1) + TWO63;
    var start, e := env.clock(from), elapsed(at) - elapsed(from);
    assert (elapsed(from) % TWO64 + e) % TWO64 == elapsed(at) % TWO64 by {
      SameRemainder(elapsed(from), e);
    }
    assert env.clock(at) == After(start, e);
    ExpiredIffTimeoutPassed(start, timeout, e);
  }

  lemma SameRemainder(a: nat, e: nat)
    ensures (a % TWO64 + e) % TWO64 == (a + e) % TWO64
  {
  }

  lemma {:induction false} ValidWaitEnds(env: Env, elapsed: nat -> nat, l: Local, from: nat, late: nat)
    returns (n: nat)
    requires Advancing(env, elapsed) && l.rx.pc == WaitValid && l.rx.validTimeout > 0
    requires from < l.clockReads && l.rx.deadline == Deadline(env.clock(from), l.rx.validTimeout)
    requires elapsed(from) <= elapsed(l.clockReads - 1) < elapsed(from) + l.rx.validTimeout <= elapsed(late)
    ensures var l2 := Iterate(env, l, n);
      (l2.rx.pc.AssertAck? || l2.rx.pc.Done?) && l2.rx.neutralTimeout == l.rx.neutralTimeout
    decreases late - l.clockReads
  {
    hide Expired, Deadline, Advance, Iterate, Advancing;
    ValidTurn(env, l);
    OneMore(env, l, 0);
    var l1 := Advance(env, l);
    if l1.rx.pc == WaitValid {
      if late < l.clockReads {
        NeverBack(env, elapsed, late, l.clockReads - 1);
      }
      TimedOut(env, elapsed, from, l.clockReads, l.rx.validTimeout);
      var m := ValidWaitEnds(env, elapsed, l1, from, late);
      IterateAdd(env, l, 1, m);
      n := 1 + m;
    } else {
      n := 1;
    }
  }

  lemma {:induction false} NeutralWaitEnds(env: Env, elapsed: nat -> nat, l: Local, from: nat, late: nat)
    returns (n: nat)
    requires Advancing(env, elapsed) && l.rx.pc == WaitNeutral && l.rx.neutralTimeout > 0
    requires from < l.clockReads && l.rx.deadline == Deadline(env.clock(from), l.rx.neutralTimeout)
    requires elapsed(from) <= elapsed(l.clockReads - 1) < elapsed(from) + l.rx.neutralTimeout <= elapsed(late)
    ensures var l2 := Iterate(env, l, n); l2.rx.pc.Release? || l2.rx.pc.Recover?
    decreases late - l.clockReads
  {
    hide Expired, Deadline, Advance, Iterate, Advancing;
    NeutralTurn(env, l);
    OneMore(env, l, 0);
    var l1 := Advance(env, l);
    if l1.rx.pc == WaitNeutral {
      if late < l.clockReads {
        NeverBack(env, elapsed, late, l.clockReads - 1);
      }
      TimedOut(env, elapsed, from, l.clockReads, l.rx.neutralTimeout);
      var m := NeutralWaitEnds(env, elapsed, l1, from, late);
      IterateAdd(env, l, 1, m);
      n := 1 + m;
    } else {
      n := 1;
    }
  }

  /** With both timeouts enabled and an advancing clock, every call returns, whatever the bus
      does and wherever the clock wraps. */
  lemma TimeoutsEndEveryCall(env: Env, elapsed: nat -> nat, l: Local)
    requires Advancing(env, elapsed)
    requires l.rx.validTimeout > 0 && l.rx.neutralTimeout > 0
    ensures Returns(env, l)
  {
    hide Expired, Deadline, Iterate, Advance, Advancing;
    var start := Begin(l);
    OneMore(env, start, 0);
    StraightTurn(env, start);
    var l1 := Iterate(env, start, 1);
    var late := LateRead(env, elapsed, elapsed(l.clockReads) + l.rx.validTimeout);
    var n := ValidWaitEnds(env, elapsed, l1, l.clockReads, late);
    IterateAdd(env, start, 1, n);
    var l2 := Iterate(env, start, 1 + n);
    if l2.rx.pc.AssertAck? {
      var m := HandshakeEnds(env, elapsed, l2);
      IterateAdd(env, start, 1 + n, m);
      CallIs(env, l, 1 + n + m);
    } else {
      CallIs(env, l, 1 + n);
    }
  }

  lemma HandshakeEnds(env: Env, elapsed: nat -> nat, l: Local) returns (n: nat)
    requires Advancing(env, elapsed) && l.rx.pc.AssertAck? && l.rx.neutralTimeout > 0
    ensures IsDone(Iterate(env, l, n))
  {
    hide Expired, Deadline, Iterate, Advance, Advancing;
    OneMore(env, l, 0);
    StraightTurn(env, l);
    OneMore(env, l, 1);
    var l1 := Iterate(env, l, 1);
    StraightTurn(env, l1);
    var l2 := Iterate(env, l, 2);
    var late := LateRead(env, elapsed, elapsed(l1.clockReads) + l.rx.neutralTimeout);
    var m := NeutralWaitEnds(env, elapsed, l2, l1.clockReads, late);
    IterateAdd(env, l, 2, m);
    OneMore(env, l, 2 + m);
    StraightTurn(env, Iterate(env, l, 2 + m));
    n := 3 + m;
  }

  // ---------------- Without a timeout on one wait or both ----------------

  /** The bus will, from reading number `from` on, be read valid and later neutral. */
  ghost predicate Offered(env: Env, from: nat) {
    exists i: nat, j: nat :: from <= i < j && env.data(i) != 0 && env.data(j) == 0
  }

  ghost predicate NeutralUpTo(env: Env, from: nat, upTo: nat) {
    forall i: nat :: from <= i < upTo ==> env.data(i) == 0
  }

  /** The clock reading after the `t`-th neutral reading of a call is past the deadline of its first wait. */
  predicate LateAt(env: Env, l: Local, t: nat) {
    Expired(Deadline(env.clock(l.clockReads), l.rx.validTimeout), env.clock(l.clockReads + 1 + t))
  }

  /** The first wait of a call that starts at `l` times out. */
  ghost predicate FirstWaitTimesOut(env: Env, l: Local) {
    l.rx.validTimeout != 0 && exists t: nat :: LateAt(env, l, t) && NeutralUpTo(env, l.dataReads, l.dataReads + t + 1)
  }

  /** Without a timeout on the second wait, and whatever the clock does, a call returns exactly when its
      first wait times out or the bus will be read valid and later neutral. */
  lemma ReturnsIffTimedOutOrOffered(env: Env, l: Local)
    requires l.rx.neutralTimeout == 0
    ensures Returns(env, l) <==> FirstWaitTimesOut(env, l) || Offered(env, l.dataReads)
  {
    if Returns(env, l) {
      var n: nat :| IsDone(Iterate(env, Begin(l), n));
      ReadsSoFar(env, l, n);
    }
    hide *;
    if FirstWaitTimesOut(env, l) {
      TimedOutReturns(env, l);
    } else if Offered(env, l.dataReads) {
      OfferedReturns(env, l);
    }
  }

  lemma AtFirstWait(env: Env, l: Local)
    ensures var l1 := Iterate(env, Begin(l), 1);
      && l1.rx.pc == WaitValid && InFirstWait(env, l, l1) && l1.dataReads == l.dataReads
      && l1.rx.validTimeout == l.rx.validTimeout && l1.rx.neutralTimeout == l.rx.neutralTimeout
  {
    hide Iterate, Advance, Expired, Deadline;
    OneMore(env, Begin(l), 0);
    StraightTurn(env, Begin(l));
  }

  lemma TimedOutReturns(env: Env, l: Local)
    requires FirstWaitTimesOut(env, l)
    ensures Returns(env, l)
  {
    hide Iterate, Advance, LateAt, NeutralUpTo, InFirstWait, Returns;
    AtFirstWait(env, l);
    var t: nat :| LateAt(env, l, t) && NeutralUpTo(env, l.dataReads, l.dataReads + t + 1);
    var n := TimedWaitEnds(env, l, t, Iterate(env, Begin(l), 1));
    IterateAdd(env, Begin(l), 1, n);
    CallIs(env, l, 1 + n);
  }

  lemma OfferedReturns(env: Env, l: Local)
    requires l.rx.neutralTimeout == 0 && Offered(env, l.dataReads)
    ensures Returns(env, l)
  {
    hide Iterate, Advance, InFirstWait, Returns;
    AtFirstWait(env, l);
    var i: nat, j: nat :| l.dataReads <= i < j && env.data(i) != 0 && env.data(j) == 0;
    var n := ValidIsRead(env, Iterate(env, Begin(l), 1), i);
    IterateAdd(env, Begin(l), 1, n);
    var l2 := Iterate(env, Begin(l), 1 + n);
    if l2.rx.pc.Done? {
      CallIs(env, l, 1 + n);
    } else {
      var m := NeutralIsRead(env, l2, j);
      IterateAdd(env, Begin(l), 1 + n, m);
      CallIs(env, l, 1 + n + m);
    }
  }

  /** With both timeouts off, as in the firmware, a call returns exactly when the bus will, from
      now on, be read valid and later neutral. */
  lemma ReturnsIffHandshakeOffered(env: Env, l: Local)
    requires l.rx.validTimeout == 0 && l.rx.neutralTimeout == 0
    ensures Returns(env, l) <==>
            exists i: nat, j: nat :: l.dataReads <= i < j && env.data(i) != 0 && env.data(j) == 0
  {
    hide Returns;
    ReturnsIffTimedOutOrOffered(env, l);
  }

  /** With a timeout on the second wait only, and an advancing clock, a call returns exactly when the bus
      will be read valid. */
  lemma ReturnsIffValidRead(env: Env, elapsed: nat -> nat, l: Local)
    requires Advancing(env, elapsed) && l.rx.validTimeout == 0 && l.rx.neutralTimeout > 0
    ensures Returns(env, l) <==> exists i: nat :: i >= l.dataReads && env.data(i) != 0
  {
    hide Iterate, Advance, Advancing;
    var start := Begin(l);
    OneMore(env, start, 0);
    StraightTurn(env, start);
    var l1 := Iterate(env, start, 1);
    if Returns(env, l) {
      var n: nat :| IsDone(Iterate(env, start, n));
      ValidReadSoFar(env, l, n);
    }
    if i: nat :| i >= l.dataReads && env.data(i) != 0 {
      var n := ValidIsRead(env, l1, i);
      IterateAdd(env, start, 1, n);
      var l2 := Iterate(env, start, 1 + n);
      if l2.rx.pc.Done? {
        CallIs(env, l, 1 + n);
      } else {
        var m := HandshakeEnds(env, elapsed, l2);
        IterateAdd(env, start, 1 + n, m);
        CallIs(env, l, 1 + n + m);
      }
    }
  }

  lemma {:induction false} ValidReadSoFar(env: Env, l: Local, n: nat)
    requires l.rx.validTimeout == 0
    ensures var l2 := Iterate(env, Begin(l), n);
      && l2.rx.validTimeout == 0 && l2.dataReads >= l.dataReads
      && (l2.rx.pc.Entry? || l2.rx.pc.WaitValid? || exists i :: l.dataReads <= i < l2.dataReads && env.data(i) != 0)
  {
    hide Iterate, Advance;
    if n == 0 {
      OneMore(env, Begin(l), 0);
    } else {
      ValidReadSoFar(env, l, n - 1);
      OneMore(env, Begin(l), n - 1);
      var l1 := Iterate(env, Begin(l), n - 1);
      OneTurnOf(env, l1);
      if l1.rx.pc.WaitValid? && !Advance(env, l1).rx.pc.WaitValid? {
        assert env.data(l1.dataReads) != 0;
      }
    }
  }

  lemma OneTurnOf(env: Env, l: Local)
    ensures var l2 := Advance(env, l);
      && l2.rx.validTimeout == l.rx.validTimeout && l2.rx.neutralTimeout == l.rx.neutralTimeout
      && l2.dataReads == l.dataReads + (if ReadsData(l.rx) then 1 else 0)
      && !l2.rx.pc.Entry? && (l.rx.pc.Entry? ==> l2.rx.pc.WaitValid?)
      && (l2.rx.pc.WaitValid? ==> l.rx.pc.Entry? || l.rx.pc.WaitValid?)
      && (l.rx.pc.WaitValid? && !l2.rx.pc.WaitValid? ==> env.data(l.dataReads) != 0 || l.rx.validTimeout != 0)
  {
    hide Expired, Deadline;
  }

  /** What a call that began at `l0` has read by the time it is past its first, or its second, wait. */
  ghost predicate HasRead(env: Env, l0: Local, l: Local) {
    var pc, from, upTo := l.rx.pc, l0.dataReads, l.dataReads;
    && l.rx.validTimeout == l0.rx.validTimeout && l.rx.neutralTimeout == 0 && from <= upTo && !pc.Recover?
    && (pc.Entry? ==> upTo == from && l.clockReads == l0.clockReads)
    && (pc.WaitValid? ==> InFirstWait(env, l0, l))
    && (pc == Done(TimeoutWaitValid) ==> FirstWaitTimesOut(env, l0))
    && (pc.Entry? || pc.WaitValid? || pc == Done(TimeoutWaitValid)
        || exists i :: from <= i < upTo && env.data(i) != 0)
    && (pc.Release? || (pc.Done? && pc != Done(TimeoutWaitValid)) ==> Offered(env, from))
  }

  ghost predicate InFirstWait(env: Env, l0: Local, l: Local) {
    && l.dataReads >= l0.dataReads && NeutralUpTo(env, l0.dataReads, l.dataReads)
    && (l0.rx.validTimeout != 0 ==>
          && l.clockReads == l0.clockReads + 1 + (l.dataReads - l0.dataReads)
          && l.rx.deadline == Deadline(env.clock(l0.clockReads), l0.rx.validTimeout))
  }

  lemma {:induction false} ReadsSoFar(env: Env, l0: Local, n: nat)
    requires l0.rx.neutralTimeout == 0
    ensures HasRead(env, l0, Iterate(env, Begin(l0), n))
  {
    hide Iterate, Advance, HasRead;
    var start := Begin(l0);
    if n == 0 {
      OneMore(env, start, 0);
      NothingRead(env, l0);
    } else {
      ReadsSoFar(env, l0, n - 1);
      OneMore(env, start, n - 1);
      ReadOn(env, l0, Iterate(env, start, n - 1));
    }
  }

  lemma NothingRead(env: Env, l0: Local)
    requires l0.rx.neutralTimeout == 0
    ensures HasRead(env, l0, Begin(l0))
  {
  }

  lemma ReadOn(env: Env, l0: Local, l: Local)
    requires HasRead(env, l0, l)
    ensures HasRead(env, l0, Advance(env, l))
  {
    hide Advance, Expired, Deadline;
    match l.rx.pc {
      case WaitValid =>
        ValidTurn(env, l);
        var t := l.dataReads - l0.dataReads;
        assert env.data(l.dataReads) == 0 ==> NeutralUpTo(env, l0.dataReads, l.dataReads + 1);
        assert l.rx.validTimeout != 0 ==> (LateAt(env, l0, t) <==> Expired(l.rx.deadline, env.clock(l.clockReads)));
      case WaitNeutral => NeutralTurn(env, l);
      case _ => StraightTurn(env, l);
    }
  }

  lemma {:induction false} TimedWaitEnds(env: Env, l0: Local, t: nat, l: Local) returns (n: nat)
    requires l.rx.pc == WaitValid && InFirstWait(env, l0, l) && l.rx.validTimeout == l0.rx.validTimeout != 0
    requires LateAt(env, l0, t) && NeutralUpTo(env, l0.dataReads, l0.dataReads + t + 1)
    requires l.dataReads <= l0.dataReads + t
    ensures IsDone(Iterate(env, l, n))
    decreases l0.dataReads + t - l.dataReads
  {
    hide Iterate, Advance, Expired, Deadline;
    ValidTurn(env, l);
    OneMore(env, l, 0);
    n := 1;
    assert env.data(l.dataReads) == 0;
    if !IsDone(Advance(env, l)) {
      var m := TimedWaitEnds(env, l0, t, Advance(env, l));
      IterateAdd(env, l, 1, m);
      n := 1 + m;
    }
  }

  /** The first wait ends once the bus is read valid, if it has not timed out before. */
  lemma {:induction false} ValidIsRead(env: Env, l: Local, i: nat) returns (n: nat)
    requires l.rx.pc == WaitValid && l.dataReads <= i && env.data(i) != 0
    ensures var l2 := Iterate(env, l, n);
      && (l2.rx.pc.AssertAck? || l2.rx.pc.Done?)
      && l2.rx.neutralTimeout == l.rx.neutralTimeout && l2.dataReads <= i + 1
    decreases i - l.dataReads
  {
    hide Iterate, Advance;
    ValidTurn(env, l);
    OneMore(env, l, 0);
    n := 1;
    if Advance(env, l).rx.pc.WaitValid? {
      var m := ValidIsRead(env, Advance(env, l), i);
      IterateAdd(env, l, 1, m);
      n := 1 + m;
    }
  }

  /** From a latched word to the end of the call. */
  lemma NeutralIsRead(env: Env, l: Local, j: nat) returns (n: nat)
    requires l.rx.pc.AssertAck? && l.rx.neutralTimeout == 0 && l.dataReads <= j && env.data(j) == 0
    ensures IsDone(Iterate(env, l, n))
  {
    hide Iterate, Advance;
    OneMore(env, l, 0);
    StraightTurn(env, l);
    OneMore(env, l, 1);
    StraightTurn(env, Iterate(env, l, 1));
    var l2 := Iterate(env, l, 2);
    var m := NeutralWaitLeft(env, l2, j);
    IterateAdd(env, l, 2, m);
    OneMore(env, l, 2 + m);
    StraightTurn(env, Iterate(env, l, 2 + m));
    n := 3 + m;
  }

  lemma {:induction false} NeutralWaitLeft(env: Env, l: Local, j: nat) returns (n: nat)
    requires l.rx.pc == WaitNeutral && l.rx.neutralTimeout == 0 && l.dataReads <= j && env.data(j) == 0
    ensures Iterate(env, l, n).rx.pc.Release?
    decreases j - l.dataReads
  {
    hide Iterate, Advance;
    NeutralTurn(env, l);
    OneMore(env, l, 0);
    n := 1;
    if env.data(l.dataReads) != 0 {
      var m := NeutralWaitLeft(env, Advance(env, l), j);
      IterateAdd(env, l, 1, m);
      n := 1 + m;
    }
  }

  // ---------------- Which way a call ends ----------------

  /** The first `i` readings of a call are neutral and none is followed by a clock reading past the
      deadline of its first wait. */
  ghost predicate QuietFor(env: Env, l: Local, i: nat) {
    forall k: nat :: k < i ==> QuietAt(env, l, k)
  }

  predicate QuietAt(env: Env, l: Local, k: nat) {
    env.data(l.dataReads + k) == 0 && !(l.rx.validTimeout != 0 && LateAt(env, l, k))
  }

  /** The first `t` readings of a second wait that starts at `l` are not neutral and none is followed by a
      clock reading past its deadline. */
  ghost predicate ValidFor(env: Env, l: Local, t: nat) {
    forall k: nat :: k < t ==> ValidAt(env, l, k)
  }

  predicate ValidAt(env: Env, l: Local, k: nat) {
    env.data(l.dataReads + k) != 0 && !NeutralLate(env, l, k)
  }

  predicate NeutralLate(env: Env, l: Local, k: nat) {
    l.rx.neutralTimeout != 0 && Expired(l.rx.deadline, env.clock(l.clockReads + k))
  }

  lemma {:induction false} StillQuiet(env: Env, l: Local, i: nat)
    requires QuietFor(env, l, i)
    ensures var l2 := Iterate(env, Begin(l), 1 + i);
      && l2.rx.pc == WaitValid && l2.rx.deadline == DeadlineFor(l.rx.validTimeout, env.clock(l.clockReads))
      && l2.rx == Begin(l).rx.(pc := WaitValid, ack := false, deadline := l2.rx.deadline)
      && l2.dataReads == l.dataReads + i
      && l2.clockReads == l.clockReads + (if l.rx.validTimeout != 0 then 1 + i else 0)
  {
    hide Iterate, Advance, Expired, Deadline;
    OneMore(env, Begin(l), i);
    if i == 0 {
      OneMore(env, Begin(l), 0);
      StraightTurn(env, Begin(l));
    } else {
      StillQuiet(env, l, i - 1);
      assert QuietAt(env, l, i - 1);
      ValidTurn(env, Iterate(env, Begin(l), i));
    }
  }

  /** If a clock reading past the deadline comes before the first word, the call times out there. */
  lemma NoWordInTime(env: Env, l: Local, i: nat)
    requires QuietFor(env, l, i) && env.data(l.dataReads + i) == 0 && l.rx.validTimeout != 0 && LateAt(env, l, i)
    ensures Returns(env, l) && Call(env, l).rx.pc == Done(TimeoutWaitValid)
    ensures Call(env, l).dataReads == l.dataReads + i + 1
  {
    hide Iterate, Advance, Expired, Deadline, Returns, Call;
    StillQuiet(env, l, i);
    OneMore(env, Begin(l), 1 + i);
    ValidTurn(env, Iterate(env, Begin(l), 1 + i));
    CallIs(env, l, 2 + i);
  }

  /** Otherwise the first word is latched, and its second wait begins with the next readings of bus and
      clock. */
  lemma WordInTime(env: Env, l: Local, i: nat) returns (w: Local)
    requires QuietFor(env, l, i) && env.data(l.dataReads + i) != 0
    ensures w == Iterate(env, Begin(l), 4 + i) && w.rx.pc == WaitNeutral
    ensures w.rx.latched == l.rx.latched + [env.data(l.dataReads + i)]
    ensures w.dataReads == l.dataReads + i + 1 && w.rx.neutralTimeout == l.rx.neutralTimeout
    ensures var c := l.clockReads + if l.rx.validTimeout != 0 then 1 + i else 0;
      && w.clockReads == c + (if l.rx.neutralTimeout != 0 then 1 else 0)
      && w.rx.deadline == DeadlineFor(l.rx.neutralTimeout, env.clock(c))
  {
    hide Iterate, Advance, Expired, Deadline;
    var start := Begin(l);
    StillQuiet(env, l, i);
    OneMore(env, start, 1 + i);
    ValidTurn(env, Iterate(env, start, 1 + i));
    OneMore(env, start, 2 + i);
    StraightTurn(env, Iterate(env, start, 2 + i));
    OneMore(env, start, 3 + i);
    StraightTurn(env, Iterate(env, start, 3 + i));
    w := Iterate(env, start, 4 + i);
  }

  lemma {:induction false} StillValid(env: Env, l: Local, t: nat)
    requires l.rx.pc == WaitNeutral && ValidFor(env, l, t)
    ensures var l2 := Iterate(env, l, t);
      && l2.rx == l.rx && l2.dataReads == l.dataReads + t
      && l2.clockReads == l.clockReads + (if l.rx.neutralTimeout != 0 then t else 0)
  {
    hide Iterate, Advance, Expired, Deadline;
    if t == 0 {
      OneMore(env, l, 0);
    } else {
      StillValid(env, l, t - 1);
      OneMore(env, l, t - 1);
      assert ValidAt(env, l, t - 1);
      NeutralTurn(env, Iterate(env, l, t - 1));
    }
  }

  /** Then the call completes if the bus is read neutral first, and times out if a clock reading past the
      second deadline comes first. */
  lemma WordEnds(env: Env, l: Local, i: nat, w: Local, t: nat)
    requires QuietFor(env, l, i) && w == Iterate(env, Begin(l), 4 + i) && w.rx.pc == WaitNeutral
    requires ValidFor(env, w, t) && (env.data(w.dataReads + t) == 0 || NeutralLate(env, w, t))
    ensures Returns(env, l)
    ensures Call(env, l).rx.pc == if env.data(w.dataReads + t) == 0 then Done(Ok) else Done(TimeoutWaitNeutral)
  {
    hide Iterate, Advance, Expired, Deadline, Returns, Call;
    StillValid(env, w, t);
    OneMore(env, w, t);
    NeutralTurn(env, Iterate(env, w, t));
    OneMore(env, w, t + 1);
    StraightTurn(env, Iterate(env, w, t + 1));
    IterateAdd(env, Begin(l), 4 + i, t + 2);
    CallIs(env, l, 4 + i + (t + 2));
  }
}
