/** The time budget of the service loop, in terms of clock readings: exactly how many calls it makes. */
module Budget {
  import opened Words
  import opened HalTime
  import opened RxPoll
  import Drops

  /** Clock reading `i` shows, allowing for wrap-around, that `budget` has passed since reading `from`: up
      to 2^63 microseconds beyond it. */
  predicate Past(env: Env, from: nat, budget: U32, i: nat) {
    (env.clock(i) - env.clock(from) - budget) % TWO64 <= TWO63
  }

  /** On a clock whose true time is `elapsed`, within that bound, that is what the reading shows. */
  lemma PastIff(env: Env, elapsed: nat -> nat, from: nat, budget: U32, i: nat)
    requires env.clock(from) == elapsed(from) % TWO64 && env.clock(i) == elapsed(i) % TWO64
    requires elapsed(from) <= elapsed(i) <= elapsed(from) + budget + TWO63
    ensures Past(env, from, budget, i) <==> elapsed(i) >= elapsed(from) + budget
  {
    var late := elapsed(i) - elapsed(from) - budget;
    SameLate(elapsed(i), elapsed(from), budget);
    assert (env.clock(i) - env.clock(from) - budget) % TWO64 == late % TWO64;
    if late >= 0 {
      DivUnique(late, TWO64, 0, late);
    } else {
      DivUnique(late, TWO64, -1, late + TWO64);
    }
  }

  lemma SameLate(a: nat, b: nat, c: nat)
    ensures (a % TWO64 - b % TWO64 - c) % TWO64 == (a - b - c) % TWO64
  {
    var x, q := (a % TWO64 - b % TWO64 - c) % TWO64, (a % TWO64 - b % TWO64 - c) / TWO64;
    assert a % TWO64 - b % TWO64 - c == TWO64 * q + x;
    assert a == TWO64 * (a / TWO64) + a % TWO64 && b == TWO64 * (b / TWO64) + b % TWO64;
    var k := q + a / TWO64 - b / TWO64;
    assert a - b - c == TWO64 * k + x;
    DivUnique(a - b - c, TWO64, k, x);
  }

  lemma ExpiredIsPast(env: Env, from: nat, budget: U32, i: nat)
    ensures Expired(Deadline(env.clock(from), budget), env.clock(i)) <==> Past(env, from, budget, i)
  {
    var start, now := env.clock(from), env.clock(i);
    var e := if now >= start then now - start else now - start + TWO64;
    assert After(start, e) == now by {
      if now >= start {
        DivUnique(start + e, TWO64, 0, now);
      } else {
        DivUnique(start + e, TWO64, 1, now);
      }
    }
    ExpiredIffTimeoutPassed(start, budget, e);
    if now < start {
      Shifted(now - start - budget);
    }
  }

  lemma Shifted(x: int)
    ensures (x + TWO64) % TWO64 == x % TWO64
  {
    var q, r := x / TWO64, x % TWO64;
    assert x == TWO64 * q + r;
    DivUnique(x + TWO64, TWO64, q + 1, r);
  }

  /** Before a call the loop reads the clock, if it has a budget. */
  function Checked(l: Local, budget: U32): Local {
    if budget != 0 then l.(clockReads := l.clockReads + 1) else l
  }

  /** Each of the next `k` calls returns OK. */
  ghost predicate AllOk(env: Env, l: Local, budget: U32, k: nat)
    decreases k
  {
    k == 0
    || (Returns(env, Checked(l, budget)) && Call(env, Checked(l, budget)).rx.pc == Done(Ok)
        && AllOk(env, Call(env, Checked(l, budget)), budget, k - 1))
  }

  /** Where they lead. */
  ghost function AfterCalls(env: Env, l: Local, budget: U32, k: nat): Local
    requires AllOk(env, l, budget, k)
    decreases k
  {
    if k == 0 then l else AfterCalls(env, Call(env, Checked(l, budget)), budget, k - 1)
  }

  lemma {:induction false} FewerOk(env: Env, l: Local, budget: U32, i: nat, k: nat)
    requires i <= k && AllOk(env, l, budget, k)
    ensures AllOk(env, l, budget, i)
    decreases k
  {
    hide Call, Returns;
    if i > 0 {
      FewerOk(env, Call(env, Checked(l, budget)), budget, i - 1, k - 1);
    }
  }

  /** After `k` calls that returned OK, none of them begun past the budget, the loop ends at `end`: all
      calls made, or the reading before the next call past the budget and nothing done after it, or the
      next call made and not OK. */
  ghost predicate EndsAfter(env: Env, from: nat, start: Local, budget: U32, max: nat, k: nat, end: Local) {
    && k <= max && AllOk(env, start, budget, k)
    && (forall i: nat :: i < k && budget != 0 ==> InTime(env, from, start, budget, i))
    && var s := AfterCalls(env, start, budget, k);
       if k == max then end == s
       else if budget != 0 && Past(env, from, budget, s.clockReads) then end == s.(clockReads := s.clockReads + 1)
       else Returns(env, Checked(s, budget)) && end == Call(env, Checked(s, budget)) && end.rx.pc != Done(Ok)
  }

  /** The reading before call `i` was not past the budget. */
  ghost predicate InTime(env: Env, from: nat, start: Local, budget: U32, i: nat) {
    AllOk(env, start, budget, i) && !Past(env, from, budget, AfterCalls(env, start, budget, i).clockReads)
  }

  lemma {:induction false} EndsSomewhere(env: Env, from: nat, l: Local, budget: U32, max: nat) returns (k: nat)
    requires var deadline := DeadlineFor(budget, env.clock(from));
      ServiceReturns(env, l, budget != 0, deadline, max)
    ensures EndsAfter(env, from, l, budget, max, k,
                      Serviced(env, l, budget != 0, DeadlineFor(budget, env.clock(from)), max))
    decreases max
  {
    hide Call, Returns, Expired, Deadline, Past;
    k := 0;
    if max > 0 {
      ExpiredIsPast(env, from, budget, l.clockReads);
      if !(budget != 0 && Past(env, from, budget, l.clockReads)) {
        var next := Call(env, Checked(l, budget));
        if next.rx.pc == Done(Ok) {
          var m := EndsSomewhere(env, from, next, budget, max - 1);
          k := m + 1;
          forall i: nat | i < k && budget != 0 ensures InTime(env, from, l, budget, i) {
            if i > 0 {
              assert InTime(env, from, next, budget, i - 1);
            }
          }
        }
      }
    }
  }

  lemma {:induction false} OkCallsComplete(env: Env, l: Local, budget: U32, k: nat)
    requires AllOk(env, l, budget, k)
    ensures AfterCalls(env, l, budget, k).rx.wordsOk == l.rx.wordsOk + k
    decreases k
  {
    hide Call, Returns;
    if k > 0 {
      CallCountsHandshake(env, Checked(l, budget));
      OkCallsComplete(env, Call(env, Checked(l, budget)), budget, k - 1);
    }
  }

  /** The whole service: in every environment it ends in exactly one of these ways, and returns the number
      of calls that returned OK. */
  lemma ServiceEnds(env: Env, l: Local, budget: U32, max: nat) returns (k: nat)
    requires ServiceReturns(env, BudgetStart(l, budget), budget != 0, BudgetDeadline(env, l, budget), max)
    ensures var end := Serviced(env, BudgetStart(l, budget), budget != 0, BudgetDeadline(env, l, budget), max);
      && EndsAfter(env, l.clockReads, BudgetStart(l, budget), budget, max, k, end)
      && end.rx.wordsOk == l.rx.wordsOk + k
  {
    hide Call, Returns, Expired, Deadline, Past, AllOk, AfterCalls, Serviced, ServiceReturns;
    var start := BudgetStart(l, budget);
    k := EndsSomewhere(env, l.clockReads, start, budget, max);
    OkCallsComplete(env, start, budget, k);
    var s := AfterCalls(env, start, budget, k);
    if k < max && !(budget != 0 && Past(env, l.clockReads, budget, s.clockReads)) {
      CallCountsHandshake(env, Checked(s, budget));
    }
  }

  /** In particular: if the reading before call `k` is past the budget, no more than `k` handshakes
      complete, and if the loop gets that far it ends there, with no further reading of bus or clock. */
  lemma BudgetEndsService(env: Env, l: Local, budget: U32, max: nat, k: nat)
    requires ServiceReturns(env, BudgetStart(l, budget), budget != 0, BudgetDeadline(env, l, budget), max)
    requires budget != 0 && k < max && AllOk(env, BudgetStart(l, budget), budget, k)
    requires Past(env, l.clockReads, budget, AfterCalls(env, BudgetStart(l, budget), budget, k).clockReads)
    ensures var end := Serviced(env, BudgetStart(l, budget), true, BudgetDeadline(env, l, budget), max);
      var s := AfterCalls(env, BudgetStart(l, budget), budget, k);
      && end.rx.wordsOk <= l.rx.wordsOk + k
      && (end.rx.wordsOk == l.rx.wordsOk + k ==> end == s.(clockReads := s.clockReads + 1))
  {
    hide Call, Returns, Past, AllOk, AfterCalls, Serviced, ServiceReturns;
    var j := ServiceEnds(env, l, budget, max);
    if j > k {
      var end := Serviced(env, BudgetStart(l, budget), true, BudgetDeadline(env, l, budget), max);
      EarlierInTime(env, l.clockReads, BudgetStart(l, budget), budget, max, j, end, k);
    }
  }

  lemma EarlierInTime(env: Env, from: nat, start: Local, budget: U32, max: nat, k: nat, end: Local, i: nat)
    requires EndsAfter(env, from, start, budget, max, k, end) && i < k && budget != 0
    ensures AllOk(env, start, budget, i) && !Past(env, from, budget, AfterCalls(env, start, budget, i).clockReads)
  {
    assert InTime(env, from, start, budget, i);
  }

  /** And it ends before `max` handshakes only there, or after a call that did not return OK. */
  lemma ServiceGoesOn(env: Env, l: Local, budget: U32, max: nat)
    requires ServiceReturns(env, BudgetStart(l, budget), budget != 0, BudgetDeadline(env, l, budget), max)
    ensures var end := Serviced(env, BudgetStart(l, budget), budget != 0, BudgetDeadline(env, l, budget), max);
      || end.rx.wordsOk == l.rx.wordsOk + max
      || end.rx.pc == Done(TimeoutWaitValid) || end.rx.pc == Done(TimeoutWaitNeutral)
      || (budget != 0 && end.clockReads > l.clockReads + 1 && Past(env, l.clockReads, budget, end.clockReads - 1))
  {
    hide Call, Returns, Past, AllOk, AfterCalls, Serviced, ServiceReturns;
    var k := ServiceEnds(env, l, budget, max);
    var start := BudgetStart(l, budget);
    var s := AfterCalls(env, start, budget, k);
    MoreClock(env, start, budget, k);
    if k < max && !(budget != 0 && Past(env, l.clockReads, budget, s.clockReads)) {
      Drops.CallOutcome(env, Checked(s, budget));
    }
  }

  lemma {:induction false} MoreClock(env: Env, l: Local, budget: U32, k: nat)
    requires AllOk(env, l, budget, k)
    ensures AfterCalls(env, l, budget, k).clockReads >= l.clockReads
    decreases k
  {
    hide Call, Returns;
    if k > 0 {
      ClockGoesOn(env, Checked(l, budget));
      MoreClock(env, Call(env, Checked(l, budget)), budget, k - 1);
    }
  }

  lemma ClockGoesOn(env: Env, l: Local)
    requires Returns(env, l)
    ensures Call(env, l).clockReads >= l.clockReads
  {
    hide Iterate;
    var n: nat :| IsDone(Iterate(env, Begin(l), n));
    CallIs(env, l, n);
    ReadsOnly(env, Begin(l), n);
  }

  lemma {:induction false} ReadsOnly(env: Env, l: Local, n: nat)
    ensures Iterate(env, l, n).clockReads >= l.clockReads
  {
    hide Poll;
    if n > 0 {
      ReadsOnly(env, l, n - 1);
    }
  }
}
