/** What becomes of the words a receive call latches: when they are stored, when they are dropped, and
    so what the service loop's result counts. */
module Drops {
  import opened Words
  import opened HalTime
  import opened RxPoll

  /** Nothing latched, stored or dropped. */
  ghost predicate Untouched(before: Rx, now: Rx) {
    && now.latched == before.latched && now.stored == before.stored
    && now.ring == before.ring && now.droppedFull == before.droppedFull
  }

  /** One word latched and then stored, or dropped if the ring was full. */
  ghost predicate Settled(before: Rx, now: Rx) {
    && now.latched != []
    && var w := now.latched[|now.latched| - 1];
       && now.latched == before.latched + [w]
       && (if RingFull(before) then
             now.stored == before.stored && now.ring == before.ring && now.droppedFull == before.droppedFull + 1
           else
             now.stored == before.stored + [w] && now.ring == before.ring + [w]
             && now.droppedFull == before.droppedFull)
  }

  predicate AfterStore(pc: Pc) {
    pc.WaitNeutral? || pc.Release? || pc.Recover? || pc == Done(Ok) || pc == Done(TimeoutWaitNeutral)
  }

  /** A call that began at `before`, seen at any of its steps. */
  ghost predicate InCall(before: Rx, now: Rx) {
    var pc := now.pc;
    && now.capacity == before.capacity
    && now.validTimeout == before.validTimeout && now.neutralTimeout == before.neutralTimeout
    && now.wordsOk == before.wordsOk + (if pc == Done(Ok) then 1 else 0)
    && (now.neutralTimeout == 0 ==> !pc.Recover? && pc != Done(TimeoutWaitNeutral))
    && (now.validTimeout == 0 ==> pc != Done(TimeoutWaitValid))
    && (pc.Store? || pc.WaitNeutral? ==> now.ack)
    && (if AfterStore(pc) then Settled(before, now)
        else if pc.AssertAck? || pc.Store? then
          now.latched == before.latched + [pc.word] && Untouched(before, now.(latched := before.latched))
        else (pc.Entry? || pc.WaitValid? || pc == Done(TimeoutWaitValid)) && Untouched(before, now))
  }

  lemma PollInCall(before: Rx, now: Rx, data: U32, clock: U64)
    requires InCall(before, now)
    ensures InCall(before, Poll(now, data, clock))
  {
    hide Expired, Deadline;
  }

  lemma {:induction false} CallSoFar(env: Env, l: Local, n: nat)
    ensures InCall(l.rx, Iterate(env, Begin(l), n).rx)
  {
    hide Poll, InCall;
    if n == 0 {
      BeginInCall(l);
    } else {
      var l1 := Iterate(env, Begin(l), n - 1);
      CallSoFar(env, l, n - 1);
      PollInCall(l.rx, l1.rx, env.data(l1.dataReads), env.clock(l1.clockReads));
    }
  }

  lemma BeginInCall(l: Local)
    ensures InCall(l.rx, Begin(l).rx)
  {
  }

  /** The moment of a call at which its word is acknowledged. */
  lemma {:induction false} WasAcknowledged(env: Env, l: Local, n: nat) returns (j: nat)
    requires AfterStore(Iterate(env, Begin(l), n).rx.pc)
    ensures var now := Iterate(env, Begin(l), j).rx;
      now.ack && now.latched == Iterate(env, Begin(l), n).rx.latched
  {
    CallSoFar(env, l, n);
    j := n;
    if !Iterate(env, Begin(l), n).rx.pc.WaitNeutral? {
      assert n > 0;
      var l1 := Iterate(env, Begin(l), n - 1);
      SameLatched(l1.rx, env.data(l1.dataReads), env.clock(l1.clockReads));
      j := WasAcknowledged(env, l, n - 1);
    }
  }

  lemma SameLatched(s: Rx, data: U32, now: U64)
    requires AfterStore(Poll(s, data, now).pc) && !Poll(s, data, now).pc.WaitNeutral?
    ensures AfterStore(s.pc) && Poll(s, data, now).latched == s.latched
  {
    hide Expired, Deadline;
  }

  /** Every call that returns: no word within its time, and nothing has changed; or one word, latched
      and acknowledged, and stored unless the ring was full when the call began, else dropped. */
  lemma CallOutcome(env: Env, l: Local)
    requires Returns(env, l)
    ensures var c := Call(env, l).rx;
      && InCall(l.rx, c)
      && (c.pc == Done(TimeoutWaitValid) || c.pc == Done(Ok) || c.pc == Done(TimeoutWaitNeutral))
      && (c.pc == Done(TimeoutWaitValid) ==> Untouched(l.rx, c))
      && (c.pc != Done(TimeoutWaitValid) ==>
            && Settled(l.rx, c)
            && exists j :: Iterate(env, Begin(l), j).rx.ack && Iterate(env, Begin(l), j).rx.latched == c.latched)
  {
    var n: nat :| IsDone(Iterate(env, Begin(l), n));
    CallIs(env, l, n);
    CallSoFar(env, l, n);
    hide Iterate;
    if AfterStore(Call(env, l).rx.pc) {
      var j := WasAcknowledged(env, l, n);
    }
  }

  // ---------------- Two environments ----------------

  /** A word ready at the first reading and gone at the second: the call completes, whatever the
      timeouts and the clock. */
  lemma PromptCall(env: Env, l: Local)
    requires env.data(l.dataReads) != 0 && env.data(l.dataReads + 1) == 0
    ensures Returns(env, l) && Call(env, l).rx.pc == Done(Ok) && Call(env, l).dataReads == l.dataReads + 2
  {
    hide Iterate, Advance, Expired, Deadline;
    var l4 := UpToNeutral(env, l);
    OneMore(env, Begin(l), 4);
    NeutralTurn(env, l4);
    OneMore(env, Begin(l), 5);
    StraightTurn(env, Iterate(env, Begin(l), 5));
    CallIs(env, l, 6);
  }

  /** A word that stays past the neutral timeout: the call gives up. */
  lemma HeldCall(env: Env, l: Local)
    requires env.data(l.dataReads) != 0 && env.data(l.dataReads + 1) != 0 && l.rx.neutralTimeout != 0
    requires var c := StoreClock(l); Expired(Deadline(env.clock(c), l.rx.neutralTimeout), env.clock(c + 1))
    ensures Returns(env, l) && Call(env, l).rx.pc == Done(TimeoutWaitNeutral)
  {
    hide Iterate, Advance, Expired, Deadline;
    var l4 := UpToNeutral(env, l);
    OneMore(env, Begin(l), 4);
    NeutralTurn(env, l4);
    OneMore(env, Begin(l), 5);
    StraightTurn(env, Iterate(env, Begin(l), 5));
    CallIs(env, l, 6);
  }

  /** Index of the clock reading that starts the second wait of a call whose word is ready. */
  function StoreClock(l: Local): nat {
    l.clockReads + if l.rx.validTimeout != 0 then 1 else 0
  }

  lemma UpToNeutral(env: Env, l: Local) returns (l4: Local)
    requires env.data(l.dataReads) != 0
    ensures l4 == Iterate(env, Begin(l), 4) && l4.rx.pc == WaitNeutral && l4.dataReads == l.dataReads + 1
    ensures l4.rx.neutralTimeout == l.rx.neutralTimeout
    ensures l4.rx.deadline == DeadlineFor(l.rx.neutralTimeout, env.clock(StoreClock(l)))
    ensures l.rx.neutralTimeout != 0 ==> l4.clockReads == StoreClock(l) + 1
  {
    hide Iterate, Advance, Expired, Deadline;
    var start := Begin(l);
    OneMore(env, start, 0);
    StraightTurn(env, start);
    OneMore(env, start, 1);
    ValidTurn(env, Iterate(env, start, 1));
    OneMore(env, start, 2);
    StraightTurn(env, Iterate(env, start, 2));
    OneMore(env, start, 3);
    l4 := Iterate(env, start, 4);
    StraightTurn(env, Iterate(env, start, 3));
  }

  /** Words that come and go at every second reading from `from` on. */
  function Prompt(from: nat): Env {
    Env(n => if n % 2 == from % 2 then 1 else 0, _ => 0)
  }

  /** A word that stays, and a clock that jumps by `timeout` after its reading number `c`. */
  function Held(c: nat, timeout: U32): Env {
    Env(_ => 1, n => if n <= c then 0 else timeout)
  }

  // ---------------- Backpressure ----------------

  /** The promised backpressure, that no word is acknowledged unless it is stored, is kept by a call in
      every environment exactly if the ring has room when the call begins. */
  lemma AcknowledgedIsStoredIff(l: Local)
    ensures (forall env :: Returns(env, l) && |Call(env, l).rx.latched| > |l.rx.latched| ==>
                             |Call(env, l).rx.stored| > |l.rx.stored|)
            <==> !RingFull(l.rx)
  {
    hide Call, Returns, Iterate, Expired;
    forall env | Returns(env, l) && |Call(env, l).rx.latched| > |l.rx.latched| && !RingFull(l.rx)
      ensures |Call(env, l).rx.stored| > |l.rx.stored|
    {
      CallOutcome(env, l);
    }
    if RingFull(l.rx) {
      var env := Prompt(l.dataReads);
      PromptCall(env, l);
      CallOutcome(env, l);
      assert Returns(env, l) && |Call(env, l).rx.latched| > |l.rx.latched|;
    }
  }

  /** The promised order, that a word is pushed only after its handshake is complete, is kept by a call
      in every environment exactly if there is no neutral timeout or nothing can be pushed. */
  lemma StoredIsCompletedIff(l: Local)
    ensures (forall env :: Returns(env, l) && |Call(env, l).rx.stored| > |l.rx.stored| ==>
                             Call(env, l).rx.pc == Done(Ok))
            <==> l.rx.neutralTimeout == 0 || RingFull(l.rx)
  {
    hide Call, Returns, Iterate;
    forall env | Returns(env, l) && |Call(env, l).rx.stored| > |l.rx.stored|
                 && (l.rx.neutralTimeout == 0 || RingFull(l.rx))
      ensures Call(env, l).rx.pc == Done(Ok)
    {
      CallOutcome(env, l);
    }
    if l.rx.neutralTimeout != 0 && !RingFull(l.rx) {
      var env := Held(StoreClock(l), l.rx.neutralTimeout);
      HeldCall(env, l);
      CallOutcome(env, l);
      assert Returns(env, l) && |Call(env, l).rx.stored| > |l.rx.stored|;
    }
  }

  // ---------------- What the service loop counts ----------------

  function Room(s: Rx): nat {
    if s.capacity > |s.ring| then s.capacity - 1 - |s.ring| else 0
  }

  ghost predicate CountsStored(env: Env, l: Local, timed: bool, deadline: U64, max: nat) {
    ServiceReturns(env, l, timed, deadline, max) ==>
      var f := Serviced(env, l, timed, deadline, max).rx;
      f.wordsOk - l.rx.wordsOk == |f.stored| - |l.rx.stored|
  }

  lemma {:induction false} EnoughRoomCounts(env: Env, l: Local, timed: bool, deadline: U64, max: nat)
    requires ServiceReturns(env, l, timed, deadline, max)
    requires l.rx.neutralTimeout == 0 && max <= Room(l.rx)
    ensures CountsStored(env, l, timed, deadline, max)
    decreases max
  {
    hide Call, Returns, Expired, Iterate;
    if max > 0 && !BudgetSpent(env, l, timed, deadline) {
      var l1 := BudgetChecked(l, timed);
      CallOutcome(env, l1);
      var l2 := Call(env, l1);
      if l2.rx.pc == Done(Ok) {
        EnoughRoomCounts(env, l2, timed, deadline, max - 1);
      }
    }
  }

  /** With a word ready at every call, all `max` handshakes complete and the ring takes what it can. */
  lemma {:induction false} PromptService(from: nat, l: Local, timed: bool, deadline: U64, max: nat)
    requires l.dataReads % 2 == from % 2 && (timed ==> !Expired(deadline, 0))
    ensures var env := Prompt(from);
      && ServiceReturns(env, l, timed, deadline, max)
      && var f := Serviced(env, l, timed, deadline, max).rx;
         f.wordsOk == l.rx.wordsOk + max && |f.stored| == |l.rx.stored| + Min(max, Room(l.rx))
    decreases max
  {
    hide Call, Returns, Expired, Iterate;
    if max > 0 {
      var env, l1 := Prompt(from), BudgetChecked(l, timed);
      PromptCall(env, l1);
      CallOutcome(env, l1);
      var l2 := Call(env, l1);
      PromptService(from, l2, timed, deadline, max - 1);
    }
  }

  /** The documented result, the number of words successfully pushed, is what the service loop returns
      in every environment exactly if it is to make no call, or no handshake can time out half-way and
      the ring has room for all the words. */
  lemma ServiceCountsStoredIff(l: Local, budget: U32, max: nat)
    ensures (forall env :: CountsStored(env, BudgetStart(l, budget), budget != 0, BudgetDeadline(env, l, budget), max))
            <==> max == 0 || (l.rx.neutralTimeout == 0 && max <= l.rx.capacity - 1 - |l.rx.ring|)
  {
    hide Call, Returns, Expired, Iterate, Serviced, ServiceReturns, CountsStored;
    var start, timed := BudgetStart(l, budget), budget != 0;
    if max == 0 || (l.rx.neutralTimeout == 0 && max <= l.rx.capacity - 1 - |l.rx.ring|) {
      forall env ensures CountsStored(env, start, timed, BudgetDeadline(env, l, budget), max) {
        CountsIfRoom(env, start, timed, BudgetDeadline(env, l, budget), max);
      }
    } else if l.rx.neutralTimeout == 0 || RingFull(l.rx) {
      var env := Prompt(l.dataReads);
      BudgetLasts(budget);
      PromptService(l.dataReads, start, timed, BudgetDeadline(env, l, budget), max);
      NotCounted(env, start, timed, BudgetDeadline(env, l, budget), max);
    } else {
      var env := HeldService(l, budget, max);
      NotCounted(env, start, timed, BudgetDeadline(env, l, budget), max);
    }
  }

  lemma NotCounted(env: Env, l: Local, timed: bool, deadline: U64, max: nat)
    requires ServiceReturns(env, l, timed, deadline, max)
    requires var f := Serviced(env, l, timed, deadline, max).rx;
      f.wordsOk - l.rx.wordsOk != |f.stored| - |l.rx.stored|
    ensures !CountsStored(env, l, timed, deadline, max)
  {
    hide Serviced, ServiceReturns;
  }

  lemma CountsIfRoom(env: Env, l: Local, timed: bool, deadline: U64, max: nat)
    requires max == 0 || (l.rx.neutralTimeout == 0 && max <= l.rx.capacity - 1 - |l.rx.ring|)
    ensures CountsStored(env, l, timed, deadline, max)
  {
    if max > 0 && ServiceReturns(env, l, timed, deadline, max) {
      EnoughRoomCounts(env, l, timed, deadline, max);
    }
  }

  /** A budget is not spent while the clock stands still. */
  lemma BudgetLasts(budget: U32)
    ensures budget != 0 ==> !Expired(DeadlineFor(budget, 0), 0)
  {
  }

  /** One word stored by a handshake that then times out. */
  lemma HeldService(l: Local, budget: U32, max: nat) returns (env: Env)
    requires max > 0 && l.rx.neutralTimeout != 0 && !RingFull(l.rx)
    ensures var start, deadline := BudgetStart(l, budget), BudgetDeadline(env, l, budget);
      && ServiceReturns(env, start, budget != 0, deadline, max)
      && var f := Serviced(env, start, budget != 0, deadline, max).rx;
         f.wordsOk == l.rx.wordsOk && |f.stored| == |l.rx.stored| + 1
  {
    hide Call, Returns, Iterate;
    var start := BudgetStart(l, budget);
    var l1 := BudgetChecked(start, budget != 0);
    env := Held(StoreClock(l1), l.rx.neutralTimeout);
    BudgetLasts(budget);
    HeldCall(env, l1);
    CallOutcome(env, l1);
  }
}
