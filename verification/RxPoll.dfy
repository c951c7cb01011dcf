/** The polling receiver (pico_aer_rx/aer_rx_poll.c): one four-phase handshake per call, word by
    word into the ring buffer, with optional timeouts on both waits. */
module RxPoll {
  import opened Words
  import opened HalTime
  import RingBuf

  datatype Status = Ok | NoSpace | TimeoutWaitValid | TimeoutWaitNeutral

  /** Where a call is, between two accesses to the bus, the ACK line or the ring. */
  datatype Pc = Entry | WaitValid | AssertAck(word: U32) | Store(word: U32)
              | WaitNeutral | Release | Recover | Done(status: Status)

  /** Receiver, its ring and its ACK line. Counters are unbounded totals; `latched` and `stored`
      record what has been read off the bus and what has been pushed. */
  datatype Rx = Rx(
    validTimeout: U32, neutralTimeout: U32, capacity: nat,
    pc: Pc, ack: bool, ring: seq<U32>, deadline: U64,
    wordsOk: nat, droppedFull: nat, timeoutsValid: nat, timeoutsNeutral: nat,
    latched: seq<U32>, stored: seq<U32>)

  /** `aer_rx_poll_init` on a ring that holds `held`. */
  function Initial(capacity: nat, held: seq<U32>, validTimeout: U32, neutralTimeout: U32): Rx {
    Rx(validTimeout, neutralTimeout, capacity, Done(Ok), false, held, 0, 0, 0, 0, 0, [], [])
  }

  function DeadlineFor(timeout: U32, now: U64): U64 {
    if timeout != 0 then Deadline(now, timeout) else 0
  }

  predicate RingFull(s: Rx) {
    |s.ring| + 1 >= s.capacity
  }

  /** One step of a call; `data` is what the DATA lines read now, `now` what the clock reads. */
  function Poll(s: Rx, data: U32, now: U64): Rx {
    match s.pc
    case Entry =>
      s.(ack := false, deadline := DeadlineFor(s.validTimeout, now), pc := WaitValid)
    case WaitValid =>
      if data != 0 then s.(pc := AssertAck(data), latched := s.latched + [data])
      else if s.validTimeout != 0 && Expired(s.deadline, now) then
        s.(timeoutsValid := s.timeoutsValid + 1, deadline := 0, pc := Done(TimeoutWaitValid))
      else s
    case AssertAck(word) =>
      s.(ack := true, pc := Store(word))
    case Store(word) =>
      var s1 := if RingFull(s) then s.(droppedFull := s.droppedFull + 1)
                else s.(ring := s.ring + [word], stored := s.stored + [word]);
      s1.(deadline := DeadlineFor(s.neutralTimeout, now), pc := WaitNeutral)
    case WaitNeutral =>
      if data == 0 then s.(pc := Release)
      else if s.neutralTimeout != 0 && Expired(s.deadline, now) then
        s.(timeoutsNeutral := s.timeoutsNeutral + 1, pc := Recover)
      else s
    case Release =>
      s.(ack := false, wordsOk := s.wordsOk + 1, deadline := 0, pc := Done(Ok))
    case Recover =>
      s.(ack := false, deadline := 0, pc := Done(TimeoutWaitNeutral))
    case Done(_) => s
  }

  // ---------------- A call against its environment ----------------

  /** What successive reads of the DATA lines and of the clock will return. */
  datatype Env = Env(data: nat -> U32, clock: nat -> U64)

  /** A receiver and how many reads have been made. */
  datatype Local = Local(rx: Rx, dataReads: nat, clockReads: nat)

  predicate ReadsData(s: Rx) {
    s.pc.WaitValid? || s.pc.WaitNeutral?
  }

  predicate ReadsClock(s: Rx, data: U32) {
    match s.pc
    case Entry => s.validTimeout != 0
    case WaitValid => data == 0 && s.validTimeout != 0
    case Store(_) => s.neutralTimeout != 0
    case WaitNeutral => data != 0 && s.neutralTimeout != 0
    case _ => false
  }

  function Advance(env: Env, l: Local): Local {
    var data := env.data(l.dataReads);
    Local(Poll(l.rx, data, env.clock(l.clockReads)),
          l.dataReads + (if ReadsData(l.rx) then 1 else 0),
          l.clockReads + (if ReadsClock(l.rx, data) then 1 else 0))
  }

  function Iterate(env: Env, l: Local, n: nat): Local {
    if n == 0 then l else Advance(env, Iterate(env, l, n - 1))
  }

  predicate IsDone(l: Local) {
    l.rx.pc.Done?
  }

  function Begin(l: Local): Local {
    l.(rx := l.rx.(pc := Entry))
  }

  /** The call that starts at `l` returns. */
  ghost predicate Returns(env: Env, l: Local) {
    exists n: nat :: IsDone(Iterate(env, Begin(l), n))
  }

  /** The state in which it returns. */
  ghost function Call(env: Env, l: Local): Local
    requires Returns(env, l)
  {
    var n: nat :| IsDone(Iterate(env, Begin(l), n));
    Iterate(env, Begin(l), n)
  }

  lemma {:induction false} DoneStays(env: Env, l: Local, n: nat, m: nat)
    requires n <= m && IsDone(Iterate(env, l, n))
    ensures Iterate(env, l, m) == Iterate(env, l, n)
  {
    if n < m {
      DoneStays(env, l, n, m - 1);
    }
  }

  lemma CallIs(env: Env, l: Local, n: nat)
    requires IsDone(Iterate(env, Begin(l), n))
    ensures Returns(env, l) && Call(env, l) == Iterate(env, Begin(l), n)
  {
    var m: nat :| IsDone(Iterate(env, Begin(l), m)) && Call(env, l) == Iterate(env, Begin(l), m);
    if m <= n {
      DoneStays(env, Begin(l), m, n);
    } else {
      DoneStays(env, Begin(l), n, m);
    }
  }

  lemma {:induction false} IterateAdd(env: Env, l: Local, a: nat, b: nat)
    ensures Iterate(env, Iterate(env, l, a), b) == Iterate(env, l, a + b)
  {
    hide Advance;
    if b > 0 {
      IterateAdd(env, l, a, b - 1);
    }
  }

  // ---------------- Several calls in a row ----------------

  function BudgetStart(l: Local, budget: U32): Local {
    if budget != 0 then l.(clockReads := l.clockReads + 1) else l
  }

  function BudgetDeadline(env: Env, l: Local, budget: U32): U64 {
    DeadlineFor(budget, env.clock(l.clockReads))
  }

  function BudgetChecked(l: Local, timed: bool): Local {
    if timed then l.(clockReads := l.clockReads + 1) else l
  }

  predicate BudgetSpent(env: Env, l: Local, timed: bool, deadline: U64) {
    timed && Expired(deadline, env.clock(l.clockReads))
  }

  /** Every call that `aer_rx_poll_service` makes from `l` returns. */
  ghost predicate ServiceReturns(env: Env, l: Local, timed: bool, deadline: U64, max: nat)
    decreases max
  {
    max == 0 || BudgetSpent(env, l, timed, deadline)
    || (var l1 := BudgetChecked(l, timed);
        && Returns(env, l1)
        && (Call(env, l1).rx.pc == Done(Ok) ==> ServiceReturns(env, Call(env, l1), timed, deadline, max - 1)))
  }

  ghost function Serviced(env: Env, l: Local, timed: bool, deadline: U64, max: nat): Local
    requires ServiceReturns(env, l, timed, deadline, max)
    decreases max
  {
    if max == 0 then l
    else if BudgetSpent(env, l, timed, deadline) then BudgetChecked(l, timed)
    else
      var l1 := Call(env, BudgetChecked(l, timed));
      if l1.rx.pc == Done(Ok) then Serviced(env, l1, timed, deadline, max - 1) else l1
  }

  lemma {:induction false} HandshakesSoFar(env: Env, l: Local, n: nat)
    ensures var l2 := Iterate(env, Begin(l), n);
      l2.rx.wordsOk == l.rx.wordsOk + if l2.rx.pc == Done(Ok) then 1 else 0
  {
    hide Poll;
    if n > 0 {
      var l1 := Iterate(env, Begin(l), n - 1);
      HandshakesSoFar(env, l, n - 1);
      PollCounts(l1.rx, env.data(l1.dataReads), env.clock(l1.clockReads));
    }
  }

  lemma PollCounts(s: Rx, data: U32, now: U64)
    ensures Poll(s, data, now).wordsOk
            == s.wordsOk + if Poll(s, data, now).pc == Done(Ok) && s.pc != Done(Ok) then 1 else 0
    ensures s.pc == Done(Ok) ==> Poll(s, data, now).pc == Done(Ok)
  {
    hide Expired, Deadline;
  }

  /** A call completes one handshake if it returns Ok, and none otherwise. */
  lemma CallCountsHandshake(env: Env, l: Local)
    requires Returns(env, l)
    ensures Call(env, l).rx.pc.Done?
    ensures Call(env, l).rx.wordsOk == l.rx.wordsOk + if Call(env, l).rx.pc == Done(Ok) then 1 else 0
  {
    var n: nat :| IsDone(Iterate(env, Begin(l), n));
    CallIs(env, l, n);
    HandshakesSoFar(env, l, n);
  }

  // ---------------- The C object refines the steps ----------------

  class Hal {
    const env: Env
    var dataReads: nat
    var clockReads: nat
    var ack: bool

    constructor (env: Env)
      ensures this.env == env && dataReads == 0 && clockReads == 0 && !ack
    {
      this.env, dataReads, clockReads, ack := env, 0, 0, false;
    }

    method ReadDataRaw() returns (raw: U32)
      modifies this`dataReads
      ensures raw == env.data(old(dataReads)) && dataReads == old(dataReads) + 1
    {
      raw := env.data(dataReads);
      dataReads := dataReads + 1;
    }

    method TimeUsNow() returns (now: U64)
      modifies this`clockReads
      ensures now == env.clock(old(clockReads)) && clockReads == old(clockReads) + 1
    {
      now := env.clock(clockReads);
      clockReads := clockReads + 1;
    }

    method AckWrite(asserted: bool)
      modifies this`ack
      ensures ack == asserted
    {
      ack := asserted;
    }
  }

  class Receiver {
    const hal: Hal
    const rb: RingBuf.RingBuf
    const waitValidTimeoutUs: U32
    const waitNeutralTimeoutUs: U32
    var wordsOk: U32
    var droppedFull: U32
    var timeoutsValid: U32
    var timeoutsNeutral: U32
    /** The abstract state, moved forward one step at a time beside the real one. */
    ghost var model: Local

    constructor (hal: Hal, rb: RingBuf.RingBuf, waitValidTimeoutUs: U32, waitNeutralTimeoutUs: U32)
      requires rb.Valid()
      modifies hal`ack
      ensures this.hal == hal && this.rb == rb && Valid()
      ensures model == Local(Initial(rb.capacity, rb.Contents(), waitValidTimeoutUs, waitNeutralTimeoutUs),
                             hal.dataReads, hal.clockReads)
    {
      this.hal, this.rb := hal, rb;
      this.waitValidTimeoutUs, this.waitNeutralTimeoutUs := waitValidTimeoutUs, waitNeutralTimeoutUs;
      wordsOk, droppedFull, timeoutsValid, timeoutsNeutral := 0, 0, 0, 0;
      model := Local(Initial(rb.capacity, rb.Contents(), waitValidTimeoutUs, waitNeutralTimeoutUs),
                     hal.dataReads, hal.clockReads);
      new;
      hal.AckWrite(false);
    }

    /** Ring, ACK line, read counts and configuration are the model's; the 32-bit statistics
        are its totals, wrapped. */
    ghost predicate Valid()
      reads this, hal, rb, rb.buf
    {
      && rb.Valid()
      && model.rx.ring == rb.Contents() && model.rx.capacity == rb.capacity
      && model.rx.ack == hal.ack
      && model.dataReads == hal.dataReads && model.clockReads == hal.clockReads
      && model.rx.validTimeout == waitValidTimeoutUs && model.rx.neutralTimeout == waitNeutralTimeoutUs
      && CountersMatch()
    }

    ghost predicate CountersMatch()
      reads this
    {
      && wordsOk == model.rx.wordsOk % TWO32 && droppedFull == model.rx.droppedFull % TWO32
      && timeoutsValid == model.rx.timeoutsValid % TWO32 && timeoutsNeutral == model.rx.timeoutsNeutral % TWO32
    }

    /** `aer_rx_poll_step`, for every call that returns. */
    method Step() returns (st: Status)
      requires Valid() && Returns(hal.env, model)
      modifies this, hal, rb`head, rb.buf
      ensures Valid()
      ensures model == Call(hal.env, old(model)) && model.rx.pc == Done(st)
    {
      hide Iterate, Advance, Poll, Expired, Increment, RingBuf.Stored;
      ghost var before := model;
      model := Begin(model);
      ghost var start := model;
      ghost var k: nat;
      OneMore(hal.env, start, 0);
      StraightTurn(hal.env, start);

      hal.AckWrite(false);
      var deadline: U64 := 0;
      if waitValidTimeoutUs != 0 {
        var now := hal.TimeUsNow();
        deadline := Deadline(now, waitValidTimeoutUs);
      }
      model := Advance(hal.env, start);

      var raw: U32;
      raw, k := AwaitValid(deadline, start, 1);
      if raw == 0 {
        CallIs(hal.env, before, k);
        return TimeoutWaitValid;
      }
      st, k := Complete(raw, start, k);
      CallIs(hal.env, before, k);
    }

    /** From the latched word to the end of the handshake. */
    method Complete(raw: U32, ghost start: Local, ghost k0: nat) returns (st: Status, ghost k: nat)
      requires Valid() && model == Iterate(hal.env, start, k0) && model.rx.pc == AssertAck(raw)
      requires exists n: nat :: IsDone(Iterate(hal.env, start, n))
      modifies this, hal, rb`head, rb.buf
      ensures Valid() && model == Iterate(hal.env, start, k) && model.rx.pc == Done(st)
    {
      hide Iterate, Advance, Poll, Expired, Increment, RingBuf.Stored, RingBuf.RingBuf.Contents;
      OneMore(hal.env, start, k0);
      StraightTurn(hal.env, model);
      hal.AckWrite(true);
      model := Advance(hal.env, model);
      var deadline := StoreWord(raw, start, k0 + 1);
      var neutral: bool;
      neutral, k := AwaitNeutral(deadline, start, k0 + 2);
      OneMore(hal.env, start, k);
      st := Finish(neutral);
      k := k + 1;
    }

    /** Push or drop, then set the deadline of the second wait. */
    method StoreWord(raw: U32, ghost start: Local, ghost k: nat) returns (deadline: U64)
      requires Valid() && model == Iterate(hal.env, start, k) && model.rx.pc == Store(raw)
      modifies this`droppedFull, this`model, hal`clockReads, rb`head, rb.buf
      ensures Valid() && model == Iterate(hal.env, start, k + 1)
      ensures model.rx.pc == WaitNeutral && model.rx.deadline == deadline
    {
      hide Iterate, Advance, Poll, Increment, RingBuf.Stored, RingBuf.RingBuf.Contents;
      OneMore(hal.env, start, k);
      StraightTurn(hal.env, model);
      ghost var stored := Advance(hal.env, model);
      Deposit(raw);
      deadline := 0;
      if waitNeutralTimeoutUs != 0 {
        var now := hal.TimeUsNow();
        deadline := Deadline(now, waitNeutralTimeoutUs);
      }
      model := stored;
    }

    /** Drop ACK, and count the handshake if it completed. */
    method Finish(neutral: bool) returns (st: Status)
      requires Valid() && model.rx.pc == if neutral then Release else Recover
      modifies this`wordsOk, this`model, hal`ack
      ensures Valid() && model == Advance(hal.env, old(model)) && model.rx.pc == Done(st)
    {
      hide Advance, Poll, Increment, RingBuf.Stored, RingBuf.RingBuf.Contents;
      StraightTurn(hal.env, model);
      hal.AckWrite(false);
      IncrementIs(model.rx.wordsOk);
      model := Advance(hal.env, model);
      if !neutral {
        return TimeoutWaitNeutral;
      }
      wordsOk := Increment(wordsOk);
      return Ok;
    }

    /** Wait for DATA != 0; 0 is returned on timeout. */
    method AwaitValid(deadline: U64, ghost start: Local, ghost k0: nat) returns (raw: U32, ghost k: nat)
      requires Valid() && model == Iterate(hal.env, start, k0)
      requires model.rx.pc == WaitValid && model.rx.deadline == deadline
      requires exists n: nat :: IsDone(Iterate(hal.env, start, n))
      modifies this`timeoutsValid, this`model, hal`dataReads, hal`clockReads
      ensures Valid() && model == Iterate(hal.env, start, k)
      ensures model.rx.pc == if raw != 0 then AssertAck(raw) else Done(TimeoutWaitValid)
    {
      hide Iterate, Advance, Poll, Expired, Increment, RingBuf.Stored;
      ghost var n: nat :| IsDone(Iterate(hal.env, start, n));
      k := k0;
      while true
        invariant Valid() && model == Iterate(hal.env, start, k)
        invariant model.rx.pc == WaitValid && model.rx.deadline == deadline
        decreases n - k
      {
        StillRunning(hal.env, start, n, k);
        ghost var at := model;
        OneMore(hal.env, start, k);
        ValidTurn(hal.env, at);
        model := Advance(hal.env, at);
        k := k + 1;
        raw := hal.ReadDataRaw();
        if raw != 0 {
          return raw, k;
        }
        if waitValidTimeoutUs != 0 {
          var now := hal.TimeUsNow();
          if Expired(deadline, now) {
            IncrementIs(at.rx.timeoutsValid);
            timeoutsValid := Increment(timeoutsValid);
            return 0, k;
          }
        }
      }
    }

    /** Push or drop, but always continue the handshake. */
    method Deposit(word: U32)
      requires Valid() && model.rx.pc == Store(word)
      modifies this`droppedFull, this`model, rb`head, rb.buf
      ensures Valid()
      ensures model == Deposited(old(model))
    {
      ghost var at := model;
      model := Deposited(model);
      var full := rb.IsFull();
      if full {
        IncrementIs(at.rx.droppedFull);
        droppedFull := Increment(droppedFull);
      } else {
        var _ := rb.Push(word);
      }
    }

    /** `aer_rx_poll_service`: the count returned is the rise in completed handshakes, dropped
        words included. */
    method Service(maxWords: U32, timeBudgetUs: U32) returns (ok: U32)
      requires Valid()
      requires ServiceReturns(hal.env, BudgetStart(model, timeBudgetUs), timeBudgetUs != 0,
                              BudgetDeadline(hal.env, model, timeBudgetUs), maxWords)
      modifies this, hal, rb`head, rb.buf
      ensures Valid()
      ensures model == Serviced(hal.env, BudgetStart(old(model), timeBudgetUs), timeBudgetUs != 0,
                                BudgetDeadline(hal.env, old(model), timeBudgetUs), maxWords)
      ensures model.rx.wordsOk == old(model).rx.wordsOk + ok && ok <= maxWords
    {
      hide Poll, Advance, Iterate, Returns, Call, Expired, Increment, RingBuf.Stored;
      ghost var env, before, timed := hal.env, model, timeBudgetUs != 0;
      ok := 0;
      var budgetDeadline: U64 := 0;
      if timeBudgetUs != 0 {
        var now := hal.TimeUsNow();
        budgetDeadline := Deadline(now, timeBudgetUs);
      }
      model := BudgetStart(model, timeBudgetUs);
      ghost var final := Serviced(env, model, timed, budgetDeadline, maxWords);

      for i: int := 0 to maxWords
        invariant Valid() && ok == i
        invariant ServiceReturns(env, model, timed, budgetDeadline, maxWords - i)
        invariant Serviced(env, model, timed, budgetDeadline, maxWords - i) == final
        invariant model.rx.wordsOk == before.rx.wordsOk + ok
      {
        ghost var at := model;
        if timeBudgetUs != 0 {
          model := model.(clockReads := model.clockReads + 1);
          var now := hal.TimeUsNow();
          if Expired(budgetDeadline, now) {
            break;
          }
        }
        CallCountsHandshake(env, model);
        var st := Step();
        if st == Ok {
          ok := ok + 1;
          continue;
        }
        break;
      }
    }

    /** Wait for DATA == 0; false is returned on timeout. */
    method AwaitNeutral(deadline: U64, ghost start: Local, ghost k0: nat) returns (neutral: bool, ghost k: nat)
      requires Valid() && model == Iterate(hal.env, start, k0)
      requires model.rx.pc == WaitNeutral && model.rx.deadline == deadline
      requires exists n: nat :: IsDone(Iterate(hal.env, start, n))
      modifies this`timeoutsNeutral, this`model, hal`dataReads, hal`clockReads
      ensures Valid() && model == Iterate(hal.env, start, k)
      ensures model.rx.pc == if neutral then Release else Recover
    {
      hide Iterate, Advance, Poll, Expired, Increment, RingBuf.Stored;
      ghost var n: nat :| IsDone(Iterate(hal.env, start, n));
      k := k0;
      while true
        invariant Valid() && model == Iterate(hal.env, start, k)
        invariant model.rx.pc == WaitNeutral && model.rx.deadline == deadline
        decreases n - k
      {
        StillRunning(hal.env, start, n, k);
        ghost var at := model;
        OneMore(hal.env, start, k);
        NeutralTurn(hal.env, at);
        model := Advance(hal.env, at);
        k := k + 1;
        var raw := hal.ReadDataRaw();
        if raw == 0 {
          return true, k;
        }
        if waitNeutralTimeoutUs != 0 {
          var now := hal.TimeUsNow();
          if Expired(deadline, now) {
            IncrementIs(at.rx.timeoutsNeutral);
            timeoutsNeutral := Increment(timeoutsNeutral);
            return false, k;
          }
        }
      }
    }
  }

  /** After push or drop, before the deadline of the second wait is set. */
  ghost function Deposited(l: Local): Local
    requires l.rx.pc.Store?
  {
    var s := l.rx;
    var s1 := if RingFull(s) then s.(droppedFull := s.droppedFull + 1)
              else s.(ring := s.ring + [s.pc.word], stored := s.stored + [s.pc.word]);
    l.(rx := s1.(deadline := 0, pc := WaitNeutral))
  }

  lemma OneMore(env: Env, start: Local, k: nat)
    ensures Iterate(env, start, 0) == start
    ensures Iterate(env, start, k + 1) == Advance(env, Iterate(env, start, k))
  {
    hide Advance;
  }

  /** One turn of the first waiting loop. */
  lemma ValidTurn(env: Env, l: Local)
    requires l.rx.pc == WaitValid
    ensures var data, now, timed := env.data(l.dataReads), env.clock(l.clockReads), l.rx.validTimeout != 0;
      Advance(env, l) ==
        if data != 0 then
          Local(l.rx.(pc := AssertAck(data), latched := l.rx.latched + [data]), l.dataReads + 1, l.clockReads)
        else if timed && Expired(l.rx.deadline, now) then
          Local(l.rx.(timeoutsValid := l.rx.timeoutsValid + 1, deadline := 0, pc := Done(TimeoutWaitValid)),
                l.dataReads + 1, l.clockReads + 1)
        else Local(l.rx, l.dataReads + 1, if timed then l.clockReads + 1 else l.clockReads)
  {
    hide Expired;
  }

  /** One turn of the second waiting loop. */
  lemma NeutralTurn(env: Env, l: Local)
    requires l.rx.pc == WaitNeutral
    ensures var data, now, timed := env.data(l.dataReads), env.clock(l.clockReads), l.rx.neutralTimeout != 0;
      Advance(env, l) ==
        if data == 0 then
          Local(l.rx.(pc := Release), l.dataReads + 1, l.clockReads)
        else if timed && Expired(l.rx.deadline, now) then
          Local(l.rx.(timeoutsNeutral := l.rx.timeoutsNeutral + 1, pc := Recover),
                l.dataReads + 1, l.clockReads + 1)
        else Local(l.rx, l.dataReads + 1, if timed then l.clockReads + 1 else l.clockReads)
  {
    hide Expired;
  }

  /** The steps of a call that are not loops. */
  lemma StraightTurn(env: Env, l: Local)
    requires !l.rx.pc.WaitValid? && !l.rx.pc.WaitNeutral?
    ensures var now := env.clock(l.clockReads);
      var timed := (l.rx.pc.Entry? && l.rx.validTimeout != 0) || (l.rx.pc.Store? && l.rx.neutralTimeout != 0);
      var clocks := if timed then l.clockReads + 1 else l.clockReads;
      Advance(env, l) == match l.rx.pc
        case Entry =>
          Local(l.rx.(ack := false, deadline := DeadlineFor(l.rx.validTimeout, now), pc := WaitValid),
                l.dataReads, clocks)
        case AssertAck(word) => l.(rx := l.rx.(ack := true, pc := Store(word)))
        case Store(word) =>
          Local(Deposited(l).rx.(deadline := DeadlineFor(l.rx.neutralTimeout, now)), l.dataReads, clocks)
        case Release => l.(rx := l.rx.(ack := false, wordsOk := l.rx.wordsOk + 1, deadline := 0, pc := Done(Ok)))
        case Recover => l.(rx := l.rx.(ack := false, deadline := 0, pc := Done(TimeoutWaitNeutral)))
        case _ => l
  {
    hide Expired, Deadline;
  }

  lemma StillRunning(env: Env, start: Local, n: nat, k: nat)
    requires IsDone(Iterate(env, start, n)) && !IsDone(Iterate(env, start, k))
    ensures k < n
  {
    if n <= k {
      DoneStays(env, start, n, k);
    }
  }
}
