/** The polling receiver over every run of its steps, whatever the bus, the clock and the consumer of
    its ring do: nothing is lost unaccounted for, and how often one word can be latched. */
module PollRuns {
  import opened Words
  import opened HalTime
  import opened RxPoll

  // ---------------- Accounting over every run ----------------

  datatype Act = Tick(data: U32, now: U64) | NewCall | Pop

  /** A receiver together with what the consumer has taken out of its ring and the calls begun. */
  datatype Ledger = Ledger(rx: Rx, popped: seq<U32>, calls: nat)

  function Do(s: Ledger, a: Act): Ledger {
    match a
    case Tick(data, now) => s.(rx := Poll(s.rx, data, now))
    case NewCall => if s.rx.pc.Done? then s.(rx := s.rx.(pc := Entry), calls := s.calls + 1) else s
    case Pop =>
      if s.rx.ring == [] then s
      else s.(rx := s.rx.(ring := s.rx.ring[1..]), popped := s.popped + [s.rx.ring[0]])
  }

  function DoAll(s: Ledger, acts: seq<Act>): Ledger {
    if acts == [] then s else Do(DoAll(s, acts[..|acts| - 1]), acts[|acts| - 1])
  }

  function Bit(b: bool): nat {
    if b then 1 else 0
  }

  ghost predicate Accounts(held: seq<U32>, s: Ledger) {
    var rx, pc := s.rx, s.rx.pc;
    && |rx.latched| == |rx.stored| + rx.droppedFull + Bit(pc.AssertAck? || pc.Store?)
    && |rx.stored| + rx.droppedFull
       == rx.wordsOk + rx.timeoutsNeutral + Bit(pc.WaitNeutral? || pc.Release?)
    && s.calls == rx.wordsOk + rx.timeoutsValid + rx.timeoutsNeutral + Bit(!pc.Done? && !pc.Recover?)
    && held + rx.stored == s.popped + rx.ring
    && (rx.ring != [] ==> |rx.ring| < rx.capacity)
    && (rx.ack <==> pc.Store? || pc.WaitNeutral? || pc.Release? || pc.Recover?)
    && (pc.AssertAck? || pc.Store? ==> rx.latched != [] && rx.latched[|rx.latched| - 1] == pc.word)
    && 0 !in rx.latched && pc != Done(NoSpace)
  }

  /** Over every sequence of bus readings, clock readings and consumer pops: every latched word
      is pushed or counted as dropped, every such word ends in a completed or a timed-out
      handshake, every call ends in exactly one of the three statistics, the ring with what was
      popped is exactly what it held and what was pushed, in order, and ACK is high exactly from
      after a word is latched until its call ends. */
  lemma {:induction false} Accounting(capacity: nat, held: seq<U32>, validTimeout: U32, neutralTimeout: U32,
                                      acts: seq<Act>)
    requires held != [] ==> |held| < capacity
    ensures Accounts(held, DoAll(Ledger(Initial(capacity, held, validTimeout, neutralTimeout), [], 0), acts))
  {
    if acts != [] {
      var start := Ledger(Initial(capacity, held, validTimeout, neutralTimeout), [], 0);
      Accounting(capacity, held, validTimeout, neutralTimeout, acts[..|acts| - 1]);
      DoKeeps(held, DoAll(start, acts[..|acts| - 1]), acts[|acts| - 1]);
    }
  }

  lemma DoKeeps(held: seq<U32>, s: Ledger, a: Act)
    requires Accounts(held, s)
    ensures Accounts(held, Do(s, a))
  {
    hide Expired, Deadline;
    match a {
      case Tick(data, now) => PollKeeps(held, s, data, now);
      case NewCall =>
      case Pop =>
        if s.rx.ring != [] {
          assert s.popped + s.rx.ring == s.popped + [s.rx.ring[0]] + s.rx.ring[1..];
        }
    }
  }

  lemma PollKeeps(held: seq<U32>, s: Ledger, data: U32, now: U64)
    requires Accounts(held, s)
    ensures Accounts(held, s.(rx := Poll(s.rx, data, now)))
  {
    hide Expired, Deadline;
    if s.rx.pc.Store? && !RingFull(s.rx) {
      assert held + (s.rx.stored + [s.rx.pc.word]) == held + s.rx.stored + [s.rx.pc.word];
      assert s.popped + (s.rx.ring + [s.rx.pc.word]) == s.popped + s.rx.ring + [s.rx.pc.word];
    }
  }

  // ---------------- One latch per word ----------------

  /** What the bus carried at the last step. */
  function Level(acts: seq<Act>): U32 {
    if acts == [] then 0
    else if acts[|acts| - 1].Tick? then acts[|acts| - 1].data else Level(acts[..|acts| - 1])
  }

  /** How many times the bus left neutral. */
  function Pulses(acts: seq<Act>): nat {
    if acts == [] then 0
    else
      var before, a := acts[..|acts| - 1], acts[|acts| - 1];
      Pulses(before) + if a.Tick? && a.data != 0 && Level(before) == 0 then 1 else 0
  }

  ghost predicate OncePerPulse(rx: Rx, level: U32, pulses: nat) {
    var idle := rx.pc.Entry? || rx.pc.WaitValid? || rx.pc.Release? || rx.pc.Done?;
    rx.neutralTimeout == 0 && !rx.pc.Recover? && |rx.latched| + Bit(idle && level != 0) <= pulses
  }

  lemma {:induction false} LatchesOncePerPulse(capacity: nat, validTimeout: U32, acts: seq<Act>)
    ensures var start := Ledger(Initial(capacity, [], validTimeout, 0), [], 0);
      OncePerPulse(DoAll(start, acts).rx, Level(acts), Pulses(acts))
  {
    hide Do;
    if acts != [] {
      var before, a := acts[..|acts| - 1], acts[|acts| - 1];
      LatchesOncePerPulse(capacity, validTimeout, before);
      var start := Ledger(Initial(capacity, [], validTimeout, 0), [], 0);
      StepOncePerPulse(DoAll(start, before), a, Level(before), Pulses(before));
    }
  }

  lemma StepOncePerPulse(s: Ledger, a: Act, level: U32, pulses: nat)
    requires OncePerPulse(s.rx, level, pulses)
    ensures OncePerPulse(Do(s, a).rx, if a.Tick? then a.data else level,
                         pulses + if a.Tick? && a.data != 0 && level == 0 then 1 else 0)
  {
    hide Expired, Deadline;
  }

  lemma DoOne(s: Ledger, acts: seq<Act>, a: Act)
    ensures DoAll(s, acts + [a]) == Do(DoAll(s, acts), a)
    ensures a.Tick? ==> Level(acts + [a]) == a.data
    ensures !a.Tick? ==> Level(acts + [a]) == Level(acts)
    ensures Pulses(acts + [a]) == Pulses(acts) + if a.Tick? && a.data != 0 && Level(acts) == 0 then 1 else 0
  {
    assert (acts + [a])[..|acts|] == acts;
  }

  /** One word held on the bus, latched, timed out and latched again. */
  lemma TimedOutWordIsLatchedAgain(capacity: nat, validTimeout: U32, neutralTimeout: U32) returns (acts: seq<Act>)
    requires neutralTimeout > 0
    ensures var start := Ledger(Initial(capacity, [], validTimeout, neutralTimeout), [], 0);
      DoAll(start, acts).rx.latched == [1, 1] && Pulses(acts) == 1
  {
    hide DoAll, Level, Pulses;
    var start := Ledger(Initial(capacity, [], validTimeout, neutralTimeout), [], 0);
    assert DoAll(start, []) == start && Level([]) == 0 && Pulses([]) == 0 by { NothingDone(start); }
    acts := Latch(start, [], 0);
    acts := HoldOn(start, acts, Tick(1, neutralTimeout));
    acts := HoldOn(start, acts, Tick(1, neutralTimeout));
    acts := Latch(start, acts, neutralTimeout);
  }

  lemma NothingDone(s: Ledger)
    ensures DoAll(s, []) == s && Level([]) == 0 && Pulses([]) == 0
  {
  }

  lemma HoldOn(start: Ledger, acts: seq<Act>, a: Act) returns (more: seq<Act>)
    requires Pulses(acts) == 1 && Level(acts) == 1 && (a.Tick? ==> a.data == 1)
    ensures DoAll(start, more) == Do(DoAll(start, acts), a) && Pulses(more) == 1 && Level(more) == 1
  {
    more := acts + [a];
    DoOne(start, acts, a);
  }

  /** A call that finds 1 on the bus, up to its second wait. */
  lemma Latch(start: Ledger, acts: seq<Act>, now: U64) returns (more: seq<Act>)
    requires DoAll(start, acts).rx.pc.Done? && Pulses(acts) == Level(acts) <= 1
    ensures Pulses(more) == Level(more) == 1
    ensures var rx0, rx := DoAll(start, acts).rx, DoAll(start, more).rx;
      && rx.pc == WaitNeutral && rx.latched == rx0.latched + [1]
      && rx.neutralTimeout == rx0.neutralTimeout && rx.deadline == DeadlineFor(rx.neutralTimeout, now)
  {
    hide DoAll, Level, Pulses;
    var s1, s2 := acts + [NewCall], acts + [NewCall] + [Tick(1, now)];
    DoOne(start, acts, NewCall);
    DoOne(start, s1, Tick(1, now));
    more := HoldOn(start, s2, Tick(1, now));
    more := HoldOn(start, more, Tick(1, now));
    more := HoldOn(start, more, Tick(1, now));
  }

  /** The bus is latched at most once per excursion from neutral, in every run, exactly when the
      second wait has no timeout, as the firmware configures it. */
  lemma ExactlyOnceIffNoNeutralTimeout(capacity: nat, validTimeout: U32, neutralTimeout: U32)
    ensures (forall acts ::
               var start := Ledger(Initial(capacity, [], validTimeout, neutralTimeout), [], 0);
               |DoAll(start, acts).rx.latched| <= Pulses(acts))
            <==> neutralTimeout == 0
  {
    hide DoAll, Pulses, Level;
    if neutralTimeout == 0 {
      forall acts
        ensures |DoAll(Ledger(Initial(capacity, [], validTimeout, 0), [], 0), acts).rx.latched| <= Pulses(acts)
      {
        LatchesOncePerPulse(capacity, validTimeout, acts);
      }
    } else {
      var acts := TimedOutWordIsLatchedAgain(capacity, validTimeout, neutralTimeout);
      var start := Ledger(Initial(capacity, [], validTimeout, neutralTimeout), [], 0);
      assert |DoAll(start, acts).rx.latched| > Pulses(acts);
    }
  }
}
