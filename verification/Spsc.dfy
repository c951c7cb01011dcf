/** The ring buffer under concurrency: one producer and one consumer, each split into its
    separate reads and writes of the shared indices and slots, interleaved in every possible
    way over sequentially consistent memory. */
module Spsc {
  import opened Words
  import opened RingBuf

  datatype ProducerOp = DoPush(v: U32) | DoIsFull | DoCount

  datatype ConsumerOp = DoPop | DoPeek | DoConsumerCount

  /** Where the producer is, with the locals it has already read. */
  datatype ProducerPc =
    | Ready
    | PushHasHead(v: U32, h: nat)
    | PushHasRoom(v: U32, h: nat, next: nat)
    | PushWritten(v: U32, next: nat)
    | FullHasHead(h: nat)
    | CountHasHead(h: nat)

  /** Where the consumer is; `upTo` (not in the code) is how much had been pushed when a
      count read `head`. */
  datatype ConsumerPc =
    | Waiting
    | PopHasTail(t: nat)
    | PopNotEmpty(t: nat)
    | PopHasItem(t: nat, item: U32)
    | PeekHasTail(t: nat)
    | PeekNotEmpty(t: nat)
    | CountSawHead(h: nat, upTo: nat)

  datatype Sys = Sys(
    buf: seq<U32>, head: nat, tail: nat,
    producer: ProducerPc, consumer: ConsumerPc,
    pushed: seq<U32>,  // items whose push has returned true, in order
    popped: seq<U32>,  // items handed out by pop, in order
    sawRoom: bool)     // is_full has returned false since the last completed push

  datatype Action = StartProducer(op: ProducerOp) | ProducerStep
                  | StartConsumer(cop: ConsumerOp) | ConsumerStep

  function Cap(s: Sys): nat {
    |s.buf|
  }

  predicate InBounds(s: Sys) {
    s.head < Cap(s) && s.tail < Cap(s) && ProducerInBounds(s) && ConsumerInBounds(s)
  }

  predicate ProducerInBounds(s: Sys) {
    match s.producer
    case PushHasHead(_, h) => h < Cap(s)
    case PushHasRoom(_, h, next) => h < Cap(s) && next < Cap(s)
    case PushWritten(_, next) => next < Cap(s)
    case FullHasHead(h) => h < Cap(s)
    case _ => true
  }

  predicate ConsumerInBounds(s: Sys) {
    match s.consumer
    case PopHasTail(t) => t < Cap(s)
    case PopNotEmpty(t) => t < Cap(s)
    case PopHasItem(t, _) => t < Cap(s)
    case PeekHasTail(t) => t < Cap(s)
    case PeekNotEmpty(t) => t < Cap(s)
    case _ => true
  }

  /** One shared access of the producer. */
  function Produce(s: Sys): (s2: Sys)
    requires InBounds(s)
    ensures InBounds(s2)
  {
    match s.producer
    case Ready => s
    case PushHasHead(v, h) =>
      var next := Inc(h, Cap(s));
      s.(producer := if next == s.tail then Ready else PushHasRoom(v, h, next))
    case PushHasRoom(v, h, next) => s.(buf := s.buf[h := v], producer := PushWritten(v, next))
    case PushWritten(v, next) =>
      s.(head := next, producer := Ready, pushed := s.pushed + [v], sawRoom := false)
    case FullHasHead(h) =>
      s.(producer := Ready, sawRoom := s.sawRoom || Inc(h, Cap(s)) != s.tail)
    case CountHasHead(_) => s.(producer := Ready)
  }

  /** One shared access of the consumer. */
  function Consume(s: Sys): (s2: Sys)
    requires InBounds(s)
    ensures InBounds(s2)
  {
    match s.consumer
    case Waiting => s
    case PopHasTail(t) => s.(consumer := if t == s.head then Waiting else PopNotEmpty(t))
    case PopNotEmpty(t) => s.(consumer := PopHasItem(t, s.buf[t]))
    case PopHasItem(t, item) =>
      s.(tail := Inc(t, Cap(s)), consumer := Waiting, popped := s.popped + [item])
    case PeekHasTail(t) => s.(consumer := if t == s.head then Waiting else PeekNotEmpty(t))
    case PeekNotEmpty(_) => s.(consumer := Waiting)
    case CountSawHead(_, _) => s.(consumer := Waiting)
  }

  function Step(s: Sys, a: Action): (s2: Sys)
    requires InBounds(s)
    ensures InBounds(s2)
  {
    match a
    case StartProducer(op) =>
      if s.producer != Ready then s
      else s.(producer := match op
              case DoPush(v) => PushHasHead(v, s.head)
              case DoIsFull => FullHasHead(s.head)
              case DoCount => CountHasHead(s.head))
    case ProducerStep => Produce(s)
    case StartConsumer(op) =>
      if s.consumer != Waiting then s
      else s.(consumer := match op
              case DoPop => PopHasTail(s.tail)
              case DoPeek => PeekHasTail(s.tail)
              case DoConsumerCount => CountSawHead(s.head, |s.pushed|))
    case ConsumerStep => Consume(s)
  }

  /** After `ringbuf_u32_init` on any storage of two or more slots. */
  function Initial(storage: seq<U32>): (s: Sys)
    requires |storage| >= 2
    ensures InBounds(s)
  {
    Sys(storage, 0, 0, Ready, Waiting, [], [], false)
  }

  function Run(storage: seq<U32>, actions: seq<Action>): (s: Sys)
    requires |storage| >= 2
    ensures InBounds(s)
  {
    if actions == [] then Initial(storage)
    else Step(Run(storage, actions[..|actions| - 1]), actions[|actions| - 1])
  }

  // ---------------- Arithmetic of wrapped counters ----------------

  lemma ModAdd(a: nat, k: nat, m: nat)
    requires k < m
    ensures (a + k) % m == if a % m + k < m then a % m + k else a % m + k - m
  {
    var q, r := a / m, a % m;
    assert a == m * q + r;
    if r + k < m {
      DivUnique(a + k, m, q, r + k);
    } else {
      assert m * (q + 1) == m * q + m;
      DivUnique(a + k, m, q + 1, r + k - m);
    }
  }

  lemma IncIs(a: nat, m: nat)
    requires m >= 2
    ensures a % m < m && Inc(a % m, m) == (a + 1) % m
  {
    ModAdd(a, 1, m);
  }

  lemma CountIs(a: nat, b: nat, m: nat)
    requires b <= a < b + m
    ensures b % m < m && CountOf(a % m, b % m, m) == a - b
  {
    ModAdd(b, a - b, m);
  }

  // ---------------- The invariant ----------------

  ghost predicate ProducerKnows(s: Sys)
    requires InBounds(s)
  {
    match s.producer
    case Ready => true
    case PushHasHead(_, h) => h == s.head
    case PushHasRoom(_, h, next) => h == s.head && next == Inc(h, Cap(s)) && HasRoom(s)
    case PushWritten(v, next) => next == Inc(s.head, Cap(s)) && HasRoom(s) && s.buf[s.head] == v
    case FullHasHead(h) => h == s.head
    case CountHasHead(h) => h == s.head
  }

  ghost predicate ConsumerKnows(s: Sys)
    requires InBounds(s)
  {
    match s.consumer
    case Waiting => true
    case PopHasTail(t) => t == s.tail
    case PopNotEmpty(t) => t == s.tail && |s.popped| < |s.pushed|
    case PopHasItem(t, item) => t == s.tail && |s.popped| < |s.pushed| && item == s.pushed[|s.popped|]
    case PeekHasTail(t) => t == s.tail
    case PeekNotEmpty(t) => t == s.tail && |s.popped| < |s.pushed|
    case CountSawHead(h, upTo) => h == upTo % Cap(s) && |s.popped| <= upTo <= |s.pushed|
  }

  ghost predicate HasRoom(s: Sys) {
    |s.pushed| < |s.popped| + Cap(s) - 1
  }

  /** Every published item not yet popped is still in its slot. */
  ghost predicate Holds(s: Sys) {
    && Cap(s) >= 2
    && forall i :: |s.popped| <= i < |s.pushed| ==> s.buf[i % Cap(s)] == s.pushed[i]
  }

  ghost predicate Inv(s: Sys) {
    && InBounds(s) && Cap(s) >= 2
    && s.head == |s.pushed| % Cap(s) && s.tail == |s.popped| % Cap(s)
    && |s.popped| <= |s.pushed| <= |s.popped| + Cap(s) - 1
    && s.popped == s.pushed[..|s.popped|]
    && Holds(s)
    && ProducerKnows(s) && ConsumerKnows(s)
    && (s.sawRoom ==> HasRoom(s))
  }

  lemma FullIffNoRoom(s: Sys)
    requires Inv(s)
    ensures Inc(s.head, Cap(s)) == s.tail <==> !HasRoom(s)
  {
    var m, n := Cap(s), |s.pushed| - |s.popped|;
    ModAdd(|s.popped|, n, m);
    IncIs(|s.pushed|, m);
    if n + 1 < m {
      ModAdd(|s.popped|, n + 1, m);
    }
  }

  lemma EmptyIffSame(s: Sys)
    requires Inv(s)
    ensures s.head == s.tail <==> |s.pushed| == |s.popped|
  {
    ModAdd(|s.popped|, |s.pushed| - |s.popped|, Cap(s));
  }

  /** The slot the producer may write is not one that holds an unread item. */
  lemma FreeSlot(s: Sys, i: nat)
    requires Inv(s) && |s.popped| <= i < |s.pushed|
    ensures i % Cap(s) != s.head
  {
    var m := Cap(s);
    ModAdd(i, |s.pushed| - i, m);
  }

  lemma ProduceKeeps(s: Sys)
    requires Inv(s)
    ensures Inv(Produce(s))
  {
    match s.producer {
      case PushHasHead(v, h) => FullIffNoRoom(s);
      case PushHasRoom(v, h, next) => WriteKeeps(s);
      case PushWritten(v, next) => PublishKeeps(s);
      case FullHasHead(h) => FullIffNoRoom(s);
      case _ =>
    }
  }

  lemma WriteKeeps(s: Sys)
    requires Inv(s) && s.producer.PushHasRoom?
    ensures Inv(Produce(s))
  {
    var h, s2 := s.head, Produce(s);
    forall i | |s.popped| <= i < |s.pushed| ensures s2.buf[i % Cap(s)] == s.pushed[i] {
      FreeSlot(s, i);
    }
  }

  lemma PublishKeeps(s: Sys)
    requires Inv(s) && s.producer.PushWritten?
    ensures Inv(Produce(s))
  {
    IncIs(|s.pushed|, Cap(s));
  }

  lemma ConsumeKeeps(s: Sys)
    requires Inv(s)
    ensures Inv(Consume(s))
  {
    match s.consumer {
      case PopHasTail(t) => EmptyIffSame(s);
      case PeekHasTail(t) => EmptyIffSame(s);
      case PopHasItem(t, item) => AdvanceKeeps(s);
      case _ =>
    }
  }

  lemma AdvanceKeeps(s: Sys)
    requires Inv(s) && s.consumer.PopHasItem?
    ensures Inv(Consume(s))
  {
    IncIs(|s.popped|, Cap(s));
  }

  lemma StartKeeps(s: Sys, a: Action)
    requires Inv(s) && (a.StartProducer? || a.StartConsumer?)
    ensures Inv(Step(s, a)) && Cap(Step(s, a)) == Cap(s)
  {
  }

  lemma {:induction false} Reachable(storage: seq<U32>, actions: seq<Action>)
    requires |storage| >= 2
    ensures Inv(Run(storage, actions)) && Cap(Run(storage, actions)) == |storage|
  {
    if actions != [] {
      var k := |actions| - 1;
      Reachable(storage, actions[..k]);
      var s := Run(storage, actions[..k]);
      match actions[k] {
        case ProducerStep => ProduceKeeps(s);
        case ConsumerStep => ConsumeKeeps(s);
        case _ => StartKeeps(s, actions[k]);
      }
    }
  }

  // ---------------- What every interleaving guarantees ----------------

  /** Linearisability: what has been popped is a prefix of what has been pushed, and the rest
      is what the buffer stores. */
  lemma PoppedIsPrefixOfPushed(storage: seq<U32>, actions: seq<Action>)
    requires |storage| >= 2
    ensures var s := Run(storage, actions);
      s.pushed == s.popped + Stored(s.buf, s.head, s.tail)
  {
    Reachable(storage, actions);
    StoredIsUnread(Run(storage, actions));
  }

  lemma StoredIsUnread(s: Sys)
    requires Inv(s)
    ensures s.pushed == s.popped + Stored(s.buf, s.head, s.tail)
  {
    var m, n := Cap(s), |s.pushed| - |s.popped|;
    var rest := Stored(s.buf, s.head, s.tail);
    CountIs(|s.pushed|, |s.popped|, m);
    assert |rest| == n;
    forall k | 0 <= k < n ensures rest[k] == s.pushed[|s.popped| + k] {
      ModAdd(|s.popped|, k, m);
      assert s.buf[(|s.popped| + k) % m] == s.pushed[|s.popped| + k];
    }
    assert s.pushed[|s.popped|..] == rest;
  }

  /** The producer never writes a slot that holds an item the consumer may still read. */
  lemma NoSlotRace(storage: seq<U32>, actions: seq<Action>)
    requires |storage| >= 2
    ensures var s := Run(storage, actions);
      s.producer.PushHasRoom? ==>
        && (s.consumer.PopNotEmpty? || s.consumer.PopHasItem? || s.consumer.PeekNotEmpty?
            ==> s.consumer.t != s.producer.h)
        && forall i :: |s.popped| <= i < |s.pushed| ==> i % Cap(s) != s.producer.h
  {
    Reachable(storage, actions);
    var s := Run(storage, actions);
    if s.producer.PushHasRoom? {
      forall i | |s.popped| <= i < |s.pushed| ensures i % Cap(s) != s.producer.h {
        FreeSlot(s, i);
      }
    }
  }

  /** Once the producer has seen `is_full` false, its next push cannot fail, whatever the
      consumer does in between: no word it decides to push is silently lost. */
  lemma NoPushFailsAfterRoomSeen(storage: seq<U32>, actions: seq<Action>)
    requires |storage| >= 2
    ensures var s := Run(storage, actions);
      s.sawRoom && s.producer.PushHasHead? ==> Produce(s).producer.PushHasRoom?
  {
    Reachable(storage, actions);
    FullIffNoRoom(Run(storage, actions));
  }

  /** A count that completes now: the producer's is exact, hence never too low from then until
      its next push; the consumer's, which read `head` earlier, is never too high, and is out by
      exactly the pushes completed in between. */
  lemma CountReadings(storage: seq<U32>, actions: seq<Action>)
    requires |storage| >= 2
    ensures var s := Run(storage, actions);
      var stored := |Stored(s.buf, s.head, s.tail)|;
      && (s.producer.CountHasHead? ==> CountOf(s.producer.h, s.tail, Cap(s)) == stored)
      && (s.consumer.CountSawHead? ==>
            CountOf(s.consumer.h, s.tail, Cap(s)) == stored - (|s.pushed| - s.consumer.upTo) <= stored)
  {
    Reachable(storage, actions);
    PoppedIsPrefixOfPushed(storage, actions);
    var s := Run(storage, actions);
    CountIs(|s.pushed|, |s.popped|, Cap(s));
    if s.consumer.CountSawHead? {
      CountIs(s.consumer.upTo, |s.popped|, Cap(s));
    }
  }

  // ---------------- Whole operations ----------------

  predicate OfProducer(a: Action) {
    a.StartProducer? || a.ProducerStep?
  }

  predicate OnlyProducer(actions: seq<Action>) {
    forall i :: 0 <= i < |actions| ==> OfProducer(actions[i])
  }

  predicate OnlyConsumer(actions: seq<Action>) {
    forall i :: 0 <= i < |actions| ==> !OfProducer(actions[i])
  }

  /** Items the buffer holds. */
  function Items(s: Sys): seq<U32>
    requires InBounds(s)
  {
    Stored(s.buf, s.head, s.tail)
  }

  lemma RunLast(storage: seq<U32>, actions: seq<Action>, a: Action)
    requires |storage| >= 2
    ensures Run(storage, actions + [a]) == Step(Run(storage, actions), a)
  {
    assert (actions + [a])[..|actions|] == actions;
  }

  /** While only the producer moves, the consumer's own state stays and items are only added. */
  lemma {:induction false} ProducerMeanwhile(storage: seq<U32>, actions: seq<Action>, more: seq<Action>)
    requires |storage| >= 2 && OnlyProducer(more)
    ensures var s, s2 := Run(storage, actions), Run(storage, actions + more);
      && s2.consumer == s.consumer && s2.popped == s.popped && s2.tail == s.tail
      && Items(s) <= Items(s2)
  {
    hide *;
    if more == [] {
      assert actions + more == actions;
    } else {
      var k := |more| - 1;
      FirstOfProducer(more);
      ProducerMeanwhile(storage, actions, more[..k]);
      assert actions + more == actions + more[..k] + [more[k]];
      ProducerOnce(storage, actions + more[..k], more[k]);
    }
  }

  lemma FirstOfProducer(more: seq<Action>)
    requires more != [] && OnlyProducer(more)
    ensures OfProducer(more[|more| - 1]) && OnlyProducer(more[..|more| - 1])
  {
  }

  lemma ProducerOnce(storage: seq<U32>, actions: seq<Action>, a: Action)
    requires |storage| >= 2 && OfProducer(a)
    ensures var s, s2 := Run(storage, actions), Run(storage, actions + [a]);
      && s2.consumer == s.consumer && s2.popped == s.popped && s2.tail == s.tail
      && Items(s) <= Items(s2)
  {
    hide Run, Step, Items, OfProducer, InBounds;
    RunLast(storage, actions, a);
    var s1, s2 := Run(storage, actions), Run(storage, actions + [a]);
    ItemsAreUnread(storage, actions);
    ItemsAreUnread(storage, actions + [a]);
    PushedGrows(s1, a);
    SameHead(s1.popped, Items(s1), Items(s2), s1.pushed, s2.pushed);
  }

  lemma ItemsAreUnread(storage: seq<U32>, actions: seq<Action>)
    requires |storage| >= 2
    ensures var s := Run(storage, actions); s.pushed == s.popped + Items(s)
  {
    PoppedIsPrefixOfPushed(storage, actions);
  }

  lemma PushedGrows(s: Sys, a: Action)
    requires InBounds(s) && OfProducer(a)
    ensures var s2 := Step(s, a);
      s.pushed <= s2.pushed && s2.popped == s.popped && s2.consumer == s.consumer && s2.tail == s.tail
  {
  }

  lemma SameHead(popped: seq<U32>, items: seq<U32>, items2: seq<U32>, pushed: seq<U32>, pushed2: seq<U32>)
    requires pushed == popped + items && pushed2 == popped + items2 && pushed <= pushed2
    ensures items <= items2
  {
    assert items == pushed[|popped|..] && items2 == pushed2[|popped|..];
  }

  /** While only the consumer moves, the producer's own state stays and items are only removed. */
  lemma {:induction false} ConsumerMeanwhile(storage: seq<U32>, actions: seq<Action>, more: seq<Action>)
    requires |storage| >= 2 && OnlyConsumer(more)
    ensures var s, s2 := Run(storage, actions), Run(storage, actions + more);
      && s2.producer == s.producer && s2.pushed == s.pushed && s2.head == s.head
      && s2.buf == s.buf && s2.sawRoom == s.sawRoom
  {
    hide Step;
    if more == [] {
      assert actions + more == actions;
    } else {
      var k := |more| - 1;
      ConsumerMeanwhile(storage, actions, more[..k]);
      assert actions + more == actions + more[..k] + [more[k]];
      RunLast(storage, actions + more[..k], more[k]);
      assert !OfProducer(more[k]);
      ProducerUntouched(Run(storage, actions + more[..k]), more[k]);
    }
  }

  lemma ProducerUntouched(s: Sys, a: Action)
    requires InBounds(s) && !OfProducer(a)
    ensures var s2 := Step(s, a);
      && s2.producer == s.producer && s2.pushed == s.pushed && s2.head == s.head
      && s2.buf == s.buf && s2.sawRoom == s.sawRoom
  {
  }

  /** A pop, in any interleaving: `before` is what the producer does until the pop reads `head`, `p1`
      and `p2` what it does while the pop goes on. It returns empty exactly if nothing was stored when it
      read `head`; otherwise it takes exactly the oldest item stored then. */
  lemma PopOperation(storage: seq<U32>, actions: seq<Action>, before: seq<Action>, p1: seq<Action>, p2: seq<Action>)
    requires |storage| >= 2 && OnlyProducer(before) && OnlyProducer(p1) && OnlyProducer(p2)
    requires Run(storage, actions).consumer.Waiting?
    ensures var start := actions + [StartConsumer(DoPop)] + before;
      var s, read := Run(storage, start), Run(storage, start + [ConsumerStep]);
      && s.popped == Run(storage, actions).popped && read.popped == s.popped
      && (read.consumer.Waiting? <==> Items(s) == [])
      && (Items(s) != [] ==>
            var end := Run(storage, start + [ConsumerStep] + p1 + [ConsumerStep] + p2 + [ConsumerStep]);
            end.consumer.Waiting? && end.popped == s.popped + [Items(s)[0]])
  {
    hide Items, Run;
    RunLast(storage, actions, StartConsumer(DoPop));
    var start := actions + [StartConsumer(DoPop)] + before;
    ProducerMeanwhile(storage, actions + [StartConsumer(DoPop)], before);
    var s := Run(storage, start);
    RunLast(storage, start, ConsumerStep);
    EmptyReading(storage, start);
    if Items(s) != [] {
      PopTakesOldest(storage, start, p1, p2);
    }
  }

  /** From reading `head` with something stored to the end. */
  lemma PopTakesOldest(storage: seq<U32>, start: seq<Action>, p1: seq<Action>, p2: seq<Action>)
    requires |storage| >= 2 && OnlyProducer(p1) && OnlyProducer(p2)
    requires var s := Run(storage, start); s.consumer.PopHasTail? && Items(s) != []
    ensures var s := Run(storage, start);
      var end := Run(storage, start + [ConsumerStep] + p1 + [ConsumerStep] + p2 + [ConsumerStep]);
      end.consumer.Waiting? && end.popped == s.popped + [Items(s)[0]]
  {
    hide Items, Run, InBounds;
    var s, s1 := Run(storage, start), Run(storage, start + [ConsumerStep]);
    RunLast(storage, start, ConsumerStep);
    EmptyReading(storage, start);
    SameItems(s, s1);
    var a1 := start + [ConsumerStep] + p1;
    ProducerMeanwhile(storage, start + [ConsumerStep], p1);
    assert Items(Run(storage, a1))[0] == Items(s)[0];
    PopReadsItem(storage, a1);
    var a2 := a1 + [ConsumerStep] + p2;
    ProducerMeanwhile(storage, a1 + [ConsumerStep], p2);
    PopEnds(storage, a2);
  }

  lemma PopReadsItem(storage: seq<U32>, actions: seq<Action>)
    requires |storage| >= 2 && Run(storage, actions).consumer.PopNotEmpty?
    ensures var s, s2 := Run(storage, actions), Run(storage, actions + [ConsumerStep]);
      && Items(s) != [] && s2.consumer.PopHasItem? && s2.consumer.item == Items(s)[0] && s2.popped == s.popped
  {
    hide Items, Run;
    RunLast(storage, actions, ConsumerStep);
    OldestItem(storage, actions);
  }

  lemma PopEnds(storage: seq<U32>, actions: seq<Action>)
    requires |storage| >= 2 && Run(storage, actions).consumer.PopHasItem?
    ensures var s, s2 := Run(storage, actions), Run(storage, actions + [ConsumerStep]);
      s2.consumer.Waiting? && s2.popped == s.popped + [s.consumer.item]
  {
    hide Items, Run;
    RunLast(storage, actions, ConsumerStep);
  }

  lemma SameItems(s: Sys, s2: Sys)
    requires InBounds(s) && InBounds(s2) && s2.buf == s.buf && s2.head == s.head && s2.tail == s.tail
    ensures Items(s2) == Items(s)
  {
  }

  /** What a pop, or a peek, makes of `head`. */
  lemma EmptyReading(storage: seq<U32>, actions: seq<Action>)
    requires |storage| >= 2
    ensures var s := Run(storage, actions);
      && (s.consumer.PopHasTail? ==> Consume(s).consumer == if Items(s) == [] then Waiting else PopNotEmpty(s.tail))
      && (s.consumer.PeekHasTail? ==> Consume(s).consumer == if Items(s) == [] then Waiting else PeekNotEmpty(s.tail))
  {
    Reachable(storage, actions);
    StoredIsUnread(Run(storage, actions));
    EmptyIffSame(Run(storage, actions));
  }

  /** The slot a pop, or a peek, reads next holds the oldest item. */
  lemma OldestItem(storage: seq<U32>, actions: seq<Action>)
    requires |storage| >= 2
    ensures var s := Run(storage, actions);
      s.consumer.PopNotEmpty? || s.consumer.PeekNotEmpty? ==> Items(s) != [] && s.buf[s.consumer.t] == Items(s)[0]
  {
    Reachable(storage, actions);
    var s := Run(storage, actions);
    StoredIsUnread(s);
    if s.consumer.PopNotEmpty? || s.consumer.PeekNotEmpty? {
      assert s.pushed[|s.popped|] == Items(s)[0];
    }
  }

  /** A peek likewise: it goes on exactly if something is stored, and reads the oldest item. */
  lemma PeekOperation(storage: seq<U32>, actions: seq<Action>, before: seq<Action>, p1: seq<Action>)
    requires |storage| >= 2 && OnlyProducer(before) && OnlyProducer(p1)
    requires Run(storage, actions).consumer.Waiting?
    ensures var start := actions + [StartConsumer(DoPeek)] + before;
      var s, read := Run(storage, start), Run(storage, start + [ConsumerStep] + p1);
      && read.popped == Run(storage, actions).popped
      && (read.consumer.Waiting? <==> Items(s) == [])
      && (Items(s) != [] ==> read.consumer.PeekNotEmpty? && read.buf[read.consumer.t] == Items(s)[0])
  {
    hide Items, Run;
    RunLast(storage, actions, StartConsumer(DoPeek));
    var start := actions + [StartConsumer(DoPeek)] + before;
    ProducerMeanwhile(storage, actions + [StartConsumer(DoPeek)], before);
    var s := Run(storage, start);
    RunLast(storage, start, ConsumerStep);
    EmptyReading(storage, start);
    ProducerMeanwhile(storage, start + [ConsumerStep], p1);
    SameItems(s, Run(storage, start + [ConsumerStep]));
    OldestItem(storage, start + [ConsumerStep] + p1);
  }

  /** A push, in any interleaving: it fails exactly if all slots but one were taken when it read `tail`,
      whether or not `is_full` was asked; otherwise its item is published last. */
  lemma PushOperation(storage: seq<U32>, actions: seq<Action>, v: U32,
                      before: seq<Action>, c1: seq<Action>, c2: seq<Action>)
    requires |storage| >= 2 && OnlyConsumer(before) && OnlyConsumer(c1) && OnlyConsumer(c2)
    requires Run(storage, actions).producer.Ready?
    ensures var start := actions + [StartProducer(DoPush(v))] + before;
      var s, read := Run(storage, start), Run(storage, start + [ProducerStep]);
      && s.pushed == Run(storage, actions).pushed && read.pushed == s.pushed
      && (read.producer.Ready? <==> |Items(s)| == |storage| - 1)
      && (|Items(s)| != |storage| - 1 ==>
            var written := Run(storage, start + [ProducerStep] + c1 + [ProducerStep] + c2);
            var end := Run(storage, start + [ProducerStep] + c1 + [ProducerStep] + c2 + [ProducerStep]);
            && written.pushed == s.pushed && end.producer.Ready? && end.pushed == s.pushed + [v])
  {
    hide Items, Run;
    RunLast(storage, actions, StartProducer(DoPush(v)));
    var start := actions + [StartProducer(DoPush(v))] + before;
    ConsumerMeanwhile(storage, actions + [StartProducer(DoPush(v))], before);
    RunLast(storage, start, ProducerStep);
    FullReading(storage, start);
    if |Items(Run(storage, start))| != |storage| - 1 {
      var a1 := start + [ProducerStep] + c1;
      ConsumerMeanwhile(storage, start + [ProducerStep], c1);
      RunLast(storage, a1, ProducerStep);
      var a2 := a1 + [ProducerStep] + c2;
      ConsumerMeanwhile(storage, a1 + [ProducerStep], c2);
      RunLast(storage, a2, ProducerStep);
    }
  }

  /** What a push, or `is_full`, makes of `tail`. */
  lemma FullReading(storage: seq<U32>, actions: seq<Action>)
    requires |storage| >= 2
    ensures var s := Run(storage, actions);
      && (s.producer.PushHasHead? ==> (Produce(s).producer.Ready? <==> |Items(s)| == |storage| - 1)
                                      && (Produce(s).producer.Ready? || Produce(s).producer.PushHasRoom?)
                                      && (Produce(s).producer.PushHasRoom? ==> Produce(s).producer.v == s.producer.v))
      && (s.producer.FullHasHead? ==> (Produce(s).sawRoom <==> s.sawRoom || |Items(s)| != |storage| - 1))
  {
    Reachable(storage, actions);
    StoredIsUnread(Run(storage, actions));
    FullIffNoRoom(Run(storage, actions));
  }

  /** `is_full` sees room exactly if there is some when it reads `tail`. */
  lemma IsFullOperation(storage: seq<U32>, actions: seq<Action>, before: seq<Action>)
    requires |storage| >= 2 && OnlyConsumer(before) && Run(storage, actions).producer.Ready?
    ensures var start := actions + [StartProducer(DoIsFull)] + before;
      var s, end := Run(storage, start), Run(storage, start + [ProducerStep]);
      && end.producer.Ready? && end.pushed == s.pushed
      && (end.sawRoom <==> Run(storage, actions).sawRoom || |Items(s)| != |storage| - 1)
  {
    hide Items, Run;
    RunLast(storage, actions, StartProducer(DoIsFull));
    var start := actions + [StartProducer(DoIsFull)] + before;
    ConsumerMeanwhile(storage, actions + [StartProducer(DoIsFull)], before);
    RunLast(storage, start, ProducerStep);
    FullReading(storage, start);
  }

  /** The producer's count, whatever the consumer does before its second reading, is what is stored then. */
  lemma ProducerCount(storage: seq<U32>, actions: seq<Action>, c: seq<Action>)
    requires |storage| >= 2 && OnlyConsumer(c) && Run(storage, actions).producer.Ready?
    ensures var s := Run(storage, actions + [StartProducer(DoCount)] + c);
      s.producer.CountHasHead? && CountOf(s.producer.h, s.tail, Cap(s)) == |Items(s)|
  {
    hide Run;
    RunLast(storage, actions, StartProducer(DoCount));
    ConsumerMeanwhile(storage, actions + [StartProducer(DoCount)], c);
    CountReadings(storage, actions + [StartProducer(DoCount)] + c);
  }

  /** The consumer's, whatever the producer does before its second reading, is what was stored at its first. */
  lemma ConsumerCount(storage: seq<U32>, actions: seq<Action>, p: seq<Action>)
    requires |storage| >= 2 && OnlyProducer(p) && Run(storage, actions).consumer.Waiting?
    ensures var s := Run(storage, actions + [StartConsumer(DoConsumerCount)] + p);
      s.consumer.CountSawHead? && CountOf(s.consumer.h, s.tail, Cap(s)) == |Items(Run(storage, actions))|
  {
    hide Run;
    RunLast(storage, actions, StartConsumer(DoConsumerCount));
    ProducerMeanwhile(storage, actions + [StartConsumer(DoConsumerCount)], p);
    var later := actions + [StartConsumer(DoConsumerCount)] + p;
    CountReadings(storage, later);
    PoppedIsPrefixOfPushed(storage, actions);
    PoppedIsPrefixOfPushed(storage, later);
  }
}
