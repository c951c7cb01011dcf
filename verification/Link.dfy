/** The handshake as a distributed system: a transmitter that drives DATA and watches ACK, and the
    firmware's main loop that drives ACK and watches DATA, taking steps in any order.

    On an atomic bus the transmitter changes all lines of a word at once; on a skewed bus the
    lines rise and fall in any grouping and order (README.md:85-103 of the firmware gives the four
    phases both obey). */
module Link {
  import opened Words
  import opened Codec
  import opened UsbStream
  import Burst
  import RxPoll
  import MainLoop

  datatype Bus = Atomic | Skewed

  datatype TxPhase = Idle | Rising | Falling

  /** `todo` is the words not yet through their four phases; `data` the level of the lines. */
  datatype Tx = Tx(todo: seq<U32>, phase: TxPhase, data: U32)

  datatype Sys = Sys(tx: Tx, main: MainLoop.Main)

  /** Transmitter moves say what the lines become; the receiver's only move is its next step. */
  datatype Action = Raise(to: U32) | Lower(downTo: U32) | Finish | Receive

  ghost predicate Enabled(bus: Bus, s: Sys, a: Action) {
    match a
    case Raise(d) =>
      && s.tx.phase != Falling && s.tx.todo != []
      && d != s.tx.data && SubMask(s.tx.data, d) && SubMask(d, s.tx.todo[0])
      && (bus == Atomic ==> d == s.tx.todo[0])
    case Lower(d) =>
      && (s.tx.phase == Falling || (s.tx.phase == Rising && s.main.rx.ack))
      && d != s.tx.data && SubMask(d, s.tx.data)
      && (bus == Atomic ==> d == 0)
    case Finish =>
      s.tx.phase == Falling && s.tx.data == 0 && !s.main.rx.ack
    case Receive => true
  }

  ghost function Step(ticks: nat -> U32, s: Sys, a: Action): Sys {
    match a
    case Raise(d) => s.(tx := s.tx.(phase := Rising, data := d))
    case Lower(d) => s.(tx := s.tx.(phase := Falling, data := d))
    case Finish => s.(tx := Tx(if s.tx.todo == [] then [] else s.tx.todo[1..], Idle, 0))
    case Receive => s.(main := MainLoop.Next(ticks, s.main, s.tx.data, 0))
  }

  function Initial(words: seq<U32>, capacity: nat, usb: Usb): Sys {
    Sys(Tx(words, Idle, 0), MainLoop.Initial(capacity, usb))
  }

  /** `s` is reached from the initial state by a run of enabled actions. */
  ghost predicate Run(bus: Bus, ticks: nat -> U32, start: Sys, actions: seq<Action>, s: Sys) {
    if actions == [] then s == start
    else
      var k := |actions| - 1;
      exists before :: Run(bus, ticks, start, actions[..k], before)
                       && Enabled(bus, before, actions[k]) && s == Step(ticks, before, actions[k])
  }

  /** Words the sensor may send. */
  ghost predicate Sendable(words: seq<U32>) {
    0 !in words
  }

  // ---------------- The invariant ----------------

  /** How many words are through all four phases. */
  function Sent(words: seq<U32>, s: Sys): int {
    |words| - |s.tx.todo|
  }

  /** The receiver is between latching a word and dropping ACK. */
  predicate Holding(pc: RxPoll.Pc) {
    pc.AssertAck? || pc.Store? || pc.WaitNeutral? || pc.Release?
  }

  /** The word on the lines now has been latched. */
  ghost predicate CurrentLatched(words: seq<U32>, s: Sys) {
    |s.main.rx.latched| == Sent(words, s) + 1
  }

  /** Latched words against sent words: each a non-empty part of its word, all of it on an
      atomic bus. */
  ghost predicate Faithful(bus: Bus, words: seq<U32>, latched: seq<U32>) {
    && |latched| <= |words|
    && (forall i :: 0 <= i < |latched| ==> latched[i] != 0 && SubMask(latched[i], words[i]))
    && (bus == Atomic ==> latched == words[..|latched|])
  }

  /** Transmitter and lines. */
  ghost predicate TxInv(bus: Bus, words: seq<U32>, s: Sys) {
    var tx := s.tx;
    && |tx.todo| <= |words| && tx.todo == words[Sent(words, s)..]
    && (tx.phase == Idle ==> tx.data == 0)
    && (tx.phase != Idle ==> tx.todo != [] && SubMask(tx.data, tx.todo[0]))
    && (tx.phase == Rising ==> tx.data != 0 && (bus == Atomic ==> tx.data == tx.todo[0]))
    && (tx.phase == Falling ==> CurrentLatched(words, s))
  }

  /** Receiver against transmitter, handshake phase by handshake phase. */
  ghost predicate PhaseInv(words: seq<U32>, s: Sys) {
    var tx, main, pc := s.tx, s.main, s.main.rx.pc;
    var latched := |main.rx.latched|;
    if main.pc == MainLoop.Handshake && Holding(pc) then
      && CurrentLatched(words, s) && tx.phase != Idle
      && (main.rx.ack <==> !pc.AssertAck?)
      && (pc.AssertAck? || pc.Store? ==> latched > 0 && main.rx.latched[latched - 1] == pc.word)
      && (pc.AssertAck? ==> tx.phase == Rising)
      && (pc.Release? ==> tx.phase == Falling && tx.data == 0)
    else
      && !main.rx.ack
      && (CurrentLatched(words, s) ==> tx.phase == Falling && tx.data == 0)
      && (!CurrentLatched(words, s) ==> latched == Sent(words, s))
      && (main.pc == MainLoop.Handshake ==> pc.Entry? || pc.WaitValid? || pc == RxPoll.Done(RxPoll.Ok))
      && (main.pc == MainLoop.Handshake && !pc.Done? ==> tx.phase == Rising)
  }

  /** Where the latched words are. */
  ghost predicate FlowInv(ticks: nat -> U32, usb: Usb, s: Sys) {
    var main, rx, pc := s.main, s.main.rx, s.main.rx.pc;
    && rx.validTimeout == 0 && rx.neutralTimeout == 0 && rx.capacity >= 2
    && rx.droppedFull == 0 && |rx.ring| <= 1
    && (main.pc == MainLoop.Peek ==> rx.ring == [])
    && (main.pc == MainLoop.Handshake && (pc.Entry? || pc.WaitValid? || pc.AssertAck? || pc.Store?) ==> rx.ring == [])
    && rx.latched == main.fed + rx.ring
                     + (if main.pc == MainLoop.Handshake && (pc.AssertAck? || pc.Store?) then [pc.word] else [])
    && main.burst == Burst.Run(Burst.INITIAL, Burst.DecodeAll(main.fed))
    && main.out == DeliverAll(ticks, Silent(usb), Burst.Events(Burst.INITIAL, Burst.DecodeAll(main.fed)))
  }

  ghost predicate Inv(bus: Bus, ticks: nat -> U32, words: seq<U32>, usb: Usb, s: Sys) {
    && TxInv(bus, words, s)
    && Faithful(bus, words, s.main.rx.latched)
    && PhaseInv(words, s)
    && FlowInv(ticks, usb, s)
  }

  // ---------------- Every step keeps it ----------------

  lemma TransmitterKeeps(bus: Bus, ticks: nat -> U32, words: seq<U32>, usb: Usb, s: Sys, a: Action)
    requires Sendable(words) && Inv(bus, ticks, words, usb, s) && Enabled(bus, s, a) && !a.Receive?
    ensures Inv(bus, ticks, words, usb, Step(ticks, s, a))
  {
    hide Burst.Run, Burst.Events, Burst.DecodeAll, DeliverAll, SubMask;
    match a {
      case Raise(d) =>
        SubMaskPop(s.tx.data, d);
      case Lower(d) =>
        SubMaskTransitive(d, s.tx.data, s.tx.todo[0]);
        SubMaskPop(d, s.tx.data);
      case Finish =>
        assert s.tx.todo[1..] == words[Sent(words, s) + 1..];
    }
  }

  lemma ReceiverKeeps(bus: Bus, ticks: nat -> U32, words: seq<U32>, usb: Usb, s: Sys)
    requires Sendable(words) && Inv(bus, ticks, words, usb, s)
    ensures Inv(bus, ticks, words, usb, Step(ticks, s, Receive))
  {
    hide Burst.Run, Burst.Events, Burst.DecodeAll, DeliverAll, SubMask;
    match s.main.pc {
      case Peek =>
      case Handshake => HandshakeKeeps(bus, ticks, words, usb, s);
      case Drain =>
        if s.main.rx.ring != [] {
          DrainKeeps(bus, ticks, words, usb, s);
        }
    }
  }

  lemma HandshakeKeeps(bus: Bus, ticks: nat -> U32, words: seq<U32>, usb: Usb, s: Sys)
    requires Sendable(words) && Inv(bus, ticks, words, usb, s) && s.main.pc == MainLoop.Handshake
    ensures Inv(bus, ticks, words, usb, Step(ticks, s, Receive))
  {
    hide Step, Inv;
    match s.main.rx.pc {
      case WaitValid => LatchKeeps(bus, ticks, words, usb, s);
      case Store(word) => StoreKeeps(bus, ticks, words, usb, s);
      case _ => OtherStepKeeps(bus, ticks, words, usb, s);
    }
  }

  lemma OtherStepKeeps(bus: Bus, ticks: nat -> U32, words: seq<U32>, usb: Usb, s: Sys)
    requires Inv(bus, ticks, words, usb, s)
    requires s.main.pc == MainLoop.Handshake && !s.main.rx.pc.WaitValid? && !s.main.rx.pc.Store?
    ensures Inv(bus, ticks, words, usb, Step(ticks, s, Receive))
  {
    hide Burst.Run, Burst.Events, Burst.DecodeAll, DeliverAll, SubMask, Faithful;
  }

  lemma LatchKeeps(bus: Bus, ticks: nat -> U32, words: seq<U32>, usb: Usb, s: Sys)
    requires Inv(bus, ticks, words, usb, s)
    requires s.main.pc == MainLoop.Handshake && s.main.rx.pc.WaitValid?
    ensures Inv(bus, ticks, words, usb, Step(ticks, s, Receive))
  {
    hide Burst.Run, Burst.Events, Burst.DecodeAll, DeliverAll, SubMask;
    var n, d := |s.main.rx.latched|, s.tx.data;
    assert words[n] == s.tx.todo[0];
    assert words[..n] + [words[n]] == words[..n + 1];
  }

  lemma StoreKeeps(bus: Bus, ticks: nat -> U32, words: seq<U32>, usb: Usb, s: Sys)
    requires Inv(bus, ticks, words, usb, s)
    requires s.main.pc == MainLoop.Handshake && s.main.rx.pc.Store?
    ensures Inv(bus, ticks, words, usb, Step(ticks, s, Receive))
  {
    hide Burst.Run, Burst.Events, Burst.DecodeAll, DeliverAll, SubMask;
  }

  lemma DrainKeeps(bus: Bus, ticks: nat -> U32, words: seq<U32>, usb: Usb, s: Sys)
    requires Inv(bus, ticks, words, usb, s) && s.main.pc == MainLoop.Drain && s.main.rx.ring != []
    ensures Inv(bus, ticks, words, usb, Step(ticks, s, Receive))
  {
    hide SubMask, Burst.Run, Burst.Events, Burst.DecodeAll, Burst.Step, Burst.Emits, DeliverAll, DecodeRaw;
    var main, w := s.main, s.main.rx.ring[0];
    Burst.FeedLast(Burst.INITIAL, main.fed, w);
    Burst.DeliverLast(ticks, Silent(usb), Burst.INITIAL, main.fed, w);
    assert main.fed + main.rx.ring == main.fed + [w] + main.rx.ring[1..];
  }

  lemma {:induction false} Reachable(bus: Bus, ticks: nat -> U32, words: seq<U32>, capacity: nat, usb: Usb,
                                     actions: seq<Action>, s: Sys)
    requires Sendable(words) && capacity >= 2
    requires Run(bus, ticks, Initial(words, capacity, usb), actions, s)
    ensures Inv(bus, ticks, words, usb, s)
  {
    if actions != [] {
      var k := |actions| - 1;
      var before :| Run(bus, ticks, Initial(words, capacity, usb), actions[..k], before)
                    && Enabled(bus, before, actions[k]) && s == Step(ticks, before, actions[k]);
      Reachable(bus, ticks, words, capacity, usb, actions[..k], before);
      if actions[k].Receive? {
        ReceiverKeeps(bus, ticks, words, usb, before);
      } else {
        TransmitterKeeps(bus, ticks, words, usb, before, actions[k]);
      }
    }
  }

  // ---------------- The device in a run is the firmware ----------------

  /** The step the main loop takes next reads the DATA lines. */
  predicate ReadsBus(m: MainLoop.Main) {
    m.pc == MainLoop.Peek || (m.pc == MainLoop.Handshake && RxPoll.ReadsData(m.rx))
  }

  ghost predicate Carries(env: RxPoll.Env, levels: seq<U32>) {
    forall i :: 0 <= i < |levels| ==> env.data(i) == levels[i]
  }

  /** In every run the device does what the firmware does in the environment that shows it, at
      each of its reads, what the transmitter then drives. */
  lemma {:induction false} DeviceIsFirmware(bus: Bus, ticks: nat -> U32, words: seq<U32>, capacity: nat, usb: Usb,
                                            actions: seq<Action>, s: Sys)
    returns (levels: seq<U32>, k: nat)
    requires Run(bus, ticks, Initial(words, capacity, usb), actions, s)
    ensures forall env :: Carries(env, levels) ==>
              MainLoop.Iterate(ticks, env, MainLoop.Local(MainLoop.Initial(capacity, usb), 0, 0), k)
              == MainLoop.Local(s.main, |levels|, 0)
    ensures s.main.rx.validTimeout == 0 && s.main.rx.neutralTimeout == 0
  {
    hide MainLoop.Iterate, MainLoop.Next, MainLoop.Advance, Enabled;
    var first := MainLoop.Local(MainLoop.Initial(capacity, usb), 0, 0);
    if actions == [] {
      levels, k := [], 0;
      forall env ensures MainLoop.Iterate(ticks, env, first, 0) == first {
        MainLoop.OneMore(ticks, env, first, 0);
      }
    } else {
      var n := |actions| - 1;
      var before :| Run(bus, ticks, Initial(words, capacity, usb), actions[..n], before)
                    && Enabled(bus, before, actions[n]) && s == Step(ticks, before, actions[n]);
      levels, k := DeviceIsFirmware(bus, ticks, words, capacity, usb, actions[..n], before);
      if actions[n].Receive? {
        var seen, d := levels, before.tx.data;
        levels := if ReadsBus(before.main) then seen + [d] else seen;
        NextKeepsTimeouts(ticks, before.main, d);
        forall env | Carries(env, levels)
          ensures MainLoop.Iterate(ticks, env, first, k + 1) == MainLoop.Local(s.main, |levels|, 0)
        {
          assert forall i :: 0 <= i < |seen| ==> env.data(i) == levels[i] == seen[i];
          MainLoop.OneMore(ticks, env, first, k);
          AdvanceIsNext(ticks, env, before.main, |seen|, d);
        }
        k := k + 1;
      }
    }
  }

  lemma NextKeepsTimeouts(ticks: nat -> U32, m: MainLoop.Main, data: U32)
    ensures var m2 := MainLoop.Next(ticks, m, data, 0);
      m2.rx.validTimeout == m.rx.validTimeout && m2.rx.neutralTimeout == m.rx.neutralTimeout
  {
  }

  lemma AdvanceIsNext(ticks: nat -> U32, env: RxPoll.Env, m: MainLoop.Main, n: nat, data: U32)
    requires m.rx.validTimeout == 0 && m.rx.neutralTimeout == 0
    requires ReadsBus(m) ==> env.data(n) == data
    ensures MainLoop.Advance(ticks, env, MainLoop.Local(m, n, 0))
            == MainLoop.Local(MainLoop.Next(ticks, m, data, 0), n + (if ReadsBus(m) then 1 else 0), 0)
  {
  }

  // ---------------- Safety of every run ----------------

  /** All words through all four phases, and the main loop back at its peek. */
  predicate Quiescent(s: Sys) {
    s.tx.todo == [] && s.tx.phase == Idle && s.main.pc == MainLoop.Peek
  }

  /** Exactly once and in order, in every run on either bus: the latched words match the first
      words sent one for one (as whole words on an atomic bus), nothing is dropped, what the
      assembler was fed is what was latched, and the ring is empty whenever the loop starts
      over; once all is quiet every word has been latched and fed. */
  lemma ExactlyOnce(bus: Bus, ticks: nat -> U32, words: seq<U32>, capacity: nat, usb: Usb,
                    actions: seq<Action>, s: Sys)
    requires Sendable(words) && capacity >= 2
    requires Run(bus, ticks, Initial(words, capacity, usb), actions, s)
    ensures Faithful(bus, words, s.main.rx.latched)
    ensures s.main.fed <= s.main.rx.latched && s.main.rx.droppedFull == 0
    ensures s.main.pc == MainLoop.Peek ==> s.main.rx.ring == [] && s.main.fed == s.main.rx.latched
    ensures Quiescent(s) ==> |s.main.fed| == |words|
  {
    Reachable(bus, ticks, words, capacity, usb, actions, s);
  }

  /** The receiver keeps the four phases: ACK rises only after the word on the lines has been
      latched, and falls only when the lines are neutral. */
  lemma AckDiscipline(bus: Bus, ticks: nat -> U32, words: seq<U32>, capacity: nat, usb: Usb,
                      actions: seq<Action>, s: Sys)
    requires Sendable(words) && capacity >= 2
    requires Run(bus, ticks, Initial(words, capacity, usb), actions, s)
    ensures var next := Step(ticks, s, Receive);
      && (!s.main.rx.ack && next.main.rx.ack ==> s.tx.phase == Rising && CurrentLatched(words, s))
      && (s.main.rx.ack && !next.main.rx.ack ==> s.tx.phase == Falling && s.tx.data == 0)
      && (|next.main.rx.latched| > |s.main.rx.latched| ==> !s.main.rx.ack && !CurrentLatched(words, s))
  {
    Reachable(bus, ticks, words, capacity, usb, actions, s);
    hide Run, Initial;
    AckStep(bus, ticks, words, usb, s);
  }

  lemma AckStep(bus: Bus, ticks: nat -> U32, words: seq<U32>, usb: Usb, s: Sys)
    requires Inv(bus, ticks, words, usb, s)
    ensures var next := Step(ticks, s, Receive);
      && (!s.main.rx.ack && next.main.rx.ack ==> s.tx.phase == Rising && CurrentLatched(words, s))
      && (s.main.rx.ack && !next.main.rx.ack ==> s.tx.phase == Falling && s.tx.data == 0)
      && (|next.main.rx.latched| > |s.main.rx.latched| ==> !s.main.rx.ack && !CurrentLatched(words, s))
  {
    hide Faithful, FlowInv, Burst.Step, Burst.Emits, DeliverAll, DecodeRaw, SubMask;
  }

  // ---------------- Skew ----------------

  /** The sent words whose latched part still decodes. */
  function Survivors(words: seq<U32>, latched: seq<U32>): seq<U32>
    requires |latched| <= |words|
  {
    if latched == [] then []
    else
      var k := |latched| - 1;
      Survivors(words, latched[..k]) + if DecodeRaw(latched[k]).ok then [words[k]] else []
  }

  lemma {:induction false} SurvivorsFeedAlike(words: seq<U32>, latched: seq<U32>)
    requires |latched| <= |words|
    requires forall i :: 0 <= i < |words| ==> Burst.OnBus(words[i])
    requires forall i :: 0 <= i < |latched| ==> SubMask(latched[i], words[i])
    ensures var a, b := Burst.DecodeAll(latched), Burst.DecodeAll(Survivors(words, latched));
      && Burst.Events(Burst.INITIAL, a) == Burst.Events(Burst.INITIAL, b)
      && Burst.Run(Burst.INITIAL, a) == Burst.Run(Burst.INITIAL, b)
  {
    hide SubMask, DecodeRaw, Burst.Run, Burst.Events, Burst.DecodeAll, Burst.Step, Burst.Emits;
    if latched != [] {
      var k := |latched| - 1;
      var w, part := words[k], latched[k];
      SurvivorsFeedAlike(words, latched[..k]);
      Burst.FeedLast(Burst.INITIAL, latched[..k], part);
      assert latched == latched[..k] + [part];
      assert Burst.OnBus(w);
      if DecodeRaw(part).ok {
        PartThatDecodesIsWhole(part, w);
        Burst.FeedLast(Burst.INITIAL, Survivors(words, latched[..k]), w);
      } else {
        Burst.Ignored(Burst.Run(Burst.INITIAL, Burst.DecodeAll(latched[..k])), DecodeRaw(part));
        assert Survivors(words, latched) == Survivors(words, latched[..k]);
      }
    }
  }

  /** Whatever the skew, no wrong payload gets through: a latched value that decodes is the
      word that was sent, and the events are those of the sent words with the torn ones left out. */
  lemma SkewSafety(bus: Bus, ticks: nat -> U32, words: seq<U32>, capacity: nat, usb: Usb,
                   actions: seq<Action>, s: Sys)
    requires Sendable(words) && capacity >= 2
    requires forall i :: 0 <= i < |words| ==> Burst.OnBus(words[i])
    requires Run(bus, ticks, Initial(words, capacity, usb), actions, s)
    ensures var fed := s.main.fed;
      && |fed| <= |words|
      && (forall i :: 0 <= i < |fed| && DecodeRaw(fed[i]).ok ==> fed[i] == words[i])
      && s.main.out.events == Burst.Events(Burst.INITIAL, Burst.DecodeAll(Survivors(words, fed)))
  {
    hide SubMask, DecodeRaw, Burst.Run, Burst.Events, Burst.DecodeAll, DeliverAll;
    Reachable(bus, ticks, words, capacity, usb, actions, s);
    var fed := s.main.fed;
    assert forall i :: 0 <= i < |fed| ==> fed[i] == s.main.rx.latched[i];
    forall i | 0 <= i < |fed| && DecodeRaw(fed[i]).ok ensures fed[i] == words[i] {
      assert Burst.OnBus(words[i]);
      PartThatDecodesIsWhole(fed[i], words[i]);
    }
    SurvivorsFeedAlike(words, fed);
    DeliveryKeeps(ticks, Silent(usb), Burst.Events(Burst.INITIAL, Burst.DecodeAll(fed)));
  }

  /** The callback log is what the assembler makes of the fed words. */
  lemma EventsAreOfFed(bus: Bus, ticks: nat -> U32, words: seq<U32>, capacity: nat, usb: Usb,
                       actions: seq<Action>, s: Sys)
    requires Sendable(words) && capacity >= 2
    requires Run(bus, ticks, Initial(words, capacity, usb), actions, s)
    ensures s.main.out.events == Burst.Events(Burst.INITIAL, Burst.DecodeAll(s.main.fed))
  {
    hide *;
    Reachable(bus, ticks, words, capacity, usb, actions, s);
    OutputIs(bus, ticks, words, usb, s);
    SilentIs(usb);
    DeliveryKeeps(ticks, Silent(usb), Burst.Events(Burst.INITIAL, Burst.DecodeAll(s.main.fed)));
  }

  lemma OutputIs(bus: Bus, ticks: nat -> U32, words: seq<U32>, usb: Usb, s: Sys)
    requires Inv(bus, ticks, words, usb, s)
    ensures s.main.out == DeliverAll(ticks, Silent(usb), Burst.Events(Burst.INITIAL, Burst.DecodeAll(s.main.fed)))
  {
    hide TxInv, Faithful, PhaseInv;
  }

  lemma SilentIs(usb: Usb)
    ensures Silent(usb).events == []
  {
  }

  // ---------------- Progress ----------------

  /** Steps a word can still take: each of its lines up, each down, and the end of its cycle. */
  function Cost(todo: seq<U32>): nat {
    if todo == [] then 0 else 2 * Pop(todo[0]) + 1 + Cost(todo[1..])
  }

  function TxRank(tx: Tx): int {
    match tx.phase
    case Idle => Cost(tx.todo)
    case Rising => Cost(tx.todo) - Pop(tx.data)
    case Falling => Cost(if tx.todo == [] then [] else tx.todo[1..]) + Pop(tx.data) + 1
  }

  /** Steps left in the receiver's cycle, counted from a latched word. */
  function RxRank(m: MainLoop.Main): nat {
    match m.pc
    case Peek => 2
    case Drain => if m.rx.ring == [] then 3 else 3 + |m.rx.ring|
    case Handshake =>
      match m.rx.pc
      case Entry => 1
      case WaitValid => 0
      case AssertAck(_) => 10
      case Store(_) => 9
      case WaitNeutral => 8
      case Release => 7
      case Recover => 7
      case Done(_) => 6
  }

  /** What is left to do before everything is quiet. */
  function Measure(words: seq<U32>, s: Sys): int {
    11 * (|words| - |s.main.rx.latched|) + RxRank(s.main) + TxRank(s.tx)
  }

  /** Every step that is not a spin (a poll that changes nothing) brings the system closer to quiet. */
  lemma EveryMoveDescends(bus: Bus, ticks: nat -> U32, words: seq<U32>, usb: Usb, s: Sys, a: Action)
    requires Inv(bus, ticks, words, usb, s) && Enabled(bus, s, a)
    requires Step(ticks, s, a) != s
    ensures 0 <= Measure(words, Step(ticks, s, a)) < Measure(words, s)
  {
    hide Burst.Run, Burst.Events, Burst.DecodeAll, DeliverAll, SubMask, Pop, DecodeRaw, Burst.Step, Burst.Emits, Cost;
    RankBound(bus, words, s.tx, s);
    match a {
      case Raise(d) =>
        SubMaskPop(s.tx.data, d);
        SubMaskPop(d, s.tx.todo[0]);
        CostIs(s.tx.todo);
        PopZero(0);
      case Lower(d) =>
        SubMaskPop(d, s.tx.data);
        CostIs(s.tx.todo);
      case Finish =>
        PopZero(0);
      case Receive =>
    }
  }

  lemma CostIs(todo: seq<U32>)
    requires todo != []
    ensures Cost(todo) == 2 * Pop(todo[0]) + 1 + Cost(todo[1..])
  {
    hide Pop;
  }

  lemma RankBound(bus: Bus, words: seq<U32>, tx: Tx, s: Sys)
    requires tx == s.tx && TxInv(bus, words, s)
    ensures TxRank(tx) >= 0
    ensures tx.phase != Idle ==> Pop(tx.data) <= Pop(tx.todo[0])
  {
    hide Pop, SubMask, Cost;
    if tx.phase != Idle {
      SubMaskPop(tx.data, tx.todo[0]);
      CostIs(tx.todo);
    }
  }

  ghost function StateAfter(ticks: nat -> U32, start: Sys, actions: seq<Action>): Sys {
    if actions == [] then start
    else Step(ticks, StateAfter(ticks, start, actions[..|actions| - 1]), actions[|actions| - 1])
  }

  /** How many steps of a run are not spins. */
  ghost function Moves(ticks: nat -> U32, start: Sys, actions: seq<Action>): nat {
    if actions == [] then 0
    else
      var k := |actions| - 1;
      var before := StateAfter(ticks, start, actions[..k]);
      Moves(ticks, start, actions[..k]) + if Step(ticks, before, actions[k]) != before then 1 else 0
  }

  /** However the two sides are scheduled, a run has only so many steps that are not spins. */
  lemma {:induction false} MovesAreBounded(bus: Bus, ticks: nat -> U32, words: seq<U32>, capacity: nat, usb: Usb,
                                           actions: seq<Action>, s: Sys)
    requires Sendable(words) && capacity >= 2
    requires Run(bus, ticks, Initial(words, capacity, usb), actions, s)
    ensures var start := Initial(words, capacity, usb);
      && s == StateAfter(ticks, start, actions)
      && 0 <= Moves(ticks, start, actions) <= Measure(words, start) - Measure(words, s)
  {
    hide Inv, Enabled, Step, Measure, Initial;
    if actions != [] {
      var k, start := |actions| - 1, Initial(words, capacity, usb);
      var before :| Run(bus, ticks, start, actions[..k], before)
                    && Enabled(bus, before, actions[k]) && s == Step(ticks, before, actions[k]);
      MovesAreBounded(bus, ticks, words, capacity, usb, actions[..k], before);
      Reachable(bus, ticks, words, capacity, usb, actions[..k], before);
      if s != before {
        EveryMoveDescends(bus, ticks, words, usb, before, actions[k]);
      }
    }
  }

  // ---------------- Schedules ----------------

  /** What the receiver may find on the lines, word by word: each time some of the word's lines, on
      an atomic bus all of them. */
  ghost predicate Parts(bus: Bus, words: seq<U32>, plan: seq<U32>) {
    |plan| == |words| && Faithful(bus, words, plan)
  }

  ghost function Planned(words: seq<U32>, plan: seq<U32>, s: Sys): U32 {
    if 0 <= Sent(words, s) < |plan| then plan[Sent(words, s)] else 0
  }

  /** A step that moves the system on, in every state that is not quiet; the next word is first
      raised as far as planned. */
  ghost function NextMove(words: seq<U32>, plan: seq<U32>, s: Sys): Action {
    if s.tx.phase == Idle && s.tx.todo != [] then Raise(Planned(words, plan, s))
    else if s.tx.phase == Falling && s.tx.data == 0 && !s.main.rx.ack then Finish
    else if s.main.rx.ack && s.tx.data != 0 && s.main.rx.pc.WaitNeutral? then Lower(0)
    else Receive
  }

  /** No deadlock: until all is quiet some step is enabled that changes something. */
  lemma NeverStuck(bus: Bus, ticks: nat -> U32, words: seq<U32>, plan: seq<U32>, usb: Usb, s: Sys)
    requires Parts(bus, words, plan) && Inv(bus, ticks, words, usb, s)
    requires !Quiescent(s)
    ensures Enabled(bus, s, NextMove(words, plan, s)) && Step(ticks, s, NextMove(words, plan, s)) != s
  {
    hide Burst.Run, Burst.Events, Burst.DecodeAll, DeliverAll, SubMask, DecodeRaw, Burst.Step, Burst.Emits;
    if s.tx.phase == Idle && s.tx.todo != [] {
      var n := Sent(words, s);
      assert words[n] == s.tx.todo[0] && plan[n] != 0;
      EmptyMask(plan[n]);
    } else {
      EmptyMask(s.tx.data);
    }
  }

  lemma EmptyMask(a: nat)
    ensures SubMask(0, a)
  {
  }

  /** So far the receiver has latched what was planned, and will latch the next word as planned. */
  ghost predicate OnPlan(words: seq<U32>, plan: seq<U32>, s: Sys) {
    && s.main.rx.latched <= plan
    && (s.tx.phase == Rising && !CurrentLatched(words, s) ==> s.tx.data == Planned(words, plan, s))
  }

  lemma NextMoveKeepsPlan(bus: Bus, ticks: nat -> U32, words: seq<U32>, plan: seq<U32>, usb: Usb, s: Sys)
    requires Parts(bus, words, plan) && Inv(bus, ticks, words, usb, s) && OnPlan(words, plan, s)
    ensures OnPlan(words, plan, Step(ticks, s, NextMove(words, plan, s)))
  {
    hide Burst.Run, Burst.Events, Burst.DecodeAll, DeliverAll, SubMask, DecodeRaw, Burst.Step, Burst.Emits;
  }

  /** Every plan can be carried out, from every state that is on it. */
  lemma {:induction false} FollowPlan(bus: Bus, ticks: nat -> U32, words: seq<U32>, plan: seq<U32>,
                                      capacity: nat, usb: Usb, actions: seq<Action>, s: Sys)
    returns (more: seq<Action>, quiet: Sys)
    requires Sendable(words) && capacity >= 2 && Parts(bus, words, plan)
    requires Run(bus, ticks, Initial(words, capacity, usb), actions, s) && OnPlan(words, plan, s)
    ensures Run(bus, ticks, Initial(words, capacity, usb), actions + more, quiet) && Quiescent(quiet)
    ensures quiet.main.rx.latched == plan && quiet.main.fed == plan
    ensures |more| <= Measure(words, s)
    decreases Measure(words, s)
  {
    hide *;
    Reachable(bus, ticks, words, capacity, usb, actions, s);
    MeasureBound(bus, ticks, words, usb, s);
    if Quiescent(s) {
      more, quiet := [], s;
      assert actions + [] == actions;
      AllLatched(bus, ticks, words, plan, usb, s);
    } else {
      var a := NextMove(words, plan, s);
      NeverStuck(bus, ticks, words, plan, usb, s);
      NextMoveKeepsPlan(bus, ticks, words, plan, usb, s);
      EveryMoveDescends(bus, ticks, words, usb, s, a);
      RunSnoc(bus, ticks, Initial(words, capacity, usb), actions, s, a);
      more, quiet := FollowPlan(bus, ticks, words, plan, capacity, usb, actions + [a], Step(ticks, s, a));
      assert actions + ([a] + more) == actions + [a] + more;
      more := [a] + more;
    }
  }

  lemma AllLatched(bus: Bus, ticks: nat -> U32, words: seq<U32>, plan: seq<U32>, usb: Usb, s: Sys)
    requires Parts(bus, words, plan) && Inv(bus, ticks, words, usb, s) && OnPlan(words, plan, s) && Quiescent(s)
    ensures s.main.rx.latched == plan && s.main.fed == plan
  {
    hide Burst.Run, Burst.Events, Burst.DecodeAll, DeliverAll, SubMask, Faithful;
  }

  /** From every reachable state the system can finish, in at most `Measure` further moves. */
  lemma CanFinish(bus: Bus, ticks: nat -> U32, words: seq<U32>, capacity: nat, usb: Usb,
                  actions: seq<Action>, s: Sys)
    returns (more: seq<Action>, quiet: Sys)
    requires Sendable(words) && capacity >= 2
    requires Run(bus, ticks, Initial(words, capacity, usb), actions, s)
    ensures Run(bus, ticks, Initial(words, capacity, usb), actions + more, quiet) && Quiescent(quiet)
    ensures |more| <= Measure(words, s)
  {
    hide *;
    Reachable(bus, ticks, words, capacity, usb, actions, s);
    PlanFromHere(bus, ticks, words, usb, s);
    more, quiet := FollowPlan(bus, ticks, words, WholeFrom(words, s), capacity, usb, actions, s);
  }

  /** What has been latched, the lines as they are, then whole words. */
  ghost function WholeFrom(words: seq<U32>, s: Sys): seq<U32> {
    var latched := s.main.rx.latched;
    var n := Min(|latched|, |words|);
    latched
    + if s.tx.phase == Rising && !CurrentLatched(words, s) && n < |words| then [s.tx.data] + words[n + 1..]
      else [] + words[n..]
  }

  lemma PlanFromHere(bus: Bus, ticks: nat -> U32, words: seq<U32>, usb: Usb, s: Sys)
    requires Sendable(words) && Inv(bus, ticks, words, usb, s)
    ensures Parts(bus, words, WholeFrom(words, s)) && OnPlan(words, WholeFrom(words, s), s)
  {
    hide FlowInv, SubMask, Faithful;
    var latched := s.main.rx.latched;
    var n := |latched|;
    assert n <= |words| by { FaithfulLength(bus, words, latched); }
    if s.tx.phase == Rising && !CurrentLatched(words, s) {
      assert words[n] == s.tx.todo[0];
      PlanIsFaithful(bus, words, latched, [s.tx.data]);
    } else {
      PlanIsFaithful(bus, words, latched, []);
    }
  }

  lemma FaithfulLength(bus: Bus, words: seq<U32>, latched: seq<U32>)
    requires Faithful(bus, words, latched)
    ensures |latched| <= |words|
  {
  }

  lemma PlanIsFaithful(bus: Bus, words: seq<U32>, latched: seq<U32>, now: seq<U32>)
    requires Sendable(words) && Faithful(bus, words, latched) && |now| <= 1 && |latched| + |now| <= |words|
    requires now != [] ==>
               var w := words[|latched|]; now[0] != 0 && SubMask(now[0], w) && (bus == Atomic ==> now[0] == w)
    ensures Faithful(bus, words, latched + (now + words[|latched| + |now|..]))
  {
    hide SubMask;
    var plan := latched + (now + words[|latched| + |now|..]);
    forall i | 0 <= i < |words| ensures plan[i] != 0 && SubMask(plan[i], words[i]) {
      SubMaskReflexive(words[i]);
    }
    assert bus == Atomic ==> plan == words;
    assert words[..|plan|] == words;
  }

  lemma MeasureBound(bus: Bus, ticks: nat -> U32, words: seq<U32>, usb: Usb, s: Sys)
    requires Inv(bus, ticks, words, usb, s)
    ensures Measure(words, s) >= 0
  {
    hide Burst.Run, Burst.Events, Burst.DecodeAll, DeliverAll, SubMask, Pop, Cost;
    RankBound(bus, words, s.tx, s);
  }

  lemma RunSnoc(bus: Bus, ticks: nat -> U32, start: Sys, actions: seq<Action>, s: Sys, a: Action)
    requires Run(bus, ticks, start, actions, s) && Enabled(bus, s, a)
    ensures Run(bus, ticks, start, actions + [a], Step(ticks, s, a))
  {
    assert (actions + [a])[..|actions|] == actions;
  }
}
