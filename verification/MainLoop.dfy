/** The firmware's main loop (pico_aer_rx/pico_aer_rx.c): peek at the bus, complete one handshake,
    drain the ring through the decoder and the burst assembler to the USB stream. */
module MainLoop {
  import opened Words
  import opened Codec
  import opened UsbStream
  import Burst
  import RingBuf
  import RxPoll
  import Drops

  const RAW_RB_CAPACITY: nat := 2048

  datatype Pc = Peek | Handshake | Drain

  /** The whole device; `fed` records the words taken out of the ring. */
  datatype Main = Main(pc: Pc, rx: RxPoll.Rx, burst: Burst.State, out: Output, fed: seq<U32>)

  /** After initialisation: both timeouts off. */
  function Initial(capacity: nat, usb: Usb): Main {
    Main(Peek, RxPoll.Initial(capacity, [], 0, 0), Burst.INITIAL, Silent(usb), [])
  }

  /** One step of the loop, with what the bus and the clock read now. */
  function Next(ticks: nat -> U32, m: Main, data: U32, now: U64): Main {
    match m.pc
    case Peek =>
      if data == 0 then m else m.(pc := Handshake, rx := m.rx.(pc := RxPoll.Entry))
    case Handshake =>
      if m.rx.pc.Done? then m.(pc := Drain) else m.(rx := RxPoll.Poll(m.rx, data, now))
    case Drain =>
      if m.rx.ring == [] then m.(pc := Peek) else FeedOne(ticks, m)
  }

  /** Pop one word, decode it, feed it to the assembler, whose events go out over USB. */
  function FeedOne(ticks: nat -> U32, m: Main): Main
    requires m.rx.ring != []
  {
    var d := DecodeRaw(m.rx.ring[0]);
    m.(rx := m.rx.(ring := m.rx.ring[1..]),
       burst := Burst.Step(m.burst, d),
       out := DeliverAll(ticks, m.out, Burst.Emits(m.burst, d)),
       fed := m.fed + [m.rx.ring[0]])
  }

  // ---------------- The loop body against its environment ----------------

  datatype Local = Local(main: Main, dataReads: nat, clockReads: nat)

  function RxLocal(l: Local): RxPoll.Local {
    RxPoll.Local(l.main.rx, l.dataReads, l.clockReads)
  }

  function WithRx(l: Local, r: RxPoll.Local): Local {
    Local(l.main.(rx := r.rx), r.dataReads, r.clockReads)
  }

  function Advance(ticks: nat -> U32, env: RxPoll.Env, l: Local): Local {
    var data := env.data(l.dataReads);
    var m := Next(ticks, l.main, data, env.clock(l.clockReads));
    match l.main.pc
    case Peek => Local(m, l.dataReads + 1, l.clockReads)
    case Handshake =>
      if l.main.rx.pc.Done? then l.(main := m) else WithRx(l, RxPoll.Advance(env, RxLocal(l)))
    case Drain => l.(main := m)
  }

  function Iterate(ticks: nat -> U32, env: RxPoll.Env, l: Local, n: nat): Local {
    if n == 0 then l else Advance(ticks, env, Iterate(ticks, env, l, n - 1))
  }

  lemma {:induction false} IterateAdd(ticks: nat -> U32, env: RxPoll.Env, l: Local, a: nat, b: nat)
    ensures Iterate(ticks, env, Iterate(ticks, env, l, a), b) == Iterate(ticks, env, l, a + b)
  {
    hide Advance;
    if b > 0 {
      IterateAdd(ticks, env, l, a, b - 1);
    }
  }

  lemma OneMore(ticks: nat -> U32, env: RxPoll.Env, l: Local, k: nat)
    ensures Iterate(ticks, env, l, 0) == l
    ensures Iterate(ticks, env, l, k + 1) == Advance(ticks, env, Iterate(ticks, env, l, k))
  {
    hide Advance;
  }

  /** While a call is running, the loop's steps are the receiver's. */
  lemma {:induction false} CallIsRun(ticks: nat -> U32, env: RxPoll.Env, l: Local, r: RxPoll.Local, n: nat)
    returns (k: nat)
    requires l.main.pc == Handshake && RxLocal(l) == RxPoll.Begin(r)
    requires RxPoll.IsDone(RxPoll.Iterate(env, RxPoll.Begin(r), n))
    ensures RxPoll.IsDone(RxPoll.Iterate(env, RxPoll.Begin(r), k))
    ensures Iterate(ticks, env, l, k) == WithRx(l, RxPoll.Iterate(env, RxPoll.Begin(r), k))
    ensures forall j: nat :: j <= k ==> Iterate(ticks, env, l, j).main.pc == Handshake
  {
    hide RxPoll.Poll;
    k := 0;
    assert Iterate(ticks, env, l, 0) == WithRx(l, RxPoll.Iterate(env, RxPoll.Begin(r), 0));
    while !RxPoll.IsDone(RxPoll.Iterate(env, RxPoll.Begin(r), k))
      invariant k <= n
      invariant forall j: nat :: j <= k ==> Iterate(ticks, env, l, j).main.pc == Handshake
      invariant Iterate(ticks, env, l, k) == WithRx(l, RxPoll.Iterate(env, RxPoll.Begin(r), k))
      decreases n - k
    {
      OneMore(ticks, env, l, k);
      RxPoll.OneMore(env, RxPoll.Begin(r), k);
      k := k + 1;
    }
  }

  // ---------------- One turn of the loop ----------------

  /** `n` steps lead from the peek at `l` to the next peek. */
  ghost predicate IsTurn(ticks: nat -> U32, env: RxPoll.Env, l: Local, n: nat) {
    && n > 0 && Iterate(ticks, env, l, n).main.pc == Peek
    && forall j :: 0 < j < n ==> Iterate(ticks, env, l, j).main.pc != Peek
  }

  ghost predicate NeutralUpTo(env: RxPoll.Env, from: nat, upTo: nat) {
    forall i: nat :: from <= i < upTo ==> env.data(i) == 0
  }

  /** `i` is the first reading from `from` on that is not neutral. */
  ghost predicate FirstValid(env: RxPoll.Env, from: nat, i: nat) {
    i >= from && env.data(i) != 0 && NeutralUpTo(env, from, i)
  }

  /** Words `ws` have gone through the decoder and the assembler to the sink. */
  ghost predicate FedFrom(ticks: nat -> U32, before: Main, now: Main, ws: seq<U32>) {
    && now.fed == before.fed + ws
    && now.burst == Burst.Run(before.burst, Burst.DecodeAll(ws))
    && now.out == DeliverAll(ticks, before.out, Burst.Events(before.burst, Burst.DecodeAll(ws)))
  }

  /** What the ring holds once `w` has been received: a full ring drops it. */
  function RingAfter(rx: RxPoll.Rx, w: U32): seq<U32> {
    if RxPoll.RingFull(rx) then rx.ring else rx.ring + [w]
  }

  /** What a turn does: on a neutral peek one reading and nothing else; otherwise one handshake with the
      first word to be read, and everything in the ring, that word included unless the ring was full,
      goes out in order. */
  ghost predicate TurnDoes(ticks: nat -> U32, env: RxPoll.Env, l: Local, now: Local) {
    if env.data(l.dataReads) == 0 then now == l.(dataReads := l.dataReads + 1)
    else
      exists i: nat :: FirstValid(env, l.dataReads + 1, i)
        && Received(l.main.rx, now.main.rx, env.data(i))
        && now.main.rx.ring == [] && !now.main.rx.ack && now.dataReads > i + 1
        && FedFrom(ticks, l.main, now.main, RingAfter(l.main.rx, env.data(i)))
  }

  /** One completed handshake that latched `w`. */
  ghost predicate Received(before: RxPoll.Rx, now: RxPoll.Rx, w: U32) {
    && now.wordsOk == before.wordsOk + 1 && now.latched == before.latched + [w]
    && now.timeoutsValid == before.timeoutsValid && now.timeoutsNeutral == before.timeoutsNeutral
    && now.droppedFull == before.droppedFull + (if RxPoll.RingFull(before) then 1 else 0)
    && now.capacity == before.capacity && now.validTimeout == before.validTimeout
    && now.neutralTimeout == before.neutralTimeout
  }

  /** In the middle of a turn. */
  ghost predicate InTurn(ticks: nat -> U32, env: RxPoll.Env, l: Local, now: Local) {
    match now.main.pc
    case Handshake => InHandshake(env, l, now) && now.main.burst == l.main.burst && now.main.out == l.main.out
                      && now.main.fed == l.main.fed
    case Drain => InDrain(ticks, env, l, now)
    case Peek => InDrain(ticks, env, l, now) && now.main.rx.ring == []
  }

  ghost predicate InHandshake(env: RxPoll.Env, l: Local, now: Local) {
    var before, rx, from := l.main.rx, now.main.rx, l.dataReads + 1;
    && Drops.InCall(before, rx)
    && rx.timeoutsValid == before.timeoutsValid && rx.timeoutsNeutral == before.timeoutsNeutral
    && (if rx.pc.Entry? || rx.pc.WaitValid? then now.dataReads >= from && NeutralUpTo(env, from, now.dataReads)
        else exists i: nat :: FirstValid(env, from, i) && rx.latched == before.latched + [env.data(i)]
                              && now.dataReads > i + (if rx.pc.Release? || rx.pc.Done? then 1 else 0))
    && (rx.pc == RxPoll.Done(RxPoll.Ok) ==> !rx.ack)
  }

  ghost predicate InDrain(ticks: nat -> U32, env: RxPoll.Env, l: Local, now: Local) {
    exists i: nat, ws: seq<U32> ::
      && FirstValid(env, l.dataReads + 1, i) && now.dataReads > i + 1
      && Received(l.main.rx, now.main.rx, env.data(i)) && !now.main.rx.ack
      && FedFrom(ticks, l.main, now.main, ws)
      && ws + now.main.rx.ring == RingAfter(l.main.rx, env.data(i))
  }

  lemma TurnBegins(ticks: nat -> U32, env: RxPoll.Env, l: Local)
    requires l.main.pc == Peek && env.data(l.dataReads) != 0
    ensures InTurn(ticks, env, l, Advance(ticks, env, l)) && Advance(ticks, env, l).main.pc == Handshake
  {
    hide Burst.Run, Burst.Events, DeliverAll;
  }

  lemma TurnGoesOn(ticks: nat -> U32, env: RxPoll.Env, l: Local, now: Local)
    requires l.main.rx.validTimeout == 0 && l.main.rx.neutralTimeout == 0
    requires InTurn(ticks, env, l, now) && now.main.pc != Peek
    ensures InTurn(ticks, env, l, Advance(ticks, env, now))
  {
    if now.main.pc == Handshake {
      if now.main.rx.pc.Done? {
        DrainBegins(ticks, env, l, now);
      } else {
        HandshakeGoesOn(ticks, env, l, now);
      }
    } else {
      DrainGoesOn(ticks, env, l, now);
    }
  }

  lemma HandshakeGoesOn(ticks: nat -> U32, env: RxPoll.Env, l: Local, now: Local)
    requires l.main.rx.validTimeout == 0 && l.main.rx.neutralTimeout == 0
    requires InTurn(ticks, env, l, now) && now.main.pc == Handshake && !now.main.rx.pc.Done?
    ensures InTurn(ticks, env, l, Advance(ticks, env, now))
  {
    hide Drops.InCall, RxPoll.RingFull, NeutralUpTo;
    var rx, data := now.main.rx, env.data(now.dataReads);
    Drops.PollInCall(l.main.rx, rx, data, env.clock(now.clockReads));
    CallHasNoTimeouts(l.main.rx, rx);
    match rx.pc {
      case Entry => RxPoll.StraightTurn(env, RxLocal(now));
      case WaitValid =>
        RxPoll.ValidTurn(env, RxLocal(now));
        OneMoreNeutral(env, l.dataReads + 1, now.dataReads);
        LatchedSoFar(l.main.rx, rx);
        if data != 0 {
          assert FirstValid(env, l.dataReads + 1, now.dataReads);
        }
      case WaitNeutral => RxPoll.NeutralTurn(env, RxLocal(now));
      case _ => RxPoll.StraightTurn(env, RxLocal(now));
    }
  }

  lemma OneMoreNeutral(env: RxPoll.Env, from: nat, upTo: nat)
    requires from <= upTo && NeutralUpTo(env, from, upTo)
    ensures env.data(upTo) == 0 ==> NeutralUpTo(env, from, upTo + 1)
  {
  }

  lemma LatchedSoFar(before: RxPoll.Rx, rx: RxPoll.Rx)
    requires Drops.InCall(before, rx) && rx.pc.WaitValid?
    ensures rx.latched == before.latched
  {
  }

  lemma CallHasNoTimeouts(before: RxPoll.Rx, rx: RxPoll.Rx)
    requires Drops.InCall(before, rx)
    ensures rx.validTimeout == before.validTimeout && rx.neutralTimeout == before.neutralTimeout
    ensures rx.neutralTimeout == 0 ==> !rx.pc.Recover? && rx.pc != RxPoll.Done(RxPoll.TimeoutWaitNeutral)
    ensures rx.validTimeout == 0 ==> rx.pc != RxPoll.Done(RxPoll.TimeoutWaitValid)
  {
  }

  lemma DrainBegins(ticks: nat -> U32, env: RxPoll.Env, l: Local, now: Local)
    requires l.main.rx.validTimeout == 0 && l.main.rx.neutralTimeout == 0
    requires InTurn(ticks, env, l, now) && now.main.pc == Handshake && now.main.rx.pc.Done?
    ensures InTurn(ticks, env, l, Advance(ticks, env, now))
  {
    hide Burst.Run, Burst.Events, Burst.DecodeAll, DeliverAll, RxPoll.RingFull;
    var rx := now.main.rx;
    CallHasNoTimeouts(l.main.rx, rx);
    assert rx.pc == RxPoll.Done(RxPoll.Ok);
    NothingFed(ticks, l.main);
    var i: nat :| FirstValid(env, l.dataReads + 1, i) && rx.latched == l.main.rx.latched + [env.data(i)]
                  && now.dataReads > i + 1;
    var w := env.data(i);
    assert rx.latched[|rx.latched| - 1] == w;
    assert [] + rx.ring == RingAfter(l.main.rx, w);
    assert l.main.fed + [] == l.main.fed;
    assert InDrain(ticks, env, l, Advance(ticks, env, now));
  }

  lemma NothingFed(ticks: nat -> U32, m: Main)
    ensures Burst.Run(m.burst, Burst.DecodeAll([])) == m.burst
    ensures DeliverAll(ticks, m.out, Burst.Events(m.burst, Burst.DecodeAll([]))) == m.out
  {
  }

  lemma DrainGoesOn(ticks: nat -> U32, env: RxPoll.Env, l: Local, now: Local)
    requires InTurn(ticks, env, l, now) && now.main.pc == Drain
    ensures InTurn(ticks, env, l, Advance(ticks, env, now))
  {
    hide Burst.Run, Burst.Events, Burst.DecodeAll, Burst.Step, Burst.Emits, DeliverAll, DecodeRaw,
      RingAfter, FirstValid;
    var i: nat, ws: seq<U32> :| FirstValid(env, l.dataReads + 1, i) && now.dataReads > i + 1
      && Received(l.main.rx, now.main.rx, env.data(i)) && !now.main.rx.ack
      && FedFrom(ticks, l.main, now.main, ws)
      && ws + now.main.rx.ring == RingAfter(l.main.rx, env.data(i));
    if now.main.rx.ring != [] {
      var w := now.main.rx.ring[0];
      Burst.FeedLast(l.main.burst, ws, w);
      Burst.DeliverLast(ticks, l.main.out, l.main.burst, ws, w);
      var next := Advance(ticks, env, now);
      assert FedFrom(ticks, l.main, next.main, ws + [w]);
      assert ws + [w] + next.main.rx.ring == ws + now.main.rx.ring;
    }
  }

  /** What a turn does is determined by its being one: it cannot stop short of the next peek or go
      past it. */
  lemma TurnIs(ticks: nat -> U32, env: RxPoll.Env, l: Local, n: nat)
    requires l.main.pc == Peek && l.main.rx.validTimeout == 0 && l.main.rx.neutralTimeout == 0
    requires IsTurn(ticks, env, l, n)
    ensures TurnDoes(ticks, env, l, Iterate(ticks, env, l, n))
  {
    hide Advance, Iterate, InTurn;
    OneMore(ticks, env, l, 0);
    assert Iterate(ticks, env, l, 0) == l;
    if env.data(l.dataReads) == 0 {
      NeutralPeek(ticks, env, l);
      assert n == 1;
    } else {
      SoFarInTurn(ticks, env, l, n);
      TurnEnds(ticks, env, l, Iterate(ticks, env, l, n));
    }
  }

  lemma NeutralPeek(ticks: nat -> U32, env: RxPoll.Env, l: Local)
    requires l.main.pc == Peek && env.data(l.dataReads) == 0
    ensures Advance(ticks, env, l) == l.(dataReads := l.dataReads + 1)
  {
  }

  lemma {:induction false} SoFarInTurn(ticks: nat -> U32, env: RxPoll.Env, l: Local, j: nat)
    requires l.main.pc == Peek && l.main.rx.validTimeout == 0 && l.main.rx.neutralTimeout == 0
    requires env.data(l.dataReads) != 0 && j > 0
    requires forall k :: 0 < k < j ==> Iterate(ticks, env, l, k).main.pc != Peek
    ensures InTurn(ticks, env, l, Iterate(ticks, env, l, j))
  {
    hide Advance, Iterate, InTurn;
    OneMore(ticks, env, l, j - 1);
    if j == 1 {
      TurnBegins(ticks, env, l);
    } else {
      SoFarInTurn(ticks, env, l, j - 1);
      TurnGoesOn(ticks, env, l, Iterate(ticks, env, l, j - 1));
    }
  }

  lemma TurnEnds(ticks: nat -> U32, env: RxPoll.Env, l: Local, now: Local)
    requires InTurn(ticks, env, l, now) && now.main.pc == Peek && env.data(l.dataReads) != 0
    ensures TurnDoes(ticks, env, l, now)
  {
    hide FirstValid, Received, FedFrom, RingAfter;
    var i: nat, ws: seq<U32> :| FirstValid(env, l.dataReads + 1, i) && now.dataReads > i + 1
      && Received(l.main.rx, now.main.rx, env.data(i)) && !now.main.rx.ack
      && FedFrom(ticks, l.main, now.main, ws)
      && ws + now.main.rx.ring == RingAfter(l.main.rx, env.data(i));
    assert ws + [] == ws;
  }

  class Firmware {
    const rb: RingBuf.RingBuf
    const rx: RxPoll.Receiver
    const burst: Burst.Assembler
    const sink: EventSink
    ghost var model: Local

    /** What `main` sets up before its loop. */
    constructor (hal: RxPoll.Hal, usb: UsbStream)
      modifies hal`ack
      ensures Valid() && fresh(rb) && fresh(rx) && fresh(burst) && fresh(sink)
      ensures rx.hal == hal && sink.usb == usb && sink.ticks == usb.ticks
      ensures model == Local(Initial(RAW_RB_CAPACITY, usb.View()), hal.dataReads, hal.clockReads)
    {
      hide RingBuf.Stored, RxPoll.Poll, RxPoll.Receiver.Valid, RingBuf.RingBuf.Contents, Burst.Assembler.View, Send;
      var storage := new U32[RAW_RB_CAPACITY];
      var ring := new RingBuf.RingBuf();
      var _ := ring.Init(storage, RAW_RB_CAPACITY);
      ring.Clear();
      rb := ring;
      rx := new RxPoll.Receiver(hal, ring, 0, 0);
      burst := new Burst.Assembler();
      sink := new EventSink.OnDevice(usb, true);
      model := Local(Initial(RAW_RB_CAPACITY, usb.View()), hal.dataReads, hal.clockReads);
    }

    ghost predicate Valid()
      reads this, rx, rx.hal, rb, rb.buf, burst, burst.cols, Footprint(sink)
    {
      && rx.rb == rb && rx.Valid() && burst.Valid() && sink.Valid() && sink.usb != null
      && (rb.buf as object?) != burst.cols
      && rx.waitValidTimeoutUs == 0 && rx.waitNeutralTimeoutUs == 0 && rb.capacity == RAW_RB_CAPACITY
      && RxLocal(model) == rx.model
      && burst.View() == model.main.burst && sink.View() == model.main.out
    }

    /** One turn of the endless loop, for every turn that ends. */
    method Turn() returns (ghost n: nat)
      requires Valid() && model.main.pc == Peek
      requires rx.hal.env.data(model.dataReads) != 0 ==>
                 RxPoll.Returns(rx.hal.env, RxLocal(Advance(sink.ticks, rx.hal.env, model)))
      modifies this, rx, rx.hal, rb, rb.buf, burst, burst.cols, Footprint(sink)
      ensures Valid() && model.main.pc == Peek
      ensures model == Iterate(sink.ticks, rx.hal.env, old(model), n)
      ensures IsTurn(sink.ticks, rx.hal.env, old(model), n)
      ensures TurnDoes(sink.ticks, rx.hal.env, old(model), model)
    {
      hide Iterate, RxPoll.Poll, RxPoll.Returns, RxPoll.Call, Burst.Step, Burst.Emits, DeliverAll, DecodeRaw, TurnDoes,
        RingBuf.Stored, RingBuf.RingBuf.Contents, Burst.Assembler.View, EventSink.View;
      ghost var env, start := rx.hal.env, model;
      OneMore(sink.ticks, env, start, 0);
      var raw := rx.hal.ReadDataRaw();
      model := Advance(sink.ticks, env, model);
      rx.model := RxLocal(model);
      n := 1;
      if raw == 0 {
        TurnIs(sink.ticks, env, start, n);
        return;
      }
      n := Receive(start, n);
      n := DrainRing(start, n);
      TurnIs(sink.ticks, env, start, n);
    }

    /** Complete exactly one handshake. */
    method Receive(ghost start: Local, ghost n0: nat) returns (ghost n: nat)
      requires Valid() && model.main.pc == Handshake && model.main.rx.pc == RxPoll.Entry
      requires model == Iterate(sink.ticks, rx.hal.env, start, n0)
      requires RxPoll.Returns(rx.hal.env, RxLocal(model))
      modifies this, rx, rx.hal, rb`head, rb.buf
      ensures Valid() && model.main.pc == Drain
      ensures model == Iterate(sink.ticks, rx.hal.env, start, n)
      ensures n > n0 && forall j :: n0 <= j < n ==> Iterate(sink.ticks, rx.hal.env, start, j).main.pc == Handshake
    {
      hide Iterate, RxPoll.Poll, RxPoll.Call, RxPoll.Iterate, Burst.Step, Burst.Emits, DeliverAll, DecodeRaw,
        RingBuf.Stored, RingBuf.RingBuf.Contents, Burst.Assembler.View;
      ghost var env, called, r := rx.hal.env, model, rx.model;
      ghost var m: nat :| RxPoll.IsDone(RxPoll.Iterate(env, RxPoll.Begin(r), m));
      ghost var k := CallIsRun(sink.ticks, env, called, r, m);
      RxPoll.CallIs(env, r, k);
      IterateAdd(sink.ticks, env, start, n0, k);
      OneMore(sink.ticks, env, start, n0 + k);
      forall j | n0 <= j < n0 + k + 1 ensures Iterate(sink.ticks, env, start, j).main.pc == Handshake {
        IterateAdd(sink.ticks, env, start, n0, j - n0);
      }
      var _ := rx.Step();
      model := WithRx(called, rx.model);
      model := Advance(sink.ticks, env, model);
      n := n0 + k + 1;
    }

    /** Drain raw words through the decoder and the assembler to the sink. */
    method DrainRing(ghost start: Local, ghost n0: nat) returns (ghost n: nat)
      requires Valid() && model.main.pc == Drain
      requires model == Iterate(sink.ticks, rx.hal.env, start, n0)
      modifies this, rx, rb`tail, burst, burst.cols, Footprint(sink)
      ensures Valid() && model.main.pc == Peek
      ensures model == Iterate(sink.ticks, rx.hal.env, start, n)
      ensures n > n0 && forall j :: n0 <= j < n ==> Iterate(sink.ticks, rx.hal.env, start, j).main.pc == Drain
    {
      hide *;
      n := n0;
      var more := true;
      while more
        invariant n >= n0 && (more || n > n0)
        invariant forall j :: n0 <= j < n ==> Iterate(sink.ticks, rx.hal.env, start, j).main.pc == Drain
        invariant Valid() && model.main.pc == if more then Drain else Peek
        invariant model == Iterate(sink.ticks, rx.hal.env, start, n)
        decreases more, |model.main.rx.ring|
      {
        OneMore(sink.ticks, rx.hal.env, start, n);
        more := PopAndFeed();
        n := n + 1;
      }
    }

    /** One pop; if it gave a word, decode and feed it. */
    method PopAndFeed() returns (more: bool)
      requires Valid() && model.main.pc == Drain
      modifies this`model, rx`model, rb`tail, burst, burst.cols, Footprint(sink)
      ensures Valid()
      ensures model == Advance(sink.ticks, rx.hal.env, old(model))
      ensures more ==> model.main.pc == Drain && |model.main.rx.ring| < |old(model).main.rx.ring|
      ensures !more ==> model.main.pc == Peek
    {
      hide Burst.Step, Burst.Emits, DeliverAll, DecodeRaw, RingBuf.Stored, RingBuf.RingBuf.Contents,
        Burst.Assembler.View, EventSink.View;
      model := Advance(sink.ticks, rx.hal.env, model);
      var ok, raw := rb.Pop();
      if !ok {
        return false;
      }
      rx.model := RxLocal(model);
      var dec := Decoder(raw);
      var _ := burst.Feed(dec, sink);
      return true;
    }

    method Decoder(raw: U32) returns (dec: Decoded)
      ensures dec == DecodeRaw(raw)
    {
      dec := DecodeWord(GROUPS, INDEX_BITS, raw);
    }
  }
}
