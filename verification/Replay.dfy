/** The host's virtual receiver (host/aer_rx_replay.c): words latched at ACK rises of a waveform,
    through an optional fault injector, into the codec and the burst assembler. */
module Replay {
  import opened Words
  import opened Codec
  import opened Waveform
  import opened UsbStream
  import opened Framing
  import Burst

  // ---------------- Fault injectors ----------------

  /** What a fault function makes of a sample: go on or abort, the levels to use, its own new state. */
  datatype Reply = Reply(go: bool, data: U32, ack: bool, memory: nat)

  /** The three injectors of the file, and any a user writes, its state coded as a number. */
  datatype Fault = NoFault
                 | Glitch(start: U64, end: U64, xorMask: U32)
                 | StuckAck(start: U64, level: bool)
                 | DropNeutral(enabled: bool)
                 | User(react: (Sample, nat) -> Reply, memory: nat)

  /** `xorMask` flipped into 32-bit DATA. */
  function Flip(data: U32, mask: U32): (r: U32) {
    XorBelow32(data, mask);
    Xor(data, mask)
  }

  lemma XorBelow32(a: U32, b: U32)
    ensures Xor(a, b) < TWO32
  {
    assert Pow(16, 8) == TWO32 by {
      assert Pow(16, 2) == 256;
      assert Pow(16, 4) == 16 * (16 * Pow(16, 2));
      assert Pow(16, 6) == 16 * (16 * Pow(16, 4));
    }
    XorBelow(a, b, 8);
  }

  datatype Injected = Injected(go: bool, sample: Sample, lastNonzero: U32, next: Fault)

  /** An injector's effect on one sample; `lastNonzero` is the static it may keep. */
  function Inject(f: Fault, lastNonzero: U32, s: Sample): Injected {
    match f
    case NoFault => Injected(true, s, lastNonzero, f)
    case Glitch(start, end, mask) =>
      Injected(true, if start <= s.t <= end then s.(data := Flip(s.data, mask)) else s, lastNonzero, f)
    case StuckAck(start, level) =>
      Injected(true, if s.t >= start then s.(ack := level) else s, lastNonzero, f)
    case DropNeutral(enabled) =>
      if !enabled then Injected(true, s, lastNonzero, f)
      else if s.data != 0 then Injected(true, s, s.data, f)
      else Injected(true, s.(data := lastNonzero), lastNonzero, f)
    case User(react, memory) =>
      var r := react(s, memory);
      Injected(r.go, s.(data := r.data, ack := r.ack), lastNonzero, f.(memory := r.memory))
  }

  /** The samples an injector lets through, whether it went through all of them, and what it keeps. */
  datatype Passed = Passed(samples: seq<Sample>, whole: bool, lastNonzero: U32, fault: Fault)

  function Pass(f: Fault, lastNonzero: U32, wf: seq<Sample>): Passed
    decreases |wf|
  {
    if wf == [] then Passed([], true, lastNonzero, f)
    else
      var i := Inject(f, lastNonzero, wf[0]);
      if !i.go then Passed([], false, i.lastNonzero, i.next)
      else After([i.sample], Pass(i.next, i.lastNonzero, wf[1..]))
  }

  function After(seen: seq<Sample>, rest: Passed): Passed {
    rest.(samples := seen + rest.samples)
  }

  function Faulted(f: Fault, lastNonzero: U32, wf: seq<Sample>): (r: seq<Sample>) {
    Pass(f, lastNonzero, wf).samples
  }

  // ---------------- The replay engine ----------------

  datatype Cfg = Cfg(latchOnAckRise: bool, ignoreInvalidWords: bool, countNeutralAsError: bool)

  /** 32-bit counters of one run; `burstsCompleted` and `eventsEmitted` are the assembler's. */
  datatype Stats = Stats(samplesSeen: U32, ackRises: U32, wordsLatched: U32,
                         codecOk: U32, codecInvalid: U32, codecNeutral: U32,
                         burstsCompleted: U32, eventsEmitted: U32, protocolIssues: U32)

  /** The words a run latches. */
  function Latched(cfg: Cfg, wf: seq<Sample>): seq<U32> {
    if cfg.latchOnAckRise then WordsAt(Rises(true, wf)) else []
  }

  function CountOk(ws: seq<U32>): nat {
    if ws == [] then 0 else CountOk(ws[..|ws| - 1]) + if DecodeRaw(ws[|ws| - 1]).ok then 1 else 0
  }

  function CountNeutral(ws: seq<U32>): nat {
    if ws == [] then 0
    else CountNeutral(ws[..|ws| - 1]) + if Neutral in DecodeRaw(ws[|ws| - 1]).errs then 1 else 0
  }

  /** The counters for `n` samples seen and words `ws` latched. */
  ghost predicate Counted(cfg: Cfg, st: Stats, n: nat, ws: seq<U32>) {
    && st.samplesSeen == n % TWO32
    && st.ackRises == |ws| % TWO32 && st.wordsLatched == |ws| % TWO32
    && st.codecOk == CountOk(ws) % TWO32
    && st.codecInvalid == (|ws| - CountOk(ws)) % TWO32
    && st.codecNeutral == CountNeutral(ws) % TWO32
    && st.protocolIssues == (if cfg.countNeutralAsError then CountNeutral(ws) else 0) % TWO32
  }

  class Replayer {
    /** The static of the drop-neutral injector: it outlives a run. */
    var lastNonzero: U32

    method ApplyFault(f: Fault, s: Sample) returns (go: bool, r: Sample, next: Fault)
      modifies this
      ensures Injected(go, r, lastNonzero, next) == Inject(f, old(lastNonzero), s)
    {
      go, r, next := true, s, f;
      match f {
        case NoFault =>
        case Glitch(start, end, mask) =>
          if s.t >= start && s.t <= end {
            r := r.(data := Flip(s.data, mask));
          }
        case StuckAck(start, level) =>
          if s.t >= start {
            r := r.(ack := level);
          }
        case DropNeutral(enabled) =>
          if enabled {
            if s.data != 0 {
              lastNonzero := s.data;
            } else if lastNonzero != 0 {
              r := r.(data := lastNonzero);
            }
          }
        case User(react, memory) =>
          var reply := react(s, memory);
          go, r, next := reply.go, s.(data := reply.data, ack := reply.ack), f.(memory := reply.memory);
      }
    }

    /** A run emits, and leaves in the assembler, what the assembler makes of the latched words
        after a reset that keeps its counters, whether or not invalid words are skipped. An injector
        may end it early: then it reports no statistics. */
    method Run(wf: seq<Sample>, cfg: Cfg, f: Fault, burst: Burst.Assembler, cb: EventSink?)
      returns (st: Option<Stats>, next: Fault)
      requires burst.Valid() && (cb != null ==> cb.Valid())
      modifies this, burst, burst.cols, Footprint(cb)
      ensures var p := Pass(f, old(lastNonzero), wf);
        var out := if cb == null then None else Some(old(cb.View()));
        && Fed(burst, Burst.Reset(old(burst.View()), false), cb, out, Latched(cfg, p.samples))
        && lastNonzero == p.lastNonzero && next == p.fault && (st.Some? <==> p.whole)
        && (st.Some? ==> Counted(cfg, st.value, |wf|, Latched(cfg, p.samples))
                         && st.value.burstsCompleted == burst.burstsCompleted
                         && st.value.eventsEmitted == burst.eventsEmitted)
    {
      hide Burst.Run, Burst.Events, Burst.DecodeAll, DeliverAll, Rises, Faulted, Pass, Inject,
        Burst.Assembler.View, EventSink.View, WordsAt, CountOk, CountNeutral, Counted, Increment, Fed, Latched;
      ghost var all := Pass(f, lastNonzero, wf);
      ghost var start, out := Burst.Reset(burst.View(), false), if cb == null then None else Some(cb.View());
      ghost var seen: seq<Sample> := [];
      var counts := Stats(0, 0, 0, 0, 0, 0, 0, 0, 0);
      burst.Clear(false);
      NothingYet(cfg, counts, burst, start, cb, out);

      var lastAck, haveLast := false, false;
      next := f;
      for i := 0 to |wf|
        invariant After(seen, Pass(next, lastNonzero, wf[i..])) == all
        invariant haveLast <==> seen != []
        invariant haveLast ==> lastAck == seen[|seen| - 1].ack
        invariant burst.Valid() && (cb != null ==> cb.Valid())
        invariant Counted(cfg, counts, i, Latched(cfg, seen))
        invariant Fed(burst, start, cb, out, Latched(cfg, seen))
      {
        PassOne(next, lastNonzero, wf, i, seen);
        SeenOne(cfg, counts, i, Latched(cfg, seen));
        counts := counts.(samplesSeen := Increment(counts.samplesSeen));
        var go, s;
        go, s, next := ApplyFault(next, wf[i]);
        if !go {
          return None, next;
        }
        LatchedSnoc(cfg, seen, s);
        if haveLast && cfg.latchOnAckRise && !lastAck && s.ack {
          counts := LatchWord(cfg, counts, i + 1, Latched(cfg, seen), s.data, burst, start, cb, out);
        }
        seen := seen + [s];
        lastAck, haveLast := s.ack, true;
      }
      NothingLeft(next, lastNonzero, wf, seen);
      WithTotals(cfg, counts, burst.burstsCompleted, burst.eventsEmitted, |wf|, Latched(cfg, seen));
      counts := counts.(burstsCompleted := burst.burstsCompleted, eventsEmitted := burst.eventsEmitted);
      st := Some(counts);
    }

    method LatchWord(cfg: Cfg, st0: Stats, ghost n: nat, ghost ws: seq<U32>, latched: U32,
                     burst: Burst.Assembler, ghost start: Burst.State, cb: EventSink?, ghost out: Option<Output>)
      returns (st: Stats)
      requires burst.Valid() && (cb != null ==> cb.Valid())
      requires Counted(cfg, st0, n, ws) && Fed(burst, start, cb, out, ws)
      modifies burst, burst.cols, Footprint(cb)
      ensures burst.Valid()
      ensures Counted(cfg, st, n, ws + [latched]) && Fed(burst, start, cb, out, ws + [latched])
    {
      hide Burst.Run, Burst.Events, Burst.DecodeAll, Burst.Step, Burst.Emits, DeliverAll,
        CountOk, CountNeutral, Counted, DecodeRaw, Increment, Burst.Assembler.View, EventSink.View;
      var cr := DecodeWord(GROUPS, INDEX_BITS, latched);
      assert cr == DecodeRaw(latched) by { DecodeRawIs(latched); }
      st := st0.(ackRises := Increment(st0.ackRises), wordsLatched := Increment(st0.wordsLatched));
      if cr.ok {
        st := st.(codecOk := Increment(st.codecOk));
      } else {
        st := st.(codecInvalid := Increment(st.codecInvalid));
      }
      if Neutral in cr.errs {
        st := st.(codecNeutral := Increment(st.codecNeutral));
        if cfg.countNeutralAsError {
          st := st.(protocolIssues := Increment(st.protocolIssues));
        }
      }
      CountedSnoc(cfg, st0, st, n, ws, latched);
      Burst.FeedLast(start, ws, latched);
      if cb != null {
        Burst.DeliverLast(cb.ticks, out.value, start, ws, latched);
        DeliverNothing(cb.ticks, cb.View());
      }
      if !(cfg.ignoreInvalidWords && !cr.ok) {
        var _ := burst.Feed(cr, cb);
      } else {
        Burst.Ignored(burst.View(), cr);
      }
    }
  }

  /** Assembler and callback after words `ws`, from `start` and `out`. */
  ghost predicate Fed(burst: Burst.Assembler, start: Burst.State, cb: EventSink?, out: Option<Output>, ws: seq<U32>)
    reads burst, burst.cols, Footprint(cb)
  {
    && burst.Valid()
    && burst.View() == Burst.Run(start, Burst.DecodeAll(ws))
    && (cb != null ==>
          && cb.Valid() && out.Some?
          && cb.View() == DeliverAll(cb.ticks, out.value, Burst.Events(start, Burst.DecodeAll(ws))))
  }

  /** What the two counts of words count. */
  lemma {:induction false} CountsMean(ws: seq<U32>)
    ensures CountOk(ws) == |OnlyAccepted(ws)|
    ensures CountNeutral(ws) == |Blank(ws)|
  {
    hide DecodeRaw;
    if ws != [] {
      var k := |ws| - 1;
      var w := ws[k];
      CountsMean(ws[..k]);
      assert ws == ws[..k] + [w];
      OnlyAcceptedLast(ws[..k], w);
      BlankLast(ws[..k], w);
      NeutralMeans(w);
    }
  }

  lemma NeutralMeans(w: U32)
    ensures Neutral in DecodeRaw(w).errs <==> w % BUS == 0
  {
    FirmwareSizes();
    hide Decode, Pow;
    FlagsMean(GROUPS, INDEX_BITS, w);
  }

  /** The words without any line of the bus. */
  function Blank(ws: seq<U32>): seq<U32> {
    if ws == [] then [] else (if ws[0] % BUS == 0 then [ws[0]] else []) + Blank(ws[1..])
  }

  lemma {:induction false} BlankLast(ws: seq<U32>, w: U32)
    ensures Blank(ws + [w]) == Blank(ws) + if w % BUS == 0 then [w] else []
  {
    if ws == [] {
      assert [] + [w] == [w] && [w][1..] == [];
    } else {
      assert (ws + [w])[1..] == ws[1..] + [w];
      BlankLast(ws[1..], w);
      Associative(if ws[0] % BUS == 0 then [ws[0]] else [], Blank(ws[1..]), if w % BUS == 0 then [w] else []);
    }
  }

  lemma {:induction false} OnlyAcceptedLast(ws: seq<U32>, w: U32)
    ensures OnlyAccepted(ws + [w]) == OnlyAccepted(ws) + if DecodeRaw(w).ok then [w] else []
  {
    hide DecodeRaw;
    if ws == [] {
      assert [] + [w] == [w] && [w][1..] == [];
    } else {
      assert (ws + [w])[1..] == ws[1..] + [w];
      OnlyAcceptedLast(ws[1..], w);
      var first, last := if DecodeRaw(ws[0]).ok then [ws[0]] else [], if DecodeRaw(w).ok then [w] else [];
      Associative(first, OnlyAccepted(ws[1..]), last);
    }
  }

  lemma DecodeRawIs(raw: nat)
    ensures DecodeRaw(raw) == Decode(GROUPS, INDEX_BITS, raw)
  {
  }

  lemma DeliverNothing(ticks: nat -> U32, o: Output)
    ensures DeliverAll(ticks, o, []) == o
  {
  }

  lemma NothingYet(cfg: Cfg, st: Stats, burst: Burst.Assembler, start: Burst.State, cb: EventSink?, out: Option<Output>)
    requires st == Stats(0, 0, 0, 0, 0, 0, 0, 0, 0)
    requires burst.Valid() && burst.View() == start
    requires cb != null ==> cb.Valid() && out == Some(cb.View())
    ensures Latched(cfg, []) == [] && Counted(cfg, st, 0, []) && Fed(burst, start, cb, out, [])
  {
  }

  lemma WithTotals(cfg: Cfg, st: Stats, b: U32, e: U32, n: nat, ws: seq<U32>)
    requires Counted(cfg, st, n, ws)
    ensures Counted(cfg, st.(burstsCompleted := b, eventsEmitted := e), n, ws)
  {
  }

  lemma PassOne(f: Fault, lastNonzero: U32, wf: seq<Sample>, n: nat, seen: seq<Sample>)
    requires n < |wf|
    ensures var i := Inject(f, lastNonzero, wf[n]);
      After(seen, Pass(f, lastNonzero, wf[n..]))
      == if i.go then After(seen + [i.sample], Pass(i.next, i.lastNonzero, wf[n + 1..]))
         else Passed(seen, false, i.lastNonzero, i.next)
  {
    hide Inject;
    assert wf[n..][0] == wf[n] && wf[n..][1..] == wf[n + 1..];
    var i := Inject(f, lastNonzero, wf[n]);
    var rest := Pass(i.next, i.lastNonzero, wf[n + 1..]).samples;
    assert seen + ([i.sample] + rest) == seen + [i.sample] + rest;
    assert seen + [] == seen;
  }

  lemma NothingLeft(f: Fault, lastNonzero: U32, wf: seq<Sample>, seen: seq<Sample>)
    ensures After(seen, Pass(f, lastNonzero, wf[|wf|..])) == Passed(seen, true, lastNonzero, f)
  {
    assert wf[|wf|..] == [] && seen + [] == seen;
  }

  /** The injectors of the file never abort and keep their parameters. */
  lemma FaultedStep(f: Fault, lastNonzero: U32, wf: seq<Sample>)
    requires wf != [] && !f.User?
    ensures var i := Inject(f, lastNonzero, wf[0]);
      && i.go && i.next == f
      && Faulted(f, lastNonzero, wf) == [i.sample] + Faulted(f, i.lastNonzero, wf[1..])
  {
  }

  lemma NoneFaulted(f: Fault, lastNonzero: U32)
    ensures Faulted(f, lastNonzero, []) == []
  {
  }

  lemma {:induction false} WordsAtAppend(a: seq<Sample>, b: seq<Sample>)
    ensures WordsAt(a + b) == WordsAt(a) + WordsAt(b)
  {
    if a == [] {
      assert a + b == b;
    } else {
      assert (a + b)[1..] == a[1..] + b;
      WordsAtAppend(a[1..], b);
    }
  }

  lemma LatchedSnoc(cfg: Cfg, seen: seq<Sample>, s: Sample)
    ensures var rise := cfg.latchOnAckRise && seen != [] && !seen[|seen| - 1].ack && s.ack;
      Latched(cfg, seen + [s]) == if rise then Latched(cfg, seen) + [s.data] else Latched(cfg, seen)
  {
    RisesAppend(true, seen, [s]);
    OneRise(LastAck(true, seen), s);
    WordsAtAppend(Rises(true, seen), Rises(LastAck(true, seen), [s]));
  }

  lemma OneRise(prev: bool, s: Sample)
    ensures Rises(prev, [s]) == if !prev && s.ack then [s] else []
    ensures WordsAt([s]) == [s.data] && WordsAt([]) == []
  {
    assert [s][1..] == [];
  }

  lemma SeenOne(cfg: Cfg, st: Stats, i: nat, ws: seq<U32>)
    requires Counted(cfg, st, i, ws)
    ensures Counted(cfg, st.(samplesSeen := Increment(st.samplesSeen)), i + 1, ws)
  {
    hide CountOk, CountNeutral, Increment;
    IncrementIs(i);
  }

  lemma CountedSnoc(cfg: Cfg, a: Stats, b: Stats, n: nat, ws: seq<U32>, w: U32)
    requires Counted(cfg, a, n, ws)
    requires var d := DecodeRaw(w);
      && b.samplesSeen == a.samplesSeen
      && b.ackRises == Increment(a.ackRises) && b.wordsLatched == Increment(a.wordsLatched)
      && b.codecOk == (if d.ok then Increment(a.codecOk) else a.codecOk)
      && b.codecInvalid == (if d.ok then a.codecInvalid else Increment(a.codecInvalid))
      && b.codecNeutral == (if Neutral in d.errs then Increment(a.codecNeutral) else a.codecNeutral)
      && b.protocolIssues == (if Neutral in d.errs && cfg.countNeutralAsError then Increment(a.protocolIssues)
                              else a.protocolIssues)
    ensures Counted(cfg, b, n, ws + [w])
  {
    hide DecodeRaw, Increment;
    assert (ws + [w])[..|ws|] == ws;
    OkBound(ws);
    IncrementIs(|ws|);
    IncrementIs(CountOk(ws));
    IncrementIs(|ws| - CountOk(ws));
    IncrementIs(CountNeutral(ws));
    IncrementIs(if cfg.countNeutralAsError then CountNeutral(ws) else 0);
  }

  lemma {:induction false} OkBound(ws: seq<U32>)
    ensures CountOk(ws) <= |ws|
  {
    hide DecodeRaw;
    if ws != [] {
      OkBound(ws[..|ws| - 1]);
    }
  }

  // ---------------- Fault-free replay ----------------

  lemma {:induction false} NoFaultChangesNothing(lastNonzero: U32, wf: seq<Sample>)
    ensures Faulted(NoFault, lastNonzero, wf) == wf
  {
    if wf != [] {
      FaultedStep(NoFault, lastNonzero, wf);
      NoFaultChangesNothing(lastNonzero, wf[1..]);
    }
  }

  /** The words latched from a generated waveform are those emitted that have an ACK rise. */
  lemma LatchesWhatWasEmitted(cfg: Cfg, c: TxCfg, t0: U64, words: seq<U32>, lastNonzero: U32)
    requires t0 + |words| * Period(c) < TWO64
    ensures Latched(cfg, Faulted(NoFault, lastNonzero, EmitAll(c, Start(c, t0), words).tx.wf))
            == if cfg.latchOnAckRise then LatchedOf(c, words) else []
  {
    hide *;
    RoundTrip(c, t0, words);
    var wf := EmitAll(c, Start(c, t0), words).tx.wf;
    NoFaultChangesNothing(lastNonzero, wf);
    LatchedIs(cfg, wf);
  }

  /** Delay insensitivity: the words latched do not depend on any delay setting, start time or neutral
      word; with something to latch, they depend on the ACK level at the start and on nothing else. */
  lemma DelayInsensitive(cfg: Cfg, c1: TxCfg, c2: TxCfg, t1: U64, t2: U64, words: seq<U32>, lastNonzero: U32)
    requires t1 + |words| * Period(c1) < TWO64 && t2 + |words| * Period(c2) < TWO64
    ensures var wf1, wf2 := EmitAll(c1, Start(c1, t1), words).tx.wf, EmitAll(c2, Start(c2, t2), words).tx.wf;
      Latched(cfg, Faulted(NoFault, lastNonzero, wf1)) == Latched(cfg, Faulted(NoFault, lastNonzero, wf2))
      <==> !cfg.latchOnAckRise || words == [] || c1.initialAck == c2.initialAck
  {
    hide *;
    LatchesWhatWasEmitted(cfg, c1, t1, words, lastNonzero);
    LatchesWhatWasEmitted(cfg, c2, t2, words, lastNonzero);
    LatchedLength(c1, words);
    LatchedLength(c2, words);
  }

  lemma LatchedLength(c: TxCfg, words: seq<U32>)
    ensures |LatchedOf(c, words)| == |words| - (if c.initialAck && words != [] then 1 else 0)
    ensures LatchedOf(c, words) == if c.initialAck && words != [] then words[1..] else words
  {
  }

  lemma LatchedIs(cfg: Cfg, wf: seq<Sample>)
    ensures Latched(cfg, wf) == if cfg.latchOnAckRise then WordsAt(Rises(true, wf)) else []
  {
  }

  function OnlyAccepted(ws: seq<U32>): seq<U32> {
    if ws == [] then [] else (if DecodeRaw(ws[0]).ok then [ws[0]] else []) + OnlyAccepted(ws[1..])
  }

  /** Skipping invalid words before the assembler, or leaving it to ignore them, is the same. */
  lemma {:induction false} RejectedWordsDoNotMatter(b: Burst.State, ws: seq<U32>)
    ensures var all, some := Burst.DecodeAll(ws), Burst.DecodeAll(OnlyAccepted(ws));
      Burst.Run(b, all) == Burst.Run(b, some) && Burst.Events(b, all) == Burst.Events(b, some)
    decreases |ws|
  {
    hide Burst.Run, Burst.Events, Burst.DecodeAll, Burst.Step, Burst.Emits, DecodeRaw;
    if ws != [] {
      var w, rest, d := ws[0], ws[1..], DecodeRaw(ws[0]);
      assert ws == [w] + rest;
      FeedFirst(b, w, rest);
      if d.ok {
        RejectedWordsDoNotMatter(Burst.Step(b, d), rest);
        FeedFirst(b, w, OnlyAccepted(rest));
      } else {
        RejectedWordsDoNotMatter(b, rest);
        Burst.Ignored(b, d);
        assert OnlyAccepted(ws) == OnlyAccepted(rest);
      }
    }
  }

  lemma FeedFirst(b: Burst.State, w: U32, rest: seq<U32>)
    ensures var b1 := Burst.Step(b, DecodeRaw(w));
      && Burst.Run(b, Burst.DecodeAll([w] + rest)) == Burst.Run(b1, Burst.DecodeAll(rest))
      && Burst.Events(b, Burst.DecodeAll([w] + rest))
         == Burst.Emits(b, DecodeRaw(w)) + Burst.Events(b1, Burst.DecodeAll(rest))
  {
    hide Burst.Run, Burst.Events, Burst.DecodeAll, Burst.Step, Burst.Emits, DecodeRaw;
    Burst.DecodeAllAppend([w], rest);
    Burst.DecodeOne(w);
    Burst.RunAppend(b, [DecodeRaw(w)], Burst.DecodeAll(rest));
    Burst.RunOne(b, DecodeRaw(w));
  }

  /** Dropping repeated samples, as the generator does, changes nothing that replay latches. */
  function PushAll(kept: seq<Sample>, wf: seq<Sample>): seq<Sample>
    decreases |wf|
  {
    if wf == [] then kept else PushAll(Push(kept, wf[0].t, wf[0].data, wf[0].ack).wf, wf[1..])
  }

  ghost predicate TimeOrdered(wf: seq<Sample>) {
    forall i, j :: 0 <= i <= j < |wf| ==> wf[i].t <= wf[j].t
  }

  lemma {:induction false} RepeatsDoNotMatter(kept: seq<Sample>, wf: seq<Sample>)
    requires TimeOrdered(wf)
    requires kept != [] && wf != [] ==> kept[|kept| - 1].t <= wf[0].t
    ensures WordsAt(Rises(true, PushAll(kept, wf)))
            == WordsAt(Rises(true, kept)) + WordsAt(Rises(LastAck(true, kept), wf))
    decreases |wf|
  {
    hide WordsAt, Rises, TimeOrdered, Push;
    if wf == [] {
      NoRises(LastAck(true, kept));
      assert WordsAt(Rises(true, kept)) + [] == WordsAt(Rises(true, kept));
    } else {
      var s, rest := wf[0], wf[1..];
      var p := Push(kept, s.t, s.data, s.ack);
      LaterIsOrdered(wf);
      if rest != [] {
        FirstTwoOrdered(wf);
      }
      PushKeepsRises(kept, s);
      RisesStep(LastAck(true, kept), s, rest);
      assert [s] + rest == wf;
      WordsAtAppend([s], Rises(s.ack, rest));
      OneRise(false, s);
      RepeatsDoNotMatter(p.wf, rest);
    }
  }

  lemma FirstTwoOrdered(wf: seq<Sample>)
    requires TimeOrdered(wf) && |wf| > 1
    ensures wf[0].t <= wf[1].t
  {
  }

  lemma PushKeepsRises(kept: seq<Sample>, s: Sample)
    requires kept != [] ==> kept[|kept| - 1].t <= s.t
    ensures var p := Push(kept, s.t, s.data, s.ack).wf;
      && p != [] && p[|p| - 1].t <= s.t && LastAck(true, p) == s.ack
      && WordsAt(Rises(true, p)) == WordsAt(Rises(true, kept)) + if !LastAck(true, kept) && s.ack then [s.data] else []
  {
    hide Rises, WordsAt;
    RisesAppend(true, kept, [s]);
    OneRise(LastAck(true, kept), s);
    WordsAtAppend(Rises(true, kept), Rises(LastAck(true, kept), [s]));
  }

  lemma NoRises(prev: bool)
    ensures Rises(prev, []) == [] && WordsAt([]) == []
  {
  }

  // ---------------- Glitches ----------------

  predicate InWindow(start: U64, end: U64, s: Sample) {
    start <= s.t <= end
  }

  function Outside(start: U64, end: U64, rises: seq<Sample>): seq<Sample> {
    if rises == [] then []
    else (if InWindow(start, end, rises[0]) then [] else [rises[0]]) + Outside(start, end, rises[1..])
  }

  function Hit(start: U64, end: U64, mask: U32, rises: seq<Sample>): seq<Sample> {
    if rises == [] then []
    else
      [if InWindow(start, end, rises[0]) then rises[0].(data := Flip(rises[0].data, mask)) else rises[0]]
      + Hit(start, end, mask, rises[1..])
  }

  /** A glitch touches DATA only, so the ACK rises stay where they were. */
  lemma {:induction false} GlitchKeepsRises(start: U64, end: U64, mask: U32, lastNonzero: U32, prev: bool,
                                            wf: seq<Sample>)
    ensures Rises(prev, Faulted(Glitch(start, end, mask), lastNonzero, wf)) == Hit(start, end, mask, Rises(prev, wf))
    decreases |wf|
  {
    hide Flip, Faulted;
    var f := Glitch(start, end, mask);
    if wf == [] {
      NoneFaulted(f, lastNonzero);
    } else {
      var i := Inject(f, lastNonzero, wf[0]);
      GlitchKeepsRises(start, end, mask, i.lastNonzero, wf[0].ack, wf[1..]);
      var later, rest := Faulted(f, i.lastNonzero, wf[1..]), Rises(wf[0].ack, wf[1..]);
      FaultedStep(f, lastNonzero, wf);
      RisesStep(prev, i.sample, later);
      RisesStep(prev, wf[0], wf[1..]);
      assert [wf[0]] + wf[1..] == wf;
      if !prev && wf[0].ack {
        assert ([wf[0]] + rest)[1..] == rest;
        assert Hit(start, end, mask, [wf[0]] + rest) == [i.sample] + Hit(start, end, mask, rest);
      }
    }
  }

  lemma RisesStep(prev: bool, s: Sample, rest: seq<Sample>)
    ensures Rises(prev, [s] + rest) == if !prev && s.ack then [s] + Rises(s.ack, rest) else Rises(s.ack, rest)
  {
    assert ([s] + rest)[1..] == rest;
  }

  ghost predicate ValidRises(rises: seq<Sample>) {
    forall i :: 0 <= i < |rises| ==> rises[i].data < BUS && DecodeRaw(rises[i].data).ok
  }

  lemma {:induction false} HitWordsAreRejected(start: U64, end: U64, mask: U32, rises: seq<Sample>)
    requires ValidRises(rises) && mask < BUS && Pop(mask) % 2 == 1
    ensures OnlyAccepted(WordsAt(Hit(start, end, mask, rises))) == WordsAt(Outside(start, end, rises))
  {
    hide DecodeRaw, Pop, Xor;
    if rises != [] {
      var s := rises[0];
      HitWordsAreRejected(start, end, mask, rises[1..]);
      FirstIsHit(start, end, mask, rises);
      WordsAtAppend(if InWindow(start, end, s) then [] else [s], Outside(start, end, rises[1..]));
      OneRise(false, s);
      if InWindow(start, end, s) {
        FirmwareSizes();
        DecodeRawIs(s.data);
        OddFlipIsRejected(GROUPS, INDEX_BITS, s.data, mask);
        DecodeRawIs(Flip(s.data, mask));
      }
    }
  }

  lemma FirstIsHit(start: U64, end: U64, mask: U32, rises: seq<Sample>)
    requires rises != []
    ensures var w := if InWindow(start, end, rises[0]) then Flip(rises[0].data, mask) else rises[0].data;
      OnlyAccepted(WordsAt(Hit(start, end, mask, rises)))
      == (if DecodeRaw(w).ok then [w] else []) + OnlyAccepted(WordsAt(Hit(start, end, mask, rises[1..])))
  {
    hide DecodeRaw, Flip;
    var h := Hit(start, end, mask, rises);
    assert h[1..] == Hit(start, end, mask, rises[1..]);
    var ws := WordsAt(h);
    assert ws[1..] == WordsAt(h[1..]);
  }

  /** On a waveform of valid words, flipping any odd set of bus lines over any time window makes
      replay do exactly what the assembler does on the words latched outside the window. */
  lemma GlitchDeletesTheWordsItHits(b: Burst.State, start: U64, end: U64, mask: U32, lastNonzero: U32, wf: seq<Sample>)
    requires ValidRises(Rises(true, wf)) && mask < BUS && Pop(mask) % 2 == 1
    ensures var hit := Burst.DecodeAll(WordsAt(Rises(true, Faulted(Glitch(start, end, mask), lastNonzero, wf))));
      var left := Burst.DecodeAll(WordsAt(Outside(start, end, Rises(true, wf))));
      Burst.Events(b, hit) == Burst.Events(b, left) && Burst.Run(b, hit) == Burst.Run(b, left)
  {
    hide *;
    GlitchKeepsRises(start, end, mask, lastNonzero, true, wf);
    HitWordsAreRejected(start, end, mask, Rises(true, wf));
    RejectedWordsDoNotMatter(b, WordsAt(Hit(start, end, mask, Rises(true, wf))));
  }

  /** What a flip does: a line of the result differs from the sample's exactly if it is in the mask, so
      flipping twice restores the sample. */
  lemma FlipIsByLine(data: U32, mask: U32, i: nat)
    ensures (IsHigh(Flip(data, mask), i) != IsHigh(data, i)) <==> IsHigh(mask, i)
    ensures Flip(Flip(data, mask), mask) == data
  {
    hide Xor;
    XorLine(data, mask, i);
    XorTwice(data, mask);
  }

  /** A glitch sample by sample: DATA flipped inside the window, and nothing else. */
  lemma {:induction false} GlitchAt(start: U64, end: U64, mask: U32, lastNonzero: U32, wf: seq<Sample>, i: nat)
    requires i < |wf|
    ensures var g := Faulted(Glitch(start, end, mask), lastNonzero, wf);
      && |g| == |wf| && g[i].t == wf[i].t && g[i].ack == wf[i].ack
      && g[i].data == if start <= wf[i].t <= end then Flip(wf[i].data, mask) else wf[i].data
    decreases |wf|
  {
    hide Flip, Faulted;
    var f := Glitch(start, end, mask);
    FaultedStep(f, lastNonzero, wf);
    if |wf| > 1 {
      GlitchAt(start, end, mask, lastNonzero, wf[1..], if i > 0 then i - 1 else 0);
    } else {
      NoneFaulted(f, lastNonzero);
      assert wf[1..] == [];
    }
  }

  /** The word a hit word is read as: its lines flipped, those on the bus. */
  function ReadAs(w: U32, mask: U32): U32 {
    Flip(w, mask) % BUS
  }

  /** Hit words replaced by what they are read as, if that is valid, and deleted if not. */
  function Replaced(start: U64, end: U64, mask: U32, rises: seq<Sample>): seq<U32> {
    if rises == [] then []
    else
      var w := rises[0].data;
      (if !InWindow(start, end, rises[0]) then [w]
       else if DecodeRaw(ReadAs(w, mask)).ok then [ReadAs(w, mask)] else [])
      + Replaced(start, end, mask, rises[1..])
  }

  /** For any mask, and a valid word: a hit word is accepted exactly if the mask is, on the 12 lines, its
      difference from another valid word (or none), and it is then read as that word. */
  lemma HitIsAcceptedIff(w: U32, mask: U32)
    requires w < BUS && DecodeRaw(w).ok
    ensures DecodeRaw(Flip(w, mask)).ok <==>
            exists v: nat :: v < BUS && DecodeRaw(v).ok && mask % BUS == Xor(w, v)
    ensures forall v: nat :: v < BUS && mask % BUS == Xor(w, v) ==> v == ReadAs(w, mask)
    ensures var d, e := DecodeRaw(Flip(w, mask)), DecodeRaw(ReadAs(w, mask));
      d.ok == e.ok && d.payload == e.payload && d.isTail == e.isTail
  {
    FirmwareSizes();
    hide Xor, Decode, Pow;
    FlipIsAcceptedIff(GROUPS, INDEX_BITS, w, mask);
  }

  /** The glitch theorem for every mask: replay does what the assembler does on the words latched outside
      the window and, inside it, on the words the hit ones are read as. */
  lemma {:induction false} GlitchReplacesTheWordsItHits(b: Burst.State, start: U64, end: U64, mask: U32,
                                                        rises: seq<Sample>)
    requires ValidRises(rises)
    ensures var hit := Burst.DecodeAll(WordsAt(Hit(start, end, mask, rises)));
      var left := Burst.DecodeAll(Replaced(start, end, mask, rises));
      Burst.Events(b, hit) == Burst.Events(b, left) && Burst.Run(b, hit) == Burst.Run(b, left)
    decreases |rises|
  {
    hide Burst.Run, Burst.Events, Burst.DecodeAll, Burst.Step, Burst.Emits, DecodeRaw, Flip, ReadAs;
    if rises != [] {
      var s, rest := rises[0], rises[1..];
      var w := if InWindow(start, end, s) then Flip(s.data, mask) else s.data;
      HitFirst(start, end, mask, rises);
      FeedFirst(b, w, WordsAt(Hit(start, end, mask, rest)));
      if InWindow(start, end, s) {
        HitIsAcceptedIff(s.data, mask);
        var v := ReadAs(s.data, mask);
        SameToAssembler(b, DecodeRaw(w), DecodeRaw(v));
        if DecodeRaw(v).ok {
          GlitchReplacesTheWordsItHits(Burst.Step(b, DecodeRaw(w)), start, end, mask, rest);
          FeedFirst(b, v, Replaced(start, end, mask, rest));
        } else {
          Burst.Ignored(b, DecodeRaw(w));
          GlitchReplacesTheWordsItHits(b, start, end, mask, rest);
          assert [] + Replaced(start, end, mask, rest) == Replaced(start, end, mask, rest);
        }
      } else {
        GlitchReplacesTheWordsItHits(Burst.Step(b, DecodeRaw(w)), start, end, mask, rest);
        FeedFirst(b, w, Replaced(start, end, mask, rest));
      }
    }
  }

  lemma HitFirst(start: U64, end: U64, mask: U32, rises: seq<Sample>)
    requires rises != []
    ensures var w := if InWindow(start, end, rises[0]) then Flip(rises[0].data, mask) else rises[0].data;
      WordsAt(Hit(start, end, mask, rises)) == [w] + WordsAt(Hit(start, end, mask, rises[1..]))
  {
    hide Flip;
    var h := Hit(start, end, mask, rises);
    assert h[1..] == Hit(start, end, mask, rises[1..]);
  }

  lemma SameToAssembler(b: Burst.State, d: Decoded, e: Decoded)
    requires d.ok == e.ok && d.payload == e.payload && d.isTail == e.isTail
    ensures Burst.Step(b, d) == Burst.Step(b, e) && Burst.Emits(b, d) == Burst.Emits(b, e)
  {
  }

  lemma {:induction false} GeneratedRisesAreValid(cfg: TxCfg, t0: nat, words: seq<U32>)
    requires t0 + |words| * Period(cfg) < TWO64
    requires forall i :: 0 <= i < |words| ==> words[i] < BUS && DecodeRaw(words[i]).ok
    ensures ValidRises(ExpectedRises(cfg, t0, words))
    decreases |words|
  {
    hide DecodeRaw;
    if words != [] {
      MorePeriods(|words|, Period(cfg));
      GeneratedRisesAreValid(cfg, t0 + Period(cfg), words[1..]);
    }
  }

  /** The same on what the transmitter model generates, where each word is latched at a known time
      and deleted exactly when that is in the window. */
  lemma GlitchOnGenerated(b: Burst.State, cfg: TxCfg, t0: U64, words: seq<U32>,
                          start: U64, end: U64, mask: U32, lastNonzero: U32)
    requires t0 + |words| * Period(cfg) < TWO64
    requires forall i :: 0 <= i < |words| ==> words[i] < BUS && DecodeRaw(words[i]).ok
    requires mask < BUS && Pop(mask) % 2 == 1
    ensures var wf := EmitAll(cfg, Start(cfg, t0), words).tx.wf;
      var hit := WordsAt(Rises(true, Faulted(Glitch(start, end, mask), lastNonzero, wf)));
      Burst.Events(b, Burst.DecodeAll(hit))
      == Burst.Events(b, Burst.DecodeAll(WordsAt(Outside(start, end, GeneratedRises(cfg, t0, words)))))
  {
    hide *;
    RisesOfGenerated(cfg, t0, words);
    ValidWhereLatched(cfg, t0, words);
    GlitchDeletesTheWordsItHits(b, start, end, mask, lastNonzero, EmitAll(cfg, Start(cfg, t0), words).tx.wf);
  }

  lemma ValidWhereLatched(cfg: TxCfg, t0: nat, words: seq<U32>)
    requires t0 + |words| * Period(cfg) < TWO64
    requires forall i :: 0 <= i < |words| ==> words[i] < BUS && DecodeRaw(words[i]).ok
    ensures ValidRises(GeneratedRises(cfg, t0, words))
  {
    hide DecodeRaw, ValidRises, ExpectedRises;
    if cfg.initialAck && words != [] {
      MorePeriods(|words|, Period(cfg));
      GeneratedRisesAreValid(cfg, t0 + Period(cfg), words[1..]);
    } else {
      GeneratedRisesAreValid(cfg, t0, words);
    }
  }

  // ---------------- Stuck ACK, missing neutral ----------------

  /** Index of the first sample at or after `t`. */
  function FirstAt(t: U64, wf: seq<Sample>): (k: nat)
    ensures k <= |wf|
    decreases |wf|
  {
    if wf == [] || wf[0].t >= t then 0 else 1 + FirstAt(t, wf[1..])
  }

  function AllAck(level: bool, wf: seq<Sample>): (r: seq<Sample>)
    ensures |r| == |wf| && forall i :: 0 <= i < |r| ==> r[i] == wf[i].(ack := level)
  {
    seq(|wf|, i requires 0 <= i < |wf| => wf[i].(ack := level))
  }

  lemma {:induction false} StuckSplits(t: U64, level: bool, lastNonzero: U32, wf: seq<Sample>)
    requires TimeOrdered(wf)
    ensures var k := FirstAt(t, wf);
      Faulted(StuckAck(t, level), lastNonzero, wf) == wf[..k] + AllAck(level, wf[k..])
    decreases |wf|
  {
    hide AllAck, TimeOrdered, Faulted;
    var f := StuckAck(t, level);
    if wf == [] {
      NoneFaulted(f, lastNonzero);
      assert AllAck(level, wf) == [];
    } else if wf[0].t < t {
      var later, k := wf[1..], FirstAt(t, wf[1..]);
      assert TimeOrdered(later) by { LaterIsOrdered(wf); }
      StuckSplits(t, level, lastNonzero, later);
      assert later[k..] == wf[k + 1..];
      assert [wf[0]] + later[..k] == wf[..k + 1];
      assert Faulted(f, lastNonzero, wf) == [wf[0]] + (later[..k] + AllAck(level, later[k..])) by {
        FaultedStep(f, lastNonzero, wf);
      }
    } else {
      StuckNow(t, level, lastNonzero, wf);
      assert wf[..0] == [] && wf[0..] == wf;
    }
  }

  lemma LaterIsOrdered(wf: seq<Sample>)
    requires TimeOrdered(wf) && wf != []
    ensures TimeOrdered(wf[1..])
  {
  }

  lemma StuckNow(t: U64, level: bool, lastNonzero: U32, wf: seq<Sample>)
    requires TimeOrdered(wf) && wf != [] && wf[0].t >= t
    ensures Faulted(StuckAck(t, level), lastNonzero, wf) == AllAck(level, wf)
  {
    hide Faulted, AllAck;
    StuckFrom(t, level, lastNonzero, wf);
  }

  lemma {:induction false} StuckFrom(t: U64, level: bool, lastNonzero: U32, wf: seq<Sample>)
    requires forall i :: 0 <= i < |wf| ==> wf[i].t >= t
    ensures Faulted(StuckAck(t, level), lastNonzero, wf) == AllAck(level, wf)
    decreases |wf|
  {
    hide Faulted;
    if wf == [] {
      NoneFaulted(StuckAck(t, level), lastNonzero);
    } else {
      FaultedStep(StuckAck(t, level), lastNonzero, wf);
      StuckFrom(t, level, lastNonzero, wf[1..]);
      assert [wf[0].(ack := level)] + AllAck(level, wf[1..]) == AllAck(level, wf);
    }
  }

  lemma {:induction false} LowNeverRises(prev: bool, wf: seq<Sample>)
    requires forall i :: 0 <= i < |wf| ==> !wf[i].ack
    ensures Rises(prev, wf) == []
    decreases |wf|
  {
    if wf != [] {
      LowNeverRises(wf[0].ack, wf[1..]);
    }
  }

  /** ACK stuck from `t` on, on any time-ordered waveform: what was latched before stays, and after
      it nothing is latched if ACK is stuck low, and at most the word on the bus at that moment
      if it is stuck high. */
  lemma StuckAckEndsLatching(t: U64, level: bool, lastNonzero: U32, wf: seq<Sample>)
    requires TimeOrdered(wf)
    ensures var k := FirstAt(t, wf);
      Rises(true, Faulted(StuckAck(t, level), lastNonzero, wf))
      == Rises(true, wf[..k])
         + if level && k < |wf| && !LastAck(true, wf[..k]) then [wf[k].(ack := true)] else []
  {
    var k := FirstAt(t, wf);
    var before, after := wf[..k], AllAck(level, wf[k..]);
    StuckSplits(t, level, lastNonzero, wf);
    RisesAppend(true, before, after);
    if !level {
      LowNeverRises(LastAck(true, before), after);
    } else if after != [] {
      HighNeverRises(after[1..]);
      assert Rises(true, after[1..]) == [];
    }
  }

  /** The last DATA that was not neutral, `before` if there is none. */
  function LastWord(before: U32, wf: seq<Sample>): U32 {
    if wf == [] then before
    else if wf[|wf| - 1].data != 0 then wf[|wf| - 1].data
    else LastWord(before, wf[..|wf| - 1])
  }

  lemma {:induction false} LastWordFirst(before: U32, s: Sample, wf: seq<Sample>)
    ensures LastWord(before, [s] + wf) == LastWord(if s.data != 0 then s.data else before, wf)
  {
    if wf == [] {
      assert [s] + wf == [s] && [s][..0] == [];
    } else {
      assert ([s] + wf)[..|wf|] == [s] + wf[..|wf| - 1];
      LastWordFirst(before, s, wf[..|wf| - 1]);
    }
  }

  /** The third injector sample by sample: DATA is the last word that was not neutral, its own if it is
      not, and nothing else changes; switched off it changes nothing. */
  lemma {:induction false} DropNeutralAt(enabled: bool, lastNonzero: U32, wf: seq<Sample>, i: nat)
    requires i < |wf|
    ensures var g := Faulted(DropNeutral(enabled), lastNonzero, wf);
      && |g| == |wf| && g[i].t == wf[i].t && g[i].ack == wf[i].ack
      && g[i].data == if enabled then LastWord(lastNonzero, wf[..i + 1]) else wf[i].data
    decreases |wf|
  {
    hide Faulted;
    var f := DropNeutral(enabled);
    FaultedStep(f, lastNonzero, wf);
    var next := Inject(f, lastNonzero, wf[0]).lastNonzero;
    LastWordFirst(lastNonzero, wf[0], wf[1..][..i]);
    assert wf[..i + 1] == [wf[0]] + wf[1..][..i];
    if |wf| > 1 {
      DropNeutralAt(enabled, next, wf[1..], if i > 0 then i - 1 else 0);
      assert i > 0 ==> wf[1..][..i - 1 + 1] == wf[1..][..i];
    } else {
      NoneFaulted(f, next);
      assert wf[1..] == [];
    }
  }

  /** The state of a user's injector after it has seen these samples. */
  function MemoryAfter(react: (Sample, nat) -> Reply, memory: nat, wf: seq<Sample>): nat {
    if wf == [] then memory
    else react(wf[|wf| - 1], MemoryAfter(react, memory, wf[..|wf| - 1])).memory
  }

  lemma {:induction false} MemoryFirst(react: (Sample, nat) -> Reply, memory: nat, s: Sample, wf: seq<Sample>)
    ensures MemoryAfter(react, memory, [s] + wf) == MemoryAfter(react, react(s, memory).memory, wf)
  {
    if wf == [] {
      assert [s] + wf == [s] && [s][..0] == [];
    } else {
      assert ([s] + wf)[..|wf|] == [s] + wf[..|wf| - 1];
      MemoryFirst(react, memory, s, wf[..|wf| - 1]);
    }
  }

  /** The answer of a user's injector to sample `i`. */
  function Answer(react: (Sample, nat) -> Reply, memory: nat, wf: seq<Sample>, i: nat): Reply
    requires i < |wf|
  {
    react(wf[i], MemoryAfter(react, memory, wf[..i]))
  }

  /** A user's injector sample by sample: the samples let through are those before its first refusal, with
      the levels it answered and their own times. */
  lemma {:induction false} UserAt(react: (Sample, nat) -> Reply, memory: nat, lastNonzero: U32, wf: seq<Sample>)
    ensures var p := Pass(User(react, memory), lastNonzero, wf);
      && |p.samples| <= |wf| && (p.whole <==> |p.samples| == |wf|) && p.lastNonzero == lastNonzero
      && (forall i :: 0 <= i < |p.samples| ==>
            var a := Answer(react, memory, wf, i);
            a.go && p.samples[i] == Sample(wf[i].t, a.data, a.ack))
      && (|p.samples| < |wf| ==> !Answer(react, memory, wf, |p.samples|).go)
    decreases |wf|
  {
    hide Answer;
    if wf != [] {
      var r := react(wf[0], memory);
      FirstAnswer(react, memory, wf);
      if r.go {
        UserAt(react, r.memory, lastNonzero, wf[1..]);
        forall i | 0 < i < |wf| ensures Answer(react, memory, wf, i) == Answer(react, r.memory, wf[1..], i - 1) {
          LaterAnswer(react, memory, wf, i);
        }
        var p, q := Pass(User(react, memory), lastNonzero, wf), Pass(User(react, r.memory), lastNonzero, wf[1..]);
        assert p == After([Sample(wf[0].t, r.data, r.ack)], q);
        forall i | 0 <= i < |p.samples|
          ensures var a := Answer(react, memory, wf, i); a.go && p.samples[i] == Sample(wf[i].t, a.data, a.ack)
        {
          assert i > 0 ==> p.samples[i] == q.samples[i - 1] && wf[i] == wf[1..][i - 1];
        }
      }
    }
  }

  lemma FirstAnswer(react: (Sample, nat) -> Reply, memory: nat, wf: seq<Sample>)
    requires wf != []
    ensures Answer(react, memory, wf, 0) == react(wf[0], memory)
  {
    assert wf[..0] == [];
  }

  lemma LaterAnswer(react: (Sample, nat) -> Reply, memory: nat, wf: seq<Sample>, i: nat)
    requires 0 < i < |wf|
    ensures Answer(react, memory, wf, i) == Answer(react, react(wf[0], memory).memory, wf[1..], i - 1)
  {
    assert wf[..i] == [wf[0]] + wf[1..][..i - 1];
    MemoryFirst(react, memory, wf[0], wf[1..][..i - 1]);
  }

  /** Some word is latched neutral after a non-neutral sample (or with one left from an earlier run). */
  predicate LatchesLateNeutral(lastNonzero: U32, prev: bool, wf: seq<Sample>)
    decreases |wf|
  {
    wf != [] &&
    ((!prev && wf[0].ack && wf[0].data == 0 && lastNonzero != 0)
     || LatchesLateNeutral(if wf[0].data != 0 then wf[0].data else lastNonzero, wf[0].ack, wf[1..]))
  }

  /** Neutral replaced by the last word changes what is latched exactly when a neutral word was
      latched after some other; in particular it changes nothing if no word is latched neutral. */
  lemma {:induction false} MissingNeutralIsHarmless(lastNonzero: U32, prev: bool, wf: seq<Sample>)
    ensures Rises(prev, Faulted(DropNeutral(true), lastNonzero, wf)) == Rises(prev, wf)
            <==> !LatchesLateNeutral(lastNonzero, prev, wf)
    ensures 0 !in WordsAt(Rises(prev, wf)) ==> !LatchesLateNeutral(lastNonzero, prev, wf)
    decreases |wf|
  {
    hide Faulted;
    var f := DropNeutral(true);
    if wf == [] {
      NoneFaulted(f, lastNonzero);
    } else {
      var i := Inject(f, lastNonzero, wf[0]);
      var s, later, rest := i.sample, Faulted(f, i.lastNonzero, wf[1..]), Rises(wf[0].ack, wf[1..]);
      MissingNeutralIsHarmless(i.lastNonzero, wf[0].ack, wf[1..]);
      hide Rises, LatchesLateNeutral, WordsAt;
      FaultedStep(f, lastNonzero, wf);
      LateNeutralStep(lastNonzero, prev, wf);
      assert [wf[0]] + wf[1..] == wf;
      RisesStep(prev, s, later);
      RisesStep(prev, wf[0], wf[1..]);
      WordsAtAppend([wf[0]], rest);
      OneRise(false, wf[0]);
      if !prev && wf[0].ack {
        SameTail(s, Rises(wf[0].ack, later), wf[0], rest);
      }
    }
  }

  lemma LateNeutralStep(lastNonzero: U32, prev: bool, wf: seq<Sample>)
    requires wf != []
    ensures LatchesLateNeutral(lastNonzero, prev, wf) <==>
            (!prev && wf[0].ack && wf[0].data == 0 && lastNonzero != 0)
            || LatchesLateNeutral(if wf[0].data != 0 then wf[0].data else lastNonzero, wf[0].ack, wf[1..])
  {
  }

  lemma SameTail<T>(x: T, xs: seq<T>, y: T, ys: seq<T>)
    ensures [x] + xs == [y] + ys <==> x == y && xs == ys
  {
    if [x] + xs == [y] + ys {
      assert ([x] + xs)[0] == x && ([y] + ys)[0] == y;
      assert ([x] + xs)[1..] == xs && ([y] + ys)[1..] == ys;
    }
  }
}
