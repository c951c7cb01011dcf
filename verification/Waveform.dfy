/** The host's transmitter model (host/aer_tx_model.c): words printed as a waveform that records
    only changes of DATA or ACK. */
module Waveform {
  import opened Words

  datatype Sample = Sample(t: U64, data: U32, ack: bool)

  datatype TxCfg = TxCfg(ackRiseDelay: U32, dataClearDelay: U32, ackFallDelay: U32,
                         neutralWord: U32, initialAck: bool)

  const SIZE_MAX: nat := 0xFFFF_FFFF_FFFF_FFFF

  // ---------------- What is printed ----------------

  /** `uint64_t` addition, wrapping. */
  function WrapAdd(a: U64, b: U32): U64 {
    if a + b < TWO64 then a + b else a + b - TWO64
  }

  datatype Pushed = Pushed(ok: bool, wf: seq<Sample>)

  /** Append a change; no change is no sample, and time never goes back. */
  function Push(wf: seq<Sample>, t: U64, data: U32, ack: bool): (p: Pushed)
    ensures !p.ok ==> p.wf == wf
  {
    if wf != [] && wf[|wf| - 1].data == data && wf[|wf| - 1].ack == ack then Pushed(true, wf)
    else if wf != [] && t < wf[|wf| - 1].t then Pushed(false, wf)
    else Pushed(true, wf + [Sample(t, data, ack)])
  }

  /** The same when there may be no memory for one more sample. */
  function PushIf(room: bool, wf: seq<Sample>, t: U64, data: U32, ack: bool): (p: Pushed)
    ensures !p.ok ==> p.wf == wf
    ensures p.wf == wf || p.wf == Push(wf, t, data, ack).wf
  {
    var p := Push(wf, t, data, ack);
    if room || p.wf == wf then p else Pushed(false, wf)
  }

  datatype Tx = Tx(t: U64, data: U32, ack: bool, wf: seq<Sample>)

  datatype Emitted = Emitted(ok: bool, tx: Tx)

  /** One push of a transaction still going, and the levels it sets. */
  function Change(e: Emitted, room: bool, t: U64, data: U32, ack: bool): Emitted {
    if !e.ok then e
    else
      var p := PushIf(room, e.tx.wf, t, data, ack);
      if !p.ok then Emitted(false, e.tx) else Emitted(true, Tx(e.tx.t, data, ack, p.wf))
  }

  /** One transaction: valid word, ACK high, neutral, ACK low; it stops where a push fails, as it does
      where there is memory for the first `k` pushes only. */
  function EmitWith(cfg: TxCfg, s: Tx, word: U32, k: nat): Emitted {
    var t1 := WrapAdd(s.t, cfg.ackRiseDelay);
    var t2 := WrapAdd(t1, cfg.dataClearDelay);
    var t3 := WrapAdd(t2, cfg.ackFallDelay);
    var e1 := Change(Emitted(true, s), k > 0, s.t, word, s.ack);
    var e2 := Change(e1, k > 1, t1, word, true);
    var e3 := Change(e2, k > 2, t2, cfg.neutralWord, true);
    var e4 := Change(e3, k > 3, t3, cfg.neutralWord, false);
    if e4.ok then Emitted(true, e4.tx.(t := t3)) else e4
  }

  /** With memory enough. */
  function Emit(cfg: TxCfg, s: Tx, word: U32): Emitted {
    EmitWith(cfg, s, word, 4)
  }

  function EmitAll(cfg: TxCfg, s: Tx, words: seq<U32>): Emitted
    decreases |words|
  {
    if words == [] then Emitted(true, s)
    else
      var e := Emit(cfg, s, words[0]);
      if e.ok then EmitAll(cfg, e.tx, words[1..]) else e
  }

  /** The generator just initialised: the initial levels are the first sample, or one more on a
      waveform that has some already. */
  function Begin(cfg: TxCfg, t0: U64, wf: seq<Sample>): Tx {
    Tx(t0, cfg.neutralWord, cfg.initialAck, Push(wf, t0, cfg.neutralWord, cfg.initialAck).wf)
  }

  /** On an empty waveform. */
  function Start(cfg: TxCfg, t0: U64): Tx {
    Tx(t0, cfg.neutralWord, cfg.initialAck, [Sample(t0, cfg.neutralWord, cfg.initialAck)])
  }

  lemma BeginOnEmpty(cfg: TxCfg, t0: U64)
    ensures Begin(cfg, t0, []) == Start(cfg, t0)
  {
  }

  /** On others: one more sample, unless it is no change or its time goes back. */
  lemma BeginOnOthers(cfg: TxCfg, t0: U64, wf: seq<Sample>)
    requires wf != []
    ensures var last, s := wf[|wf| - 1], Begin(cfg, t0, wf);
      && s.t == t0 && s.data == cfg.neutralWord && s.ack == cfg.initialAck
      && s.wf == wf + if (last.data == s.data && last.ack == s.ack) || t0 < last.t then []
                      else [Sample(t0, s.data, s.ack)]
  {
  }

  // ---------------- The C objects refine it ----------------

  /** A growable array of samples; `memory(n)` says whether the n-th reallocation succeeds. */
  class Vector {
    const memory: nat -> bool
    var reallocs: nat
    var samples: array<Sample>
    var len: nat

    ghost predicate Valid()
      reads this
    {
      len <= samples.Length <= SIZE_MAX
    }

    ghost predicate MemoryFails() {
      exists n: nat :: !memory(n)
    }

    ghost function Contents(): seq<Sample>
      requires Valid()
      reads this, samples
    {
      samples[..len]
    }

    constructor (memory: nat -> bool)
      ensures this.memory == memory && Valid() && Contents() == [] && fresh(samples)
    {
      this.memory, reallocs := memory, 0;
      samples, len := new Sample[0], 0;
    }

    method Reserve(needCap: nat) returns (ok: bool)
      requires Valid() && needCap <= SIZE_MAX
      modifies this`samples, this`reallocs
      ensures Valid() && Contents() == old(Contents())
      ensures samples == old(samples) || fresh(samples)
      ensures ok <==> samples.Length >= needCap
      ensures ok <==> old(samples.Length) >= needCap || memory(old(reallocs))
      ensures !ok ==> samples == old(samples)
    {
      if samples.Length >= needCap {
        return true;
      }
      var newCap := if samples.Length == 0 then 64 else samples.Length;
      while newCap < needCap
        invariant samples.Length <= newCap <= SIZE_MAX
        decreases needCap - newCap
      {
        newCap := if newCap < SIZE_MAX / 2 then newCap * 2 else needCap;
        if newCap < needCap {
          newCap := needCap;
        }
      }
      var granted := memory(reallocs);
      reallocs := reallocs + 1;
      if !granted {
        return false;
      }
      var p := new Sample[newCap];
      for i := 0 to len
        invariant samples == old(samples) && len <= samples.Length && samples[..len] == old(Contents())
        invariant forall j :: 0 <= j < i ==> p[j] == samples[j]
      {
        p[i] := samples[i];
      }
      assert p[..len] == samples[..len];
      samples := p;
      return true;
    }

    /** `room` tells whether the push failed for want of memory. */
    method PushTransition(t: U64, data: U32, ack: bool) returns (ok: bool, ghost room: bool)
      requires Valid() && len < SIZE_MAX
      modifies this, samples
      ensures Valid() && len <= old(len) + 1
      ensures samples == old(samples) || fresh(samples)
      ensures Pushed(ok, Contents()) == PushIf(room, old(Contents()), t, data, ack)
      ensures !room ==> !ok && MemoryFails()
    {
      room := true;
      if len > 0 {
        var last := samples[len - 1];
        if last.data == data && last.ack == ack {
          return true, true;
        }
        if t < last.t {
          return false, true;
        }
      }
      var reserved := Reserve(len + 1);
      if !reserved {
        return false, false;
      }
      ghost var before := Contents();
      samples[len] := Sample(t, data, ack);
      len := len + 1;
      assert samples[..len] == before + [Sample(t, data, ack)];
      ok := true;
    }
  }

  class TxModel {
    const cfg: TxCfg
    var t: U64
    var curData: U32
    var curAck: bool
    const out: Vector

    ghost predicate Valid()
      reads this, out
    {
      out.Valid()
    }

    ghost function View(): Tx
      requires Valid()
      reads this, out, out.samples
    {
      Tx(t, curData, curAck, out.Contents())
    }

    /** Appends the initial state, if it is a change; a time that goes back is ignored. */
    constructor (cfg: TxCfg, out: Vector, t0: U64)
      requires out.Valid() && out.len < SIZE_MAX
      modifies out, out.samples
      ensures this.cfg == cfg && this.out == out && Valid()
      ensures View() == Begin(cfg, t0, old(out.Contents()))
              || (out.MemoryFails() && View() == Tx(t0, cfg.neutralWord, cfg.initialAck, old(out.Contents())))
      ensures out.samples == old(out.samples) || fresh(out.samples)
    {
      this.cfg, this.out := cfg, out;
      t, curData, curAck := t0, cfg.neutralWord, cfg.initialAck;
      new;
      var _, _ := out.PushTransition(t0, cfg.neutralWord, cfg.initialAck);
    }

    /** One push, and the current levels if it succeeds. */
    method Place(at: U64, data: U32, ack: bool) returns (ok: bool, ghost room: bool)
      requires Valid() && out.len < SIZE_MAX
      modifies this, out, out.samples
      ensures Valid() && out.len <= old(out.len) + 1
      ensures out.samples == old(out.samples) || fresh(out.samples)
      ensures Emitted(ok, View()) == Change(Emitted(true, old(View())), room, at, data, ack)
      ensures t == old(t) && (ok ==> curData == data && curAck == ack)
      ensures !room ==> !ok && out.MemoryFails()
    {
      hide PushIf;
      ok, room := out.PushTransition(at, data, ack);
      if ok {
        curData, curAck := data, ack;
      }
    }

    /** `k` is the number of pushes there was memory for. */
    method EmitWord(word: U32) returns (ok: bool, ghost k: nat)
      requires Valid() && out.len + 4 <= SIZE_MAX
      modifies this, out, out.samples
      ensures Valid() && out.len <= old(out.len) + 4
      ensures out.samples == old(out.samples) || fresh(out.samples)
      ensures Emitted(ok, View()) == EmitWith(cfg, old(View()), word, k)
      ensures k <= 4 && (k < 4 ==> !ok && out.MemoryFails())
    {
      hide Change, WrapAdd, Vector.Contents, Vector.MemoryFails;
      assert forall e: Emitted, room: bool, at: U64, data: U32, ack: bool ::
          !e.ok ==> Change(e, room, at, data, ack) == e by {
        Stopped();
      }
      k := 4;
      ghost var room;
      ok, room := Place(t, word, curAck);
      if !ok {
        k := if room then 4 else 0;
        return;
      }
      var tAckHi := WrapAdd(t, cfg.ackRiseDelay);
      ok, room := Place(tAckHi, curData, true);
      if !ok {
        k := if room then 4 else 1;
        return;
      }
      var tNeutral := WrapAdd(tAckHi, cfg.dataClearDelay);
      ok, room := Place(tNeutral, cfg.neutralWord, curAck);
      if !ok {
        k := if room then 4 else 2;
        return;
      }
      var tAckLo := WrapAdd(tNeutral, cfg.ackFallDelay);
      ok, room := Place(tAckLo, curData, false);
      if !ok {
        k := if room then 4 else 3;
        return;
      }
      t := tAckLo;
    }

    /** On failure the first `n` words are whole and the next one ends after `k` pushes. */
    method EmitWords(words: seq<U32>) returns (ok: bool, ghost n: nat, ghost k: nat)
      requires Valid() && out.len + 4 * |words| <= SIZE_MAX
      modifies this, out, out.samples
      ensures Valid()
      ensures ok || !out.MemoryFails() ==> Emitted(ok, View()) == EmitAll(cfg, old(View()), words)
      ensures !ok ==>
                && n < |words| && EmitAll(cfg, old(View()), words[..n]).ok && (k < 4 ==> out.MemoryFails())
                && Emitted(false, View()) == EmitWith(cfg, EmitAll(cfg, old(View()), words[..n]).tx, words[n], k)
    {
      hide EmitWith;
      ghost var start := View();
      n, k := 0, 0;
      for i := 0 to |words|
        invariant Valid() && out.len + 4 * (|words| - i) <= SIZE_MAX
        invariant out.samples == old(out.samples) || fresh(out.samples)
        invariant EmitAll(cfg, View(), words[i..]) == EmitAll(cfg, start, words)
        invariant EmitAll(cfg, start, words[..i]) == Emitted(true, View())
      {
        assert words[i..][0] == words[i] && words[i..][1..] == words[i + 1..];
        EmitAllLast(cfg, start, words[..i], words[i]);
        assert words[..i + 1] == words[..i] + [words[i]];
        n := i;
        ok, k := EmitWord(words[i]);
        if !ok {
          return;
        }
      }
      ok := true;
    }
  }

  lemma Stopped()
    ensures forall e: Emitted, room: bool, at: U64, data: U32, ack: bool ::
              !e.ok ==> Change(e, room, at, data, ack) == e
  {
  }

  lemma {:induction false} EmitAllLast(cfg: TxCfg, s: Tx, words: seq<U32>, word: U32)
    requires EmitAll(cfg, s, words).ok
    ensures EmitAll(cfg, s, words + [word]) == Emit(cfg, EmitAll(cfg, s, words).tx, word)
    decreases |words|
  {
    hide Emit;
    if words == [] {
      assert [word][1..] == [] && words + [word] == [word];
    } else {
      assert (words + [word])[1..] == words[1..] + [word];
      EmitAllLast(cfg, Emit(cfg, s, words[0]).tx, words[1..], word);
    }
  }

  lemma ChangeExtends(e: Emitted, f: Emitted, room: bool, t: U64, data: U32, ack: bool)
    requires e.tx.wf <= f.tx.wf && (e.ok ==> e == f)
    ensures var a, b := Change(e, room, t, data, ack), Change(f, true, t, data, ack);
      a.tx.wf <= b.tx.wf && (a.ok ==> a == b) && f.tx.wf <= b.tx.wf
  {
  }

  lemma EmitExtends(cfg: TxCfg, s: Tx, word: U32, k: nat)
    ensures s.wf <= Emit(cfg, s, word).tx.wf && EmitWith(cfg, s, word, k).tx.wf <= Emit(cfg, s, word).tx.wf
    ensures EmitWith(cfg, s, word, k).ok ==> EmitWith(cfg, s, word, k) == Emit(cfg, s, word)
  {
    hide WrapAdd, Change;
    var t1 := WrapAdd(s.t, cfg.ackRiseDelay);
    var t2 := WrapAdd(t1, cfg.dataClearDelay);
    var t3 := WrapAdd(t2, cfg.ackFallDelay);
    var e, f := Emitted(true, s), Emitted(true, s);
    ChangeExtends(e, f, k > 0, s.t, word, s.ack);
    e, f := Change(e, k > 0, s.t, word, s.ack), Change(f, true, s.t, word, s.ack);
    ChangeExtends(e, f, k > 1, t1, word, true);
    e, f := Change(e, k > 1, t1, word, true), Change(f, true, t1, word, true);
    ChangeExtends(e, f, k > 2, t2, cfg.neutralWord, true);
    e, f := Change(e, k > 2, t2, cfg.neutralWord, true), Change(f, true, t2, cfg.neutralWord, true);
    ChangeExtends(e, f, k > 3, t3, cfg.neutralWord, false);
  }

  /** The generator's levels are always those of the last sample; its time moves only when a whole word is
      done. */
  lemma LevelsAreLast(cfg: TxCfg, s: Tx, word: U32, k: nat)
    requires s.wf != [] && s.wf[|s.wf| - 1].data == s.data && s.wf[|s.wf| - 1].ack == s.ack
    ensures var e := EmitWith(cfg, s, word, k);
      && e.tx.wf != [] && e.tx.wf[|e.tx.wf| - 1].data == e.tx.data && e.tx.wf[|e.tx.wf| - 1].ack == e.tx.ack
      && (!e.ok ==> e.tx.t == s.t)
      && (e.ok ==> e.tx.data == cfg.neutralWord && !e.tx.ack)
  {
    hide Change, WrapAdd;
    var t1 := WrapAdd(s.t, cfg.ackRiseDelay);
    var t2 := WrapAdd(t1, cfg.dataClearDelay);
    var t3 := WrapAdd(t2, cfg.ackFallDelay);
    ChangeKeepsLast(Emitted(true, s), k > 0, s.t, word, s.ack);
    var e1 := Change(Emitted(true, s), k > 0, s.t, word, s.ack);
    ChangeKeepsLast(e1, k > 1, t1, word, true);
    var e2 := Change(e1, k > 1, t1, word, true);
    ChangeKeepsLast(e2, k > 2, t2, cfg.neutralWord, true);
    ChangeKeepsLast(Change(e2, k > 2, t2, cfg.neutralWord, true), k > 3, t3, cfg.neutralWord, false);
  }

  lemma ChangeKeepsLast(e: Emitted, room: bool, t: U64, data: U32, ack: bool)
    requires var s := e.tx; s.wf != [] && s.wf[|s.wf| - 1].data == s.data && s.wf[|s.wf| - 1].ack == s.ack
    ensures var c := Change(e, room, t, data, ack);
      && c.tx.wf != [] && c.tx.wf[|c.tx.wf| - 1].data == c.tx.data && c.tx.wf[|c.tx.wf| - 1].ack == c.tx.ack
      && c.tx.t == e.tx.t && (c.ok ==> e.ok && c.tx.data == data && c.tx.ack == ack)
  {
  }

  lemma {:induction false} EmitAllExtends(cfg: TxCfg, s: Tx, words: seq<U32>)
    ensures s.wf <= EmitAll(cfg, s, words).tx.wf
    decreases |words|
  {
    hide Emit, EmitWith;
    if words != [] {
      EmitExtends(cfg, s, words[0], 4);
      EmitAllExtends(cfg, Emit(cfg, s, words[0]).tx, words[1..]);
    }
  }

  /** A waveform cut short for want of memory is the beginning of the whole one. */
  lemma {:induction false} CutShort(cfg: TxCfg, s: Tx, words: seq<U32>, n: nat, k: nat)
    requires n < |words| && EmitAll(cfg, s, words[..n]).ok
    ensures EmitWith(cfg, EmitAll(cfg, s, words[..n]).tx, words[n], k).tx.wf <= EmitAll(cfg, s, words).tx.wf
    decreases n
  {
    hide Emit, EmitWith;
    var e := Emit(cfg, s, words[0]);
    if n == 0 {
      EmitExtends(cfg, s, words[0], k);
      EmitAllExtends(cfg, e.tx, words[1..]);
    } else {
      assert words[..n][1..] == words[1..][..n - 1];
      CutShort(cfg, e.tx, words[1..], n - 1, k);
    }
  }

  // ---------------- The waveform of a list of words ----------------

  /** Ticks one transaction takes. */
  function Period(cfg: TxCfg): nat {
    cfg.ackRiseDelay + cfg.dataClearDelay + cfg.ackFallDelay
  }

  /** What one transaction appends when ACK starts low and time does not wrap. */
  function Cycle(cfg: TxCfg, t: nat, word: U32): seq<Sample>
    requires t + Period(cfg) < TWO64
  {
    var t1 := t + cfg.ackRiseDelay;
    var t2 := t1 + cfg.dataClearDelay;
    (if word == cfg.neutralWord then [] else [Sample(t, word, false)])
    + [Sample(t1, word, true)]
    + (if word == cfg.neutralWord then [] else [Sample(t2, cfg.neutralWord, true)])
    + [Sample(t + Period(cfg), cfg.neutralWord, false)]
  }

  /** The generator between two words: lines neutral, ACK at `ack`, time at the last sample. */
  ghost predicate Between(cfg: TxCfg, s: Tx, ack: bool) {
    && s.data == cfg.neutralWord && s.ack == ack && s.wf != []
    && s.wf[|s.wf| - 1] == Sample(s.t, cfg.neutralWord, ack)
  }

  /** A generator still going whose levels are those of its last sample, made at `t`. */
  ghost predicate Latest(e: Emitted, t: U64) {
    e.ok && e.tx.wf != [] && e.tx.wf[|e.tx.wf| - 1] == Sample(t, e.tx.data, e.tx.ack)
  }

  lemma ChangeIs(e: Emitted, last: U64, t: U64, data: U32, ack: bool)
    requires Latest(e, last)
    ensures var c := Change(e, true, t, data, ack);
      if e.tx.data == data && e.tx.ack == ack then c == e
      else if t < last then c == Emitted(false, e.tx)
      else c == Emitted(true, Tx(e.tx.t, data, ack, e.tx.wf + [Sample(t, data, ack)])) && Latest(c, t)
  {
  }

  lemma WrapAddIs(a: U64, b: U32)
    ensures WrapAdd(a, b) == if a + b < TWO64 then a + b else a + b - TWO64
  {
  }

  /** The four pushes of a transaction. */
  lemma FourChanges(cfg: TxCfg, s: Tx, word: U32)
    ensures var t1 := WrapAdd(s.t, cfg.ackRiseDelay);
      var t2 := WrapAdd(t1, cfg.dataClearDelay);
      var t3 := WrapAdd(t2, cfg.ackFallDelay);
      var e1 := Change(Emitted(true, s), true, s.t, word, s.ack);
      var e2 := Change(e1, true, t1, word, true);
      var e3 := Change(e2, true, t2, cfg.neutralWord, true);
      var e4 := Change(e3, true, t3, cfg.neutralWord, false);
      && Emit(cfg, s, word) == (if e4.ok then Emitted(true, e4.tx.(t := t3)) else e4)
      && (!e2.ok ==> e4 == e2) && (!e3.ok ==> e4 == e3)
  {
    hide WrapAdd;
  }

  /** One transaction succeeds exactly when the clock does not overflow in it. */
  lemma EmitFromLow(cfg: TxCfg, s: Tx, word: U32)
    requires Between(cfg, s, false)
    ensures var e := Emit(cfg, s, word);
      && (e.ok <==> s.t + Period(cfg) < TWO64)
      && (e.ok ==> Between(cfg, e.tx, false) && e.tx.t == s.t + Period(cfg)
                   && e.tx.wf == s.wf + Cycle(cfg, s.t, word))
  {
    hide Change, WrapAdd, Emit;
    var t1 := WrapAdd(s.t, cfg.ackRiseDelay);
    var t2 := WrapAdd(t1, cfg.dataClearDelay);
    var t3 := WrapAdd(t2, cfg.ackFallDelay);
    WrapAddIs(s.t, cfg.ackRiseDelay);
    WrapAddIs(t1, cfg.dataClearDelay);
    WrapAddIs(t2, cfg.ackFallDelay);
    FourChanges(cfg, s, word);
    ChangeIs(Emitted(true, s), s.t, s.t, word, false);
    var e1 := Change(Emitted(true, s), true, s.t, word, false);
    ChangeIs(e1, s.t, t1, word, true);
    var e2 := Change(e1, true, t1, word, true);
    if e2.ok {
      ChangeIs(e2, t1, t2, cfg.neutralWord, true);
      var e3 := Change(e2, true, t2, cfg.neutralWord, true);
      if e3.ok {
        ChangeIs(e3, if word == cfg.neutralWord then t1 else t2, t3, cfg.neutralWord, false);
      }
    }
  }

  /** With ACK high from the start the first transaction has no ACK rise. */
  lemma EmitFromHigh(cfg: TxCfg, s: Tx, word: U32)
    requires Between(cfg, s, true)
    ensures var e := Emit(cfg, s, word);
      && (e.ok <==> s.t + Period(cfg) < TWO64)
      && (e.ok ==> Between(cfg, e.tx, false) && e.tx.t == s.t + Period(cfg)
                   && e.tx.wf == s.wf
                                 + (if word == cfg.neutralWord then []
                                    else [Sample(s.t, word, true),
                                          Sample(s.t + cfg.ackRiseDelay + cfg.dataClearDelay, cfg.neutralWord, true)])
                                 + [Sample(s.t + Period(cfg), cfg.neutralWord, false)])
  {
    hide Change, WrapAdd, Emit;
    var t1 := WrapAdd(s.t, cfg.ackRiseDelay);
    var t2 := WrapAdd(t1, cfg.dataClearDelay);
    var t3 := WrapAdd(t2, cfg.ackFallDelay);
    WrapAddIs(s.t, cfg.ackRiseDelay);
    WrapAddIs(t1, cfg.dataClearDelay);
    WrapAddIs(t2, cfg.ackFallDelay);
    FourChanges(cfg, s, word);
    ChangeIs(Emitted(true, s), s.t, s.t, word, true);
    var e1 := Change(Emitted(true, s), true, s.t, word, true);
    ChangeIs(e1, s.t, t1, word, true);
    ChangeIs(e1, s.t, t2, cfg.neutralWord, true);
    var e3 := Change(e1, true, t2, cfg.neutralWord, true);
    if e3.ok {
      ChangeIs(e3, if word == cfg.neutralWord then s.t else t2, t3, cfg.neutralWord, false);
    }
  }

  /** The samples at which ACK rises, `prev` being its level before. */
  function Rises(prev: bool, wf: seq<Sample>): seq<Sample>
    decreases |wf|
  {
    if wf == [] then []
    else (if !prev && wf[0].ack then [wf[0]] else []) + Rises(wf[0].ack, wf[1..])
  }

  function LastAck(prev: bool, wf: seq<Sample>): bool {
    if wf == [] then prev else wf[|wf| - 1].ack
  }

  lemma {:induction false} RisesAppend(prev: bool, a: seq<Sample>, b: seq<Sample>)
    ensures Rises(prev, a + b) == Rises(prev, a) + Rises(LastAck(prev, a), b)
    decreases |a|
  {
    if a == [] {
      assert a + b == b;
    } else {
      assert (a + b)[1..] == a[1..] + b;
      RisesAppend(a[0].ack, a[1..], b);
    }
  }

  /** Where a receiver latches the words of a waveform started at `t0`, ACK low. */
  function ExpectedRises(cfg: TxCfg, t0: nat, words: seq<U32>): seq<Sample>
    requires t0 + |words| * Period(cfg) < TWO64
    decreases |words|
  {
    if words == [] then []
    else
      OnePeriod(cfg, t0, words);
      [Sample(t0 + cfg.ackRiseDelay, words[0], true)] + ExpectedRises(cfg, t0 + Period(cfg), words[1..])
  }

  lemma OnePeriod(cfg: TxCfg, t0: nat, words: seq<U32>)
    requires words != [] && t0 + |words| * Period(cfg) < TWO64
    ensures t0 + cfg.ackRiseDelay < TWO64
    ensures t0 + Period(cfg) + |words[1..]| * Period(cfg) < TWO64
  {
    var p := Period(cfg);
    assert cfg.ackRiseDelay <= p;
    hide Period;
    MorePeriods(|words|, p);
    NonNegative(|words| - 1, p);
  }

  lemma MorePeriods(n: nat, p: nat)
    requires n > 0
    ensures n * p == p + (n - 1) * p
  {
  }

  lemma CycleRises(cfg: TxCfg, t: nat, word: U32)
    requires t + Period(cfg) < TWO64
    ensures Rises(false, Cycle(cfg, t, word)) == [Sample(t + cfg.ackRiseDelay, word, true)]
    ensures Cycle(cfg, t, word) != [] && !LastAck(false, Cycle(cfg, t, word))
  {
    var c := Cycle(cfg, t, word);
    var up := if word == cfg.neutralWord then 0 else 1;
    RisesAppend(false, c[..up], c[up..]);
    assert c[..up] + c[up..] == c;
    assert Rises(false, c[..up]) == [] by {
      if up == 1 {
        assert c[..1][1..] == [];
      }
    }
    assert Rises(false, c[up..]) == [c[up]] + Rises(true, c[up..][1..]);
    HighNeverRises(c[up..][1..]);
  }

  /** Printing succeeds exactly when the clock does not overflow, and then the ACK rises carry
      exactly the words, in order, each one period after the last. */
  lemma {:induction false} EmitAllFromLow(cfg: TxCfg, s: Tx, words: seq<U32>)
    requires Between(cfg, s, false)
    ensures var e := EmitAll(cfg, s, words);
      && (e.ok <==> s.t + |words| * Period(cfg) < TWO64)
      && (e.ok ==> Between(cfg, e.tx, false)
                   && Rises(true, e.tx.wf) == Rises(true, s.wf) + ExpectedRises(cfg, s.t, words))
    decreases |words|
  {
    hide Emit, Rises, Cycle;
    if words != [] {
      var p := Period(cfg);
      MorePeriods(|words|, p);
      EmitFromLow(cfg, s, words[0]);
      var e := Emit(cfg, s, words[0]);
      if e.ok {
        EmitAllFromLow(cfg, e.tx, words[1..]);
        RisesAppend(true, s.wf, Cycle(cfg, s.t, words[0]));
        CycleRises(cfg, s.t, words[0]);
      } else {
        NonNegative(|words| - 1, p);
      }
    }
  }

  lemma NonNegative(n: nat, p: nat)
    ensures n * p >= 0
  {
  }

  function WordsAt(rises: seq<Sample>): seq<U32> {
    if rises == [] then [] else [rises[0].data] + WordsAt(rises[1..])
  }

  lemma {:induction false} ExpectedWords(cfg: TxCfg, t0: nat, words: seq<U32>)
    requires t0 + |words| * Period(cfg) < TWO64
    ensures WordsAt(ExpectedRises(cfg, t0, words)) == words
    decreases |words|
  {
    if words != [] {
      MorePeriods(|words|, Period(cfg));
      ExpectedWords(cfg, t0 + Period(cfg), words[1..]);
      assert ExpectedRises(cfg, t0, words)[1..] == ExpectedRises(cfg, t0 + Period(cfg), words[1..]);
      assert words == [words[0]] + words[1..];
    }
  }

  /** Where the words of a generated waveform are latched. */
  function GeneratedRises(cfg: TxCfg, t0: nat, words: seq<U32>): seq<Sample>
    requires t0 + |words| * Period(cfg) < TWO64
  {
    if cfg.initialAck && words != [] then
      MorePeriods(|words|, Period(cfg));
      ExpectedRises(cfg, t0 + Period(cfg), words[1..])
    else ExpectedRises(cfg, t0, words)
  }

  /** The words that have an ACK rise: all, or all but the first if ACK is high from the start. */
  function LatchedOf(cfg: TxCfg, words: seq<U32>): seq<U32> {
    if cfg.initialAck && words != [] then words[1..] else words
  }

  /** For every configuration and all words, neutral ones included: generation succeeds exactly when
      the clock does not overflow, and then these are the ACK rises. */
  lemma RisesOfGenerated(cfg: TxCfg, t0: U64, words: seq<U32>)
    ensures var e := EmitAll(cfg, Start(cfg, t0), words);
      && (e.ok <==> t0 + |words| * Period(cfg) < TWO64)
      && (e.ok ==> Rises(true, e.tx.wf) == GeneratedRises(cfg, t0, words))
  {
    hide EmitAll, Emit, Rises, ExpectedRises, Period;
    var s := Start(cfg, t0);
    HighNeverRises(s.wf);
    if words == [] {
      NothingToEmit(cfg, s);
      NoExpectedRises(cfg, t0);
    } else if cfg.initialAck {
      RisesFromHigh(cfg, s, words);
    } else {
      RisesFromLow(cfg, s, words);
    }
  }

  lemma RisesFromLow(cfg: TxCfg, s: Tx, words: seq<U32>)
    requires Between(cfg, s, false) && |s.wf| == 1
    ensures var e := EmitAll(cfg, s, words);
      && (e.ok <==> s.t + |words| * Period(cfg) < TWO64)
      && (e.ok ==> Rises(true, e.tx.wf) == ExpectedRises(cfg, s.t, words))
  {
    hide EmitAll, Emit, Rises, ExpectedRises, Period;
    HighNeverRises(s.wf);
    EmitAllFromLow(cfg, s, words);
    if EmitAll(cfg, s, words).ok {
      NothingFirst(ExpectedRises(cfg, s.t, words));
    }
  }

  lemma NothingFirst<T>(xs: seq<T>)
    ensures [] + xs == xs
  {
  }

  lemma NothingToEmit(cfg: TxCfg, s: Tx)
    ensures EmitAll(cfg, s, []) == Emitted(true, s)
  {
  }

  lemma NoExpectedRises(cfg: TxCfg, t0: U64)
    ensures ExpectedRises(cfg, t0, []) == []
  {
  }

  lemma RisesFromHigh(cfg: TxCfg, s: Tx, words: seq<U32>)
    requires Between(cfg, s, true) && |s.wf| == 1 && words != []
    ensures var e := EmitAll(cfg, s, words);
      && (e.ok <==> s.t + |words| * Period(cfg) < TWO64)
      && (e.ok ==> s.t + Period(cfg) + |words[1..]| * Period(cfg) < TWO64
                   && Rises(true, e.tx.wf) == ExpectedRises(cfg, s.t + Period(cfg), words[1..]))
  {
    hide Emit, Rises, ExpectedRises;
    MorePeriods(|words|, Period(cfg));
    EmitFromHigh(cfg, s, words[0]);
    var e := Emit(cfg, s, words[0]);
    if e.ok {
      FirstWordHasNoRise(cfg, s, words[0]);
      EmitAllFromLow(cfg, e.tx, words[1..]);
      if EmitAll(cfg, e.tx, words[1..]).ok {
        var rises := ExpectedRises(cfg, e.tx.t, words[1..]);
        assert [] + rises == rises;
      }
    } else {
      NonNegative(|words| - 1, Period(cfg));
    }
  }

  /** Round trip: the words at the ACK rises are the words emitted -- all of them if ACK starts low, all
      but the first if it starts high. */
  lemma RoundTrip(cfg: TxCfg, t0: U64, words: seq<U32>)
    ensures var e := EmitAll(cfg, Start(cfg, t0), words);
      && (e.ok <==> t0 + |words| * Period(cfg) < TWO64)
      && (e.ok ==> WordsAt(Rises(true, e.tx.wf)) == LatchedOf(cfg, words))
  {
    RisesOfGenerated(cfg, t0, words);
    hide EmitAll, Rises, ExpectedRises, WordsAt, Start;
    if EmitAll(cfg, Start(cfg, t0), words).ok {
      MorePeriodsIf(words, Period(cfg));
      if cfg.initialAck && words != [] {
        ExpectedWords(cfg, t0 + Period(cfg), words[1..]);
      } else {
        ExpectedWords(cfg, t0, words);
      }
    }
  }

  lemma MorePeriodsIf(words: seq<U32>, p: nat)
    ensures words != [] ==> |words| * p == p + |words[1..]| * p
  {
    if words != [] {
      MorePeriods(|words|, p);
    }
  }

  lemma FirstWordHasNoRise(cfg: TxCfg, s: Tx, word: U32)
    requires Between(cfg, s, true) && |s.wf| == 1 && Emit(cfg, s, word).ok
    ensures Rises(true, Emit(cfg, s, word).tx.wf) == []
  {
    EmitFromHigh(cfg, s, word);
    var wf := Emit(cfg, s, word).tx.wf;
    hide Emit;
    assert forall i :: 0 <= i < |wf| - 1 ==> wf[i].ack;
    HighNeverRises(wf);
  }

  lemma {:induction false} HighNeverRises(wf: seq<Sample>)
    requires forall i :: 0 <= i < |wf| - 1 ==> wf[i].ack
    ensures Rises(true, wf) == []
  {
    if |wf| == 1 {
      assert wf[1..] == [];
    } else if |wf| > 1 {
      assert wf[0].ack;
      HighNeverRises(wf[1..]);
    }
  }

  // ---------------- Shape ----------------

  /** Neighbouring samples: time does not go back and exactly one of DATA and ACK changes. */
  ghost predicate OneChange(a: Sample, b: Sample) {
    a.t <= b.t && (a.data != b.data <==> a.ack == b.ack)
  }

  /** Beyond that: DATA leaves neutral only with ACK low, returns to it only with ACK high, and ACK falls
      only on neutral DATA. */
  ghost predicate FourPhase(neutral: U32, a: Sample, b: Sample) {
    && OneChange(a, b)
    && (a.data != b.data ==> if a.ack then b.data == neutral else a.data == neutral)
    && (a.ack && !b.ack ==> b.data == neutral)
  }

  /** All neighbours are one change apart and, if `phases`, follow the four phases. */
  ghost predicate Shape(phases: bool, neutral: U32, wf: seq<Sample>) {
    forall i :: 0 <= i < |wf| - 1 ==> OneChange(wf[i], wf[i + 1]) && (phases ==> FourPhase(neutral, wf[i], wf[i + 1]))
  }

  lemma ShapeAppend(phases: bool, neutral: U32, a: seq<Sample>, b: seq<Sample>)
    requires a != [] && b != [] && Shape(phases, neutral, b)
    requires FourPhase(neutral, a[|a| - 1], b[0])
    ensures Shape(phases, neutral, a + b) <==> Shape(phases, neutral, a)
  {
    var c := a + b;
    assert c[..|a|] == a;
    if Shape(phases, neutral, a) {
      forall i | 0 <= i < |c| - 1
        ensures OneChange(c[i], c[i + 1]) && (phases ==> FourPhase(neutral, c[i], c[i + 1]))
      {
        if i < |a| - 1 {
          assert c[i] == a[i] && c[i + 1] == a[i + 1];
        } else if i >= |a| {
          assert c[i] == b[i - |a|] && c[i + 1] == b[i - |a| + 1];
        }
      }
    }
    if Shape(phases, neutral, c) {
      forall i | 0 <= i < |a| - 1
        ensures OneChange(a[i], a[i + 1]) && (phases ==> FourPhase(neutral, a[i], a[i + 1]))
      {
        assert c[i] == a[i] && c[i + 1] == a[i + 1];
      }
    }
  }

  /** Between words with ACK low, generating more never makes or mends a defect of the waveform. */
  lemma {:induction false} GeneratedShape(phases: bool, cfg: TxCfg, s: Tx, words: seq<U32>)
    requires Between(cfg, s, false) && EmitAll(cfg, s, words).ok
    ensures Shape(phases, cfg.neutralWord, EmitAll(cfg, s, words).tx.wf) <==> Shape(phases, cfg.neutralWord, s.wf)
    decreases |words|
  {
    hide Emit, Shape, Cycle;
    if words != [] {
      EmitFromLow(cfg, s, words[0]);
      CycleShape(phases, cfg, s.t, words[0]);
      ShapeAppend(phases, cfg.neutralWord, s.wf, Cycle(cfg, s.t, words[0]));
      GeneratedShape(phases, cfg, Emit(cfg, s, words[0]).tx, words[1..]);
    }
  }

  lemma CycleShape(phases: bool, cfg: TxCfg, t: nat, word: U32)
    requires t + Period(cfg) < TWO64
    ensures var c := Cycle(cfg, t, word);
      && c != [] && Shape(phases, cfg.neutralWord, c)
      && FourPhase(cfg.neutralWord, Sample(t, cfg.neutralWord, false), c[0])
  {
  }

  /** Every generated waveform is in time order and changes exactly one of DATA and ACK at a time. It
      follows the four phases exactly if ACK is low at the start or the first word is no change. */
  lemma WaveformShape(cfg: TxCfg, t0: U64, words: seq<U32>)
    requires EmitAll(cfg, Start(cfg, t0), words).ok
    ensures var wf := EmitAll(cfg, Start(cfg, t0), words).tx.wf;
      && Shape(false, cfg.neutralWord, wf)
      && (Shape(true, cfg.neutralWord, wf) <==> !cfg.initialAck || words == [] || words[0] == cfg.neutralWord)
  {
    ShapeIff(false, cfg, t0, words);
    ShapeIff(true, cfg, t0, words);
  }

  lemma ShapeIff(phases: bool, cfg: TxCfg, t0: U64, words: seq<U32>)
    requires EmitAll(cfg, Start(cfg, t0), words).ok
    ensures Shape(phases, cfg.neutralWord, EmitAll(cfg, Start(cfg, t0), words).tx.wf)
            <==> !phases || !cfg.initialAck || words == [] || words[0] == cfg.neutralWord
  {
    var s := Start(cfg, t0);
    assert Shape(phases, cfg.neutralWord, s.wf);
    hide Shape, Emit;
    if cfg.initialAck && words != [] {
      FirstFromHighShape(phases, cfg, s, words[0]);
      EmitFromHigh(cfg, s, words[0]);
      GeneratedShape(phases, cfg, Emit(cfg, s, words[0]).tx, words[1..]);
    } else if !cfg.initialAck {
      GeneratedShape(phases, cfg, s, words);
    }
  }

  lemma FirstFromHighShape(phases: bool, cfg: TxCfg, s: Tx, word: U32)
    requires Between(cfg, s, true) && |s.wf| == 1 && Emit(cfg, s, word).ok
    ensures Shape(phases, cfg.neutralWord, Emit(cfg, s, word).tx.wf) <==> !phases || word == cfg.neutralWord
  {
    EmitFromHigh(cfg, s, word);
    var wf := Emit(cfg, s, word).tx.wf;
    hide Emit;
    if word != cfg.neutralWord {
      assert wf[0] == s.wf[0] && wf[1] == Sample(s.t, word, true);
      assert !FourPhase(cfg.neutralWord, wf[0], wf[1]);
    }
  }
}
