/** The burst assembler (common/src/aer_burst.c): ROW, COL*, TAIL words to (row, col) events. */
module Burst {
  import opened Words
  import opened Framing
  import opened Codec
  import opened UsbStream

  const ROWS: nat := 32
  const COLS: nat := 32

  datatype BurstErr = TailWithoutRow | RowOutOfRange | ColOutOfRange | ColOverflow

  datatype Phase = ExpectRow | ExpectColOrTail

  /** What an assembler knows; counters are kept as unbounded totals. */
  datatype State = State(phase: Phase, row: U8, cols: seq<U8>, errs: set<BurstErr>,
                         completed: nat, emitted: nat)

  const INITIAL := State(ExpectRow, 0, [], {}, 0, 0)

  /** `aer_payload_to_index`: the low INDEX_BITS bits. */
  function Index(payload: nat): (i: U8)
    ensures i < ROWS && i < COLS
  {
    payload % 32
  }

  /** `aer_burst_reset`. */
  function Reset(b: State, clearCounters: bool): State {
    State(ExpectRow, 0, [], {}, if clearCounters then 0 else b.completed, if clearCounters then 0 else b.emitted)
  }

  function RowEvents(row: U8, cols: seq<U8>): (es: seq<Event>)
    ensures |es| == |cols|
  {
    if cols == [] then [] else RowEvents(row, cols[..|cols| - 1]) + [Event(row, cols[|cols| - 1])]
  }

  /** Events the callback gets when `w` arrives. */
  function Emits(b: State, w: Decoded): seq<Event> {
    if w.ok && w.isTail && b.phase == ExpectColOrTail then RowEvents(b.row, b.cols) else []
  }

  function Step(b: State, w: Decoded): State {
    if !w.ok then b
    else if w.isTail then
      if b.phase == ExpectRow then b.(errs := b.errs + {TailWithoutRow})
      else b.(phase := ExpectRow, cols := [], completed := b.completed + 1, emitted := b.emitted + |b.cols|)
    else
      var idx := Index(w.payload);
      if b.phase == ExpectRow then
        b.(phase := ExpectColOrTail, row := idx, cols := [],
           errs := b.errs + if idx >= ROWS then {RowOutOfRange} else {})
      else if |b.cols| < COLS then
        b.(cols := b.cols + [idx], errs := b.errs + if idx >= COLS then {ColOutOfRange} else {})
      else
        b.(errs := b.errs + {ColOverflow})
  }

  function Run(b: State, ws: seq<Decoded>): State {
    if ws == [] then b else Step(Run(b, ws[..|ws| - 1]), ws[|ws| - 1])
  }

  function Events(b: State, ws: seq<Decoded>): seq<Event> {
    if ws == [] then []
    else Events(b, ws[..|ws| - 1]) + Emits(Run(b, ws[..|ws| - 1]), ws[|ws| - 1])
  }

  lemma {:induction false} RunAppend(b: State, xs: seq<Decoded>, ys: seq<Decoded>)
    ensures Run(b, xs + ys) == Run(Run(b, xs), ys)
    ensures Events(b, xs + ys) == Events(b, xs) + Events(Run(b, xs), ys)
  {
    if ys == [] {
      assert xs + ys == xs;
    } else {
      var k := |ys| - 1;
      RunAppend(b, xs, ys[..k]);
      assert (xs + ys)[..|xs + ys| - 1] == xs + ys[..k];
      Associative(Events(b, xs), Events(Run(b, xs), ys[..k]), Emits(Run(Run(b, xs), ys[..k]), ys[k]));
    }
  }

  // ---------------- The C object refines the step function ----------------

  class Assembler {
    var phase: Phase
    var row: U8
    const cols: array<U8>
    var colCount: U16
    var errFlags: set<BurstErr>
    var burstsCompleted: U32
    var eventsEmitted: U32
    ghost var completedTotal: nat
    ghost var emittedTotal: nat

    ghost predicate Valid()
      reads this
    {
      && cols.Length == COLS && colCount <= COLS
      && burstsCompleted == completedTotal % TWO32 && eventsEmitted == emittedTotal % TWO32
    }

    ghost function View(): State
      requires Valid()
      reads this, cols
    {
      State(phase, row, cols[..colCount], errFlags, completedTotal, emittedTotal)
    }

    constructor ()
      ensures Valid() && View() == INITIAL && fresh(cols)
    {
      phase, row, colCount, errFlags := ExpectRow, 0, 0, {};
      cols := new U8[COLS];
      burstsCompleted, eventsEmitted := 0, 0;
      completedTotal, emittedTotal := 0, 0;
    }

    method Clear(clearCounters: bool)
      requires Valid()
      modifies this
      ensures Valid() && View() == Reset(old(View()), clearCounters)
    {
      phase, row, colCount, errFlags := ExpectRow, 0, 0, {};
      if clearCounters {
        burstsCompleted, eventsEmitted := 0, 0;
        completedTotal, emittedTotal := 0, 0;
      }
    }

    /** Hands every buffered event to the callback, if there is one, and clears the buffer. */
    method EmitAndClear(cb: EventSink?) returns (emitted: U16)
      requires Valid()
      requires cb != null ==> cb.Valid()
      modifies this`colCount, this`eventsEmitted, this`emittedTotal, Footprint(cb)
      ensures Valid() && emitted == old(colCount)
      ensures View() == old(View()).(cols := [], emitted := old(emittedTotal) + emitted)
      ensures cb != null ==>
                cb.View() == DeliverAll(cb.ticks, old(cb.View()), RowEvents(row, old(cols[..colCount])))
    {
      hide DeliverAll, RowEvents;
      emitted := 0;
      if cb != null {
        emitted := CallBack(cb);
      } else {
        emitted := colCount;
      }
      WrapAdd(emittedTotal, emitted);
      eventsEmitted := (eventsEmitted + emitted) % TWO32;
      emittedTotal := emittedTotal + emitted;
      colCount := 0;
    }

    method CallBack(cb: EventSink) returns (emitted: U16)
      requires Valid() && cb.Valid()
      modifies Footprint(cb)
      ensures emitted == colCount
      ensures cb.View() == DeliverAll(cb.ticks, old(cb.View()), RowEvents(row, cols[..colCount]))
    {
      ghost var before, all, r := cb.View(), cols[..colCount], row;
      ghost var done: seq<U8> := [];
      hide *;
      NoCalls(cb.ticks, before, row);
      emitted := 0;
      for i: int := 0 to colCount
        invariant emitted == i && done == all[..i] && cols[..colCount] == all
        invariant cb.View() == DeliverAll(cb.ticks, before, RowEvents(r, done))
      {
        OneMoreCall(cb.ticks, before, r, done, all[i]);
        cb.OnEvent(row, cols[i]);
        done := done + [all[i]];
        emitted := emitted + 1;
      }
      assert done == all;
    }

    method Feed(word: Decoded, cb: EventSink?) returns (emitted: U16)
      requires Valid()
      requires cb != null ==> cb.Valid()
      modifies this, cols, Footprint(cb)
      ensures Valid()
      ensures View() == Step(old(View()), word)
      ensures emitted == |Emits(old(View()), word)|
      ensures cb != null ==>
                cb.View() == DeliverAll(cb.ticks, old(cb.View()), Emits(old(View()), word))
    {
      if !word.ok {
        return 0;
      }
      if word.isTail {
        if phase == ExpectRow {
          errFlags := errFlags + {TailWithoutRow};
          return 0;
        }
        emitted := EmitAndClear(cb);
        WrapAdd(completedTotal, 1);
        burstsCompleted := (burstsCompleted + 1) % TWO32;
        completedTotal := completedTotal + 1;
        phase := ExpectRow;
        return emitted;
      }
      var idx := Index(word.payload);
      if phase == ExpectRow {
        row := idx;
        errFlags := errFlags + if row >= ROWS then {RowOutOfRange} else {};
        colCount := 0;
        phase := ExpectColOrTail;
        return 0;
      }
      if colCount < COLS {
        cols[colCount] := idx;
        colCount := colCount + 1;
        errFlags := errFlags + if idx >= COLS then {ColOutOfRange} else {};
      } else {
        errFlags := errFlags + {ColOverflow};
      }
      return 0;
    }
  }

  lemma WrapAdd(total: nat, d: nat)
    ensures (total % TWO32 + d) % TWO32 == (total + d) % TWO32
  {
  }

  lemma NoCalls(ticks: nat -> U32, o: Output, row: U8)
    ensures DeliverAll(ticks, o, RowEvents(row, [])) == o
  {
  }

  lemma OneMoreCall(ticks: nat -> U32, o: Output, row: U8, cols: seq<U8>, col: U8)
    ensures DeliverAll(ticks, o, RowEvents(row, cols + [col]))
            == Deliver(ticks, DeliverAll(ticks, o, RowEvents(row, cols)), Event(row, col))
  {
    hide Deliver;
    var es := RowEvents(row, cols);
    assert (cols + [col])[..|cols|] == cols;
    assert (es + [Event(row, col)])[..|es|] == es;
  }

  // ---------------- Specification: split the words at the tails ----------------

  datatype Token = Item(index: U8) | Tail

  function TokenOf(w: Decoded): Token {
    if w.isTail then Tail else Item(Index(w.payload))
  }

  /** The accepted words, as tokens. */
  function Tokens(ws: seq<Decoded>): seq<Token> {
    if ws == [] then []
    else Tokens(ws[..|ws| - 1]) + if ws[|ws| - 1].ok then [TokenOf(ws[|ws| - 1])] else []
  }

  /** Indices since the last tail. */
  function Open(ts: seq<Token>): seq<U8> {
    if ts == [] then []
    else match ts[|ts| - 1]
      case Tail => []
      case Item(i) => Open(ts[..|ts| - 1]) + [i]
  }

  /** The indices before each tail, burst by burst. */
  function Closed(ts: seq<Token>): seq<seq<U8>> {
    if ts == [] then []
    else match ts[|ts| - 1]
      case Tail => Closed(ts[..|ts| - 1]) + [Open(ts[..|ts| - 1])]
      case Item(i) => Closed(ts[..|ts| - 1])
  }

  function Unsplit(bursts: seq<seq<U8>>, open: seq<U8>): seq<Token> {
    (if bursts == [] then []
     else Unsplit(bursts[..|bursts| - 1], bursts[|bursts| - 1]) + [Tail])
    + IndexTokens(open)
  }

  function IndexTokens(ix: seq<U8>): seq<Token> {
    if ix == [] then [] else IndexTokens(ix[..|ix| - 1]) + [Item(ix[|ix| - 1])]
  }

  /** Splitting is exact: the bursts with their tails, then the open one, are the words. */
  lemma {:induction false} SplitIsExact(ts: seq<Token>)
    ensures Unsplit(Closed(ts), Open(ts)) == ts
  {
    if ts != [] {
      var k := |ts| - 1;
      SplitIsExact(ts[..k]);
      var bursts, open := Closed(ts[..k]), Open(ts[..k]);
      match ts[k] {
        case Tail =>
          assert (bursts + [open])[..|bursts|] == bursts;
        case Item(i) =>
          assert (open + [i])[..|open|] == open;
      }
      assert ts == ts[..k] + [ts[k]];
    }
  }

  /** First word: the row. Next words, up to 32 of them: its columns. */
  function BurstEvents(burst: seq<U8>): seq<Event> {
    if burst == [] then [] else RowEvents(burst[0], Columns(burst))
  }

  function Columns(burst: seq<U8>): seq<U8>
    requires burst != []
  {
    burst[1..Min(|burst|, 1 + COLS)]
  }

  function AllEvents(bursts: seq<seq<U8>>): seq<Event> {
    if bursts == [] then [] else AllEvents(bursts[..|bursts| - 1]) + BurstEvents(bursts[|bursts| - 1])
  }

  /** Columns of a burst beyond the first 32. */
  function Excess(burst: seq<U8>): nat {
    if |burst| > 1 + COLS then |burst| - 1 - COLS else 0
  }

  function TotalExcess(bursts: seq<seq<U8>>): nat {
    if bursts == [] then 0 else TotalExcess(bursts[..|bursts| - 1]) + Excess(bursts[|bursts| - 1])
  }

  /** State of the assembler, read off the split words alone. */
  ghost predicate Matches(b: State, ts: seq<Token>) {
    var open := Open(ts);
    && (b.phase == ExpectRow <==> open == [])
    && b.cols == (if open == [] then [] else Columns(open))
    && (open != [] ==> b.row == open[0])
    && (TailWithoutRow in b.errs <==> [] in Closed(ts))
    && (ColOverflow in b.errs <==> TotalExcess(Closed(ts)) + Excess(open) > 0)
    && RowOutOfRange !in b.errs && ColOutOfRange !in b.errs
  }

  /** From any reset on, over every stream of decoded words: the events are those of the
      bursts between tails, each cut to its first 32 columns; TAIL_WITHOUT_ROW and
      COL_OVERFLOW are set exactly when an empty burst, or a 33rd column of some burst, has
      been seen, and the range warnings never. */
  lemma {:induction false} AssemblesBursts(b: State, clear: bool, ws: seq<Decoded>)
    ensures Events(Reset(b, clear), ws) == AllEvents(Closed(Tokens(ws)))
    ensures Matches(Run(Reset(b, clear), ws), Tokens(ws))
  {
    if ws != [] {
      hide *;
      var k, start := |ws| - 1, Reset(b, clear);
      AssemblesBursts(b, clear, ws[..k]);
      LastWord(start, ws);
      var now, ts := Run(start, ws[..k]), Tokens(ws[..k]);
      if ws[k].ok {
        TokenStep(now, ts, ws[k]);
      } else {
        Ignored(now, ws[k]);
      }
    }
  }

  lemma Ignored(b: State, w: Decoded)
    requires !w.ok
    ensures Step(b, w) == b && Emits(b, w) == []
  {
  }

  lemma TokensSnoc(ts: seq<Token>, t: Token)
    ensures Open(ts + [t]) == if t.Tail? then [] else Open(ts) + [t.index]
    ensures Closed(ts + [t]) == if t.Tail? then Closed(ts) + [Open(ts)] else Closed(ts)
    ensures CountIndices(ts + [t]) == CountIndices(ts) + if t.Tail? then 0 else 1
  {
    assert (ts + [t])[..|ts|] == ts;
  }

  lemma BurstsSnoc(bursts: seq<seq<U8>>, open: seq<U8>)
    ensures AllEvents(bursts + [open]) == AllEvents(bursts) + BurstEvents(open)
    ensures TotalExcess(bursts + [open]) == TotalExcess(bursts) + Excess(open)
    ensures forall x :: x in bursts + [open] <==> x in bursts || x == open
  {
    assert (bursts + [open])[..|bursts|] == bursts;
  }

  lemma TokenStep(b: State, ts: seq<Token>, w: Decoded)
    requires w.ok && Matches(b, ts)
    ensures Matches(Step(b, w), ts + [TokenOf(w)])
    ensures AllEvents(Closed(ts + [TokenOf(w)])) == AllEvents(Closed(ts)) + Emits(b, w)
  {
    hide Open, Closed, AllEvents;
    TokensSnoc(ts, TokenOf(w));
    BurstsSnoc(Closed(ts), Open(ts));
    hide TotalExcess, RowEvents;
    if w.isTail {
      TailStep(b, ts, w);
    } else {
      IndexStep(b, ts, w);
    }
  }

  lemma TailStep(b: State, ts: seq<Token>, w: Decoded)
    requires w.ok && w.isTail && Matches(b, ts)
    ensures Matches(Step(b, w), ts + [Tail])
    ensures Closed(ts + [Tail]) == Closed(ts) + [Open(ts)] && BurstEvents(Open(ts)) == Emits(b, w)
  {
    hide Open, Closed, TotalExcess, RowEvents, Columns;
    TokensSnoc(ts, Tail);
    BurstsSnoc(Closed(ts), Open(ts));
  }

  lemma IndexStep(b: State, ts: seq<Token>, w: Decoded)
    requires w.ok && !w.isTail && Matches(b, ts)
    ensures Matches(Step(b, w), ts + [TokenOf(w)])
  {
    hide Open, Closed, TotalExcess, Columns, Excess;
    TokensSnoc(ts, TokenOf(w));
    OneMoreColumn(Open(ts), Index(w.payload));
  }

  lemma OneMoreColumn(open: seq<U8>, i: U8)
    ensures open == [] ==> Columns(open + [i]) == [] && Excess(open) == 0
    ensures open != [] ==> (Excess(open) > 0 ==> |Columns(open)| >= COLS)
    ensures open != [] && |Columns(open)| < COLS ==> Columns(open + [i]) == Columns(open) + [i]
    ensures open != [] && |Columns(open)| >= COLS ==> Columns(open + [i]) == Columns(open)
    ensures Excess(open + [i]) == Excess(open) + if |open| > COLS then 1 else 0
    ensures open != [] ==> (|open| > COLS <==> |Columns(open)| >= COLS) && (open + [i])[0] == open[0]
  {
  }

  // ---------------- Conservation ----------------

  function CountIndices(ts: seq<Token>): nat {
    if ts == [] then 0 else CountIndices(ts[..|ts| - 1]) + if ts[|ts| - 1].Tail? then 0 else 1
  }

  /** Every index read since the last reset is a row, an event, a buffered column, or a column
      dropped by overflow; `out` events came out. */
  ghost predicate Balanced(start: State, now: State, ts: seq<Token>, out: nat) {
    var bursts, events := now.completed - start.completed, now.emitted - start.emitted;
    && bursts >= 0 && events == out <= COLS * bursts
    && CountIndices(ts) == bursts + (if now.phase == ExpectColOrTail then 1 else 0)
                           + events + |now.cols| + TotalExcess(Closed(ts)) + Excess(Open(ts))
  }

  /** No accepted word is lost unaccounted for, over every stream since the last reset. */
  lemma {:induction false} Conservation(b: State, clear: bool, ws: seq<Decoded>)
    ensures var start := Reset(b, clear);
      Balanced(start, Run(start, ws), Tokens(ws), |Events(start, ws)|)
  {
    hide *;
    var start := Reset(b, clear);
    if ws == [] {
      BalancedAtStart(b, clear);
    } else {
      var k := |ws| - 1;
      Conservation(b, clear, ws[..k]);
      AssemblesBursts(b, clear, ws[..k]);
      LastWord(start, ws);
      var now, ts := Run(start, ws[..k]), Tokens(ws[..k]);
      if ws[k].ok {
        BalanceStep(start, now, ts, |Events(start, ws[..k])|, ws[k]);
      } else {
        Ignored(now, ws[k]);
      }
    }
  }

  lemma BalancedAtStart(b: State, clear: bool)
    ensures var start := Reset(b, clear);
      Balanced(start, Run(start, []), Tokens([]), |Events(start, [])|)
  {
  }

  lemma LastWord(b: State, ws: seq<Decoded>)
    requires ws != []
    ensures var k := |ws| - 1;
      && Run(b, ws) == Step(Run(b, ws[..k]), ws[k])
      && Events(b, ws) == Events(b, ws[..k]) + Emits(Run(b, ws[..k]), ws[k])
      && Tokens(ws) == if ws[k].ok then Tokens(ws[..k]) + [TokenOf(ws[k])] else Tokens(ws[..k])
  {
    hide Step, Emits;
    var ts := Tokens(ws[..|ws| - 1]);
    assert ts + [] == ts;
  }

  lemma BalanceStep(start: State, now: State, ts: seq<Token>, out: nat, w: Decoded)
    requires w.ok && Matches(now, ts) && Balanced(start, now, ts, out)
    ensures Balanced(start, Step(now, w), ts + [TokenOf(w)], out + |Emits(now, w)|)
  {
    hide Open, Closed, AllEvents, CountIndices, TotalExcess;
    TokensSnoc(ts, TokenOf(w));
    BurstsSnoc(Closed(ts), Open(ts));
    if !w.isTail {
      OneMoreColumn(Open(ts), Index(w.payload));
    }
  }

  /** Bursts that had at least a row. */
  function WithRow(bursts: seq<seq<U8>>): nat {
    if bursts == [] then 0 else WithRow(bursts[..|bursts| - 1]) + if bursts[|bursts| - 1] == [] then 0 else 1
  }

  /** Over every stream the counters go on from where a reset left them: at zero if it clears them, else
      where they were. They count the bursts ended by a tail and the events. */
  lemma {:induction false} CountersAreCumulative(b: State, clear: bool, ws: seq<Decoded>)
    ensures var now := Run(Reset(b, clear), ws);
      && now.completed == (if clear then 0 else b.completed) + WithRow(Closed(Tokens(ws)))
      && now.emitted == (if clear then 0 else b.emitted) + |Events(Reset(b, clear), ws)|
  {
    var start := Reset(b, clear);
    if ws != [] {
      hide Run, Events, Tokens, Matches, Closed, Open, AllEvents, Step, Emits, WithRow;
      var k := |ws| - 1;
      CountersAreCumulative(b, clear, ws[..k]);
      AssemblesBursts(b, clear, ws[..k]);
      LastWord(start, ws);
      var now, ts := Run(start, ws[..k]), Tokens(ws[..k]);
      if ws[k].ok {
        CountersStep(now, ts, ws[k]);
      } else {
        Ignored(now, ws[k]);
      }
    }
  }

  lemma CountersStep(b: State, ts: seq<Token>, w: Decoded)
    requires w.ok && Matches(b, ts)
    ensures Step(b, w).emitted == b.emitted + |Emits(b, w)|
    ensures Step(b, w).completed - b.completed == WithRow(Closed(ts + [TokenOf(w)])) - WithRow(Closed(ts))
  {
    hide Open, Closed, TotalExcess, RowEvents, Columns;
    TokensSnoc(ts, TokenOf(w));
    var bursts := Closed(ts);
    assert (bursts + [Open(ts)])[..|bursts|] == bursts;
  }

  /** An index is the low five bits: what `& 31` gives, whatever the pad bit. */
  lemma IndexIsLowBits(payload: nat)
    ensures Index(payload) == And(payload, 31)
  {
    FirmwareSizes();
    AndLow(payload, INDEX_BITS);
  }

  /** So a word with its pad bit set is taken for the index below it, the tail apart. */
  lemma PadBitIsIgnored(b: State, i: nat)
    requires i < 31
    ensures var d, e := DecodeRaw(WordOf(i + 32)), DecodeRaw(WordOf(i));
      d.ok && PadBitSet in d.errs && PadBitSet !in e.errs && Step(b, d) == Step(b, e) && Emits(b, d) == Emits(b, e)
  {
    hide DecodeRaw, WordOf;
    WordOfDecodes(i + 32);
    WordOfDecodes(i);
    PadFlag(i + 32);
    PadFlag(i);
  }

  lemma PadFlag(p: nat)
    requires p < TAIL_PAYLOAD
    ensures PadBitSet in DecodeRaw(WordOf(p)).errs <==> p >= 32
  {
    hide Decode, WordOf, Pow;
    FirmwareSizes();
    WordOfDecodes(p);
    FlagsMean(GROUPS, INDEX_BITS, WordOf(p));
  }

  // ---------------- Self-stabilisation ----------------

  ghost predicate Alike(a: State, b: State) {
    a.phase == b.phase && (a.phase == ExpectColOrTail ==> a.row == b.row && a.cols == b.cols)
  }

  /** Whatever was lost or corrupted before: after one common tail, two assemblers in any
      two states emit the same events on every later stream. */
  lemma {:induction false} OneTailResynchronises(a: State, b: State, tail: Decoded, ws: seq<Decoded>)
    requires tail.ok && tail.isTail
    ensures Events(Step(a, tail), ws) == Events(Step(b, tail), ws)
    ensures Alike(Run(Step(a, tail), ws), Run(Step(b, tail), ws))
  {
    if ws != [] {
      OneTailResynchronises(a, b, tail, ws[..|ws| - 1]);
    }
  }

  // ---------------- Bursts on the wire ----------------

  /** A row and the columns that fired in it. */
  datatype RowBurst = RowBurst(row: U8, cols: seq<U8>)

  predicate InRange(b: RowBurst) {
    b.row < ROWS && |b.cols| <= COLS && forall i :: 0 <= i < |b.cols| ==> b.cols[i] < COLS
  }

  ghost predicate AllInRange(bs: seq<RowBurst>) {
    forall i :: 0 <= i < |bs| ==> InRange(bs[i])
  }

  function Indices(b: RowBurst): seq<U8> {
    [b.row] + b.cols
  }

  function WordsOf(ix: seq<U8>): seq<U32> {
    if ix == [] then [] else WordsOf(ix[..|ix| - 1]) + [WordOf(ix[|ix| - 1])]
  }

  /** Words for the indices of closed bursts, each with its tail, then of one still open. */
  function WireWords(bursts: seq<seq<U8>>, open: seq<U8>): seq<U32>
    decreases |bursts|
  {
    (if bursts == [] then []
     else WireWords(bursts[..|bursts| - 1], bursts[|bursts| - 1]) + [WordOf(TAIL_PAYLOAD)])
    + WordsOf(open)
  }

  function AllIndices(bs: seq<RowBurst>): (bursts: seq<seq<U8>>)
    ensures |bursts| == |bs| && forall i :: 0 <= i < |bs| ==> bursts[i] == Indices(bs[i])
  {
    seq(|bs|, i requires 0 <= i < |bs| => Indices(bs[i]))
  }

  /** What the sensor sends for a list of bursts. */
  function SensorWords(bs: seq<RowBurst>): seq<U32> {
    WireWords(AllIndices(bs), [])
  }

  function Pairs(bs: seq<RowBurst>): seq<Event> {
    if bs == [] then []
    else Pairs(bs[..|bs| - 1]) + RowEvents(bs[|bs| - 1].row, bs[|bs| - 1].cols)
  }

  function DecodeAll(ws: seq<nat>): seq<Decoded> {
    if ws == [] then [] else DecodeAll(ws[..|ws| - 1]) + [DecodeRaw(ws[|ws| - 1])]
  }

  lemma {:induction false} DecodeAllAppend(xs: seq<nat>, ys: seq<nat>)
    ensures DecodeAll(xs + ys) == DecodeAll(xs) + DecodeAll(ys)
  {
    if ys == [] {
      assert xs + ys == xs;
    } else {
      var k := |ys| - 1;
      DecodeAllAppend(xs, ys[..k]);
      assert (xs + ys)[..|xs + ys| - 1] == xs + ys[..k];
      Associative(DecodeAll(xs), DecodeAll(ys[..k]), [DecodeRaw(ys[k])]);
    }
  }

  lemma DecodesNothing(b: State)
    ensures DecodeAll([]) == [] && Run(b, []) == b && Events(b, []) == []
  {
  }

  lemma DecodeOne(w: nat)
    ensures DecodeAll([w]) == [DecodeRaw(w)]
  {
    assert [w][..0] == [];
  }

  lemma RunOne(b: State, w: Decoded)
    ensures Run(b, [w]) == Step(b, w) && Events(b, [w]) == Emits(b, w)
  {
    assert [w][..0] == [];
  }

  /** One more raw word, decoded and fed. */
  lemma FeedLast(b: State, ws: seq<nat>, w: nat)
    ensures var before, d := DecodeAll(ws), DecodeRaw(w);
      && Run(b, DecodeAll(ws + [w])) == Step(Run(b, before), d)
      && Events(b, DecodeAll(ws + [w])) == Events(b, before) + Emits(Run(b, before), d)
  {
    hide Run, Events, DecodeAll, Step, Emits, DecodeRaw;
    var before := DecodeAll(ws);
    DecodeAllAppend(ws, [w]);
    DecodeOne(w);
    RunAppend(b, before, [DecodeRaw(w)]);
    RunOne(Run(b, before), DecodeRaw(w));
  }

  lemma DeliverLast(ticks: nat -> U32, o: Output, b: State, ws: seq<nat>, w: nat)
    ensures var before := DecodeAll(ws);
      DeliverAll(ticks, o, Events(b, DecodeAll(ws + [w])))
      == DeliverAll(ticks, DeliverAll(ticks, o, Events(b, before)), Emits(Run(b, before), DecodeRaw(w)))
  {
    hide Run, Events, DecodeAll, Emits, DeliverAll, DecodeRaw;
    FeedLast(b, ws, w);
    DeliverAppend(ticks, o, Events(b, DecodeAll(ws)), Emits(Run(b, DecodeAll(ws)), DecodeRaw(w)));
  }

  ghost predicate Small(ix: seq<U8>) {
    forall i :: 0 <= i < |ix| ==> ix[i] < 32
  }

  ghost predicate AllSmall(bursts: seq<seq<U8>>) {
    forall i :: 0 <= i < |bursts| ==> Small(bursts[i])
  }

  lemma TokensLast(ws: seq<U32>, p: nat)
    requires p < 32 || p == TAIL_PAYLOAD
    ensures Tokens(DecodeAll(ws + [WordOf(p)]))
            == Tokens(DecodeAll(ws)) + [if p == TAIL_PAYLOAD then Tail else Item(p)]
  {
    hide DecodeAll, DecodeRaw, WordOf;
    var w := WordOf(p);
    DecodeAllAppend(ws, [w]);
    DecodeOne(w);
    WordOfDecodes(p);
    var ds := DecodeAll(ws);
    assert (ds + [DecodeRaw(w)])[..|ds|] == ds;
  }

  lemma {:induction false} TokensOfIndices(ws: seq<U32>, ix: seq<U8>)
    requires Small(ix)
    ensures Tokens(DecodeAll(ws + WordsOf(ix))) == Tokens(DecodeAll(ws)) + IndexTokens(ix)
  {
    hide DecodeAll, Tokens, WordOf;
    if ix == [] {
      assert ws + WordsOf(ix) == ws;
    } else {
      var k := |ix| - 1;
      TokensOfIndices(ws, ix[..k]);
      TokensLast(ws + WordsOf(ix[..k]), ix[k]);
      Associative(ws, WordsOf(ix[..k]), [WordOf(ix[k])]);
    }
  }

  /** The words on the wire decode to the tokens they stand for. */
  lemma {:induction false} WireTokens(bursts: seq<seq<U8>>, open: seq<U8>)
    requires AllSmall(bursts) && Small(open)
    ensures Tokens(DecodeAll(WireWords(bursts, open))) == Unsplit(bursts, open)
    decreases |bursts|
  {
    hide DecodeAll, Tokens, WordOf, IndexTokens, WordsOf, Small;
    var before := [];
    if bursts != [] {
      var k := |bursts| - 1;
      WireTokens(bursts[..k], bursts[k]);
      TokensLast(WireWords(bursts[..k], bursts[k]), TAIL_PAYLOAD);
      before := WireWords(bursts[..k], bursts[k]) + [WordOf(TAIL_PAYLOAD)];
    } else {
      NoTokens();
    }
    TokensOfIndices(before, open);
  }

  lemma NoTokens()
    ensures Tokens(DecodeAll([])) == []
  {
  }

  lemma {:induction false} SplitIndices(ts: seq<Token>, ix: seq<U8>)
    ensures Open(ts + IndexTokens(ix)) == Open(ts) + ix && Closed(ts + IndexTokens(ix)) == Closed(ts)
  {
    hide Open, Closed;
    if ix == [] {
      assert ts + IndexTokens(ix) == ts;
    } else {
      var k := |ix| - 1;
      SplitIndices(ts, ix[..k]);
      TokensSnoc(ts + IndexTokens(ix[..k]), Item(ix[k]));
      Associative(ts, IndexTokens(ix[..k]), [Item(ix[k])]);
      Associative(Open(ts), ix[..k], [ix[k]]);
      assert ix[..k] + [ix[k]] == ix;
    }
  }

  /** Splitting finds again the bursts the tokens were made of. */
  lemma {:induction false} SplitUndoesUnsplit(bursts: seq<seq<U8>>, open: seq<U8>)
    ensures Closed(Unsplit(bursts, open)) == bursts && Open(Unsplit(bursts, open)) == open
    decreases |bursts|
  {
    var before := if bursts == [] then [] else Unsplit(bursts[..|bursts| - 1], bursts[|bursts| - 1]) + [Tail];
    assert Closed(before) == bursts && Open(before) == [] by {
      if bursts != [] {
        var k := |bursts| - 1;
        SplitUndoesUnsplit(bursts[..k], bursts[k]);
        hide Unsplit;
        TokensSnoc(Unsplit(bursts[..k], bursts[k]), Tail);
        assert bursts[..k] + [bursts[k]] == bursts;
      }
    }
    hide Closed, Open, IndexTokens;
    SplitIndices(before, open);
  }

  /** Whatever bursts are on the wire, empty, over-long or open, the assembler emits the events of
      the closed ones. */
  lemma WireWordsAssemble(bursts: seq<seq<U8>>, open: seq<U8>)
    requires AllSmall(bursts) && Small(open)
    ensures Events(INITIAL, DecodeAll(WireWords(bursts, open))) == AllEvents(bursts)
    ensures Matches(Run(INITIAL, DecodeAll(WireWords(bursts, open))), Unsplit(bursts, open))
  {
    hide *;
    WireTokens(bursts, open);
    SplitUndoesUnsplit(bursts, open);
    AssemblesBursts(INITIAL, false, DecodeAll(WireWords(bursts, open)));
    ResetInitial();
  }

  lemma ResetInitial()
    ensures Reset(INITIAL, false) == INITIAL
  {
  }

  /** What the assembler makes of the sensor's words is what the sensor saw. */
  lemma SensorWordsAssemble(bs: seq<RowBurst>)
    requires AllInRange(bs)
    ensures var ws := DecodeAll(SensorWords(bs));
      Events(INITIAL, ws) == Pairs(bs) && Run(INITIAL, ws).phase == ExpectRow
  {
    hide Run, Events, DecodeAll, WireWords, Unsplit, Closed, AllEvents, TotalExcess, Excess, Columns, AllIndices;
    SensorIndicesAreSmall(bs);
    WireWordsAssemble(AllIndices(bs), []);
    SplitUndoesUnsplit(AllIndices(bs), []);
    PairsAreEvents(bs);
  }

  lemma SensorIndicesAreSmall(bs: seq<RowBurst>)
    requires AllInRange(bs)
    ensures AllSmall(AllIndices(bs)) && Small([])
  {
  }

  lemma {:induction false} PairsAreEvents(bs: seq<RowBurst>)
    requires AllInRange(bs)
    ensures AllEvents(AllIndices(bs)) == Pairs(bs)
  {
    hide RowEvents;
    if bs != [] {
      var k := |bs| - 1;
      PairsAreEvents(bs[..k]);
      assert AllIndices(bs)[..k] == AllIndices(bs[..k]);
      assert Columns(Indices(bs[k])) == bs[k].cols;
    }
  }

  /** A valid, non-neutral word of the 12-line bus. */
  ghost predicate OnBus(w: nat) {
    0 < w < BUS && DecodeRaw(w).ok
  }

  lemma {:induction false} WordsOfRange(ix: seq<U8>)
    requires forall i :: 0 <= i < |ix| ==> ix[i] < 64
    ensures forall i :: 0 <= i < |WordsOf(ix)| ==> OnBus(WordsOf(ix)[i])
  {
    if ix != [] {
      WordsOfRange(ix[..|ix| - 1]);
      WordOfDecodes(ix[|ix| - 1]);
    }
  }

  lemma {:induction false} WireWordsRange(bursts: seq<seq<U8>>, open: seq<U8>)
    requires AllSmall(bursts) && Small(open)
    ensures forall i :: 0 <= i < |WireWords(bursts, open)| ==> OnBus(WireWords(bursts, open)[i])
    decreases |bursts|
  {
    hide OnBus, WordOf, WordsOf;
    WordsOfRange(open);
    if bursts != [] {
      WireWordsRange(bursts[..|bursts| - 1], bursts[|bursts| - 1]);
      TailOnBus();
    }
  }

  lemma TailOnBus()
    ensures OnBus(WordOf(TAIL_PAYLOAD))
  {
    WordOfDecodes(TAIL_PAYLOAD);
  }

  /** Every word of the sensor is a valid, non-neutral word of the 12-line bus. */
  lemma SensorWordsRange(bs: seq<RowBurst>)
    requires AllInRange(bs)
    ensures forall i :: 0 <= i < |SensorWords(bs)| ==> OnBus(SensorWords(bs)[i])
  {
    hide OnBus, WireWords;
    SensorIndicesAreSmall(bs);
    WireWordsRange(AllIndices(bs), []);
  }
}
