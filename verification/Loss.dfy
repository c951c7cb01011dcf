/** Words lost between the sensor and the assembler, and exactly when the host still sees only pixels
    that the sensor reported: always if columns are lost; if a row or a tail is lost, its burst is
    re-framed, which is harmless only in the cases given here. */
module Loss {
  import opened Words
  import opened Codec
  import opened Framing
  import opened UsbStream
  import opened Burst

  /** `xs` is `ys` with some elements left out. */
  ghost predicate Subsequence<T>(xs: seq<T>, ys: seq<T>)
    decreases |ys|
  {
    if xs == [] then true
    else if ys == [] then false
    else
      var k, m := |xs| - 1, |ys| - 1;
      Subsequence(xs, ys[..m]) || (xs[k] == ys[m] && Subsequence(xs[..k], ys[..m]))
  }

  lemma {:induction false} SubsequenceAppend<T>(a: seq<T>, b: seq<T>, c: seq<T>, d: seq<T>)
    requires Subsequence(a, b) && Subsequence(c, d)
    ensures Subsequence(a + c, b + d)
    decreases |d|
  {
    if d == [] {
      assert a + c == a && b + d == b;
    } else {
      var m := |d| - 1;
      assert (b + d)[..|b + d| - 1] == b + d[..m];
      if Subsequence(c, d[..m]) {
        SubsequenceAppend(a, b, c, d[..m]);
      } else {
        var k := |c| - 1;
        SubsequenceAppend(a, b, c[..k], d[..m]);
        assert (a + c)[..|a + c| - 1] == a + c[..k];
      }
    }
  }

  lemma {:induction false} SubsequenceReflexive<T>(xs: seq<T>)
    ensures Subsequence(xs, xs)
  {
    if xs != [] {
      SubsequenceReflexive(xs[..|xs| - 1]);
    }
  }

  /** Leaving out the last element too. */
  lemma {:induction false} DropLast<T>(xs: seq<T>, x: T, ys: seq<T>)
    requires Subsequence(xs + [x], ys)
    ensures Subsequence(xs, ys)
    decreases |ys|
  {
    var m := |ys| - 1;
    assert (xs + [x])[..|xs|] == xs;
    if Subsequence(xs + [x], ys[..m]) {
      DropLast(xs, x, ys[..m]);
    }
  }

  /** Whatever two lists start with, the rest of the one is among the rest of the other. */
  lemma {:induction false} DropHeads<T>(x: T, xs: seq<T>, y: T, ys: seq<T>)
    requires Subsequence([x] + xs, [y] + ys)
    ensures Subsequence(xs, ys)
    decreases |ys|
  {
    if ys == [] {
      SubsequenceBounds([x] + xs, [y] + ys);
    } else if xs != [] {
      var k, m := |xs| - 1, |ys| - 1;
      assert ([y] + ys)[..m + 1] == [y] + ys[..m] && ([x] + xs)[..k + 1] == [x] + xs[..k];
      if Subsequence([x] + xs, [y] + ys[..m]) {
        DropHeads(x, xs, y, ys[..m]);
      } else {
        DropHeads(x, xs[..k], y, ys[..m]);
      }
    }
  }

  /** What two lists have in common at both ends does not matter. */
  lemma SubsequenceBetween<T>(before: seq<T>, xs: seq<T>, ys: seq<T>, after: seq<T>)
    ensures Subsequence(before + xs + after, before + ys + after) <==> Subsequence(xs, ys)
  {
    if Subsequence(xs, ys) {
      SubsequenceReflexive(before);
      SubsequenceReflexive(after);
      SubsequenceAppend(before, before, xs, ys);
      SubsequenceAppend(before + xs, before + ys, after, after);
    }
    if Subsequence(before + xs + after, before + ys + after) {
      CancelAfter(before + xs, before + ys, after);
      CancelBefore(before, xs, ys);
    }
  }

  lemma {:induction false} CancelBefore<T>(before: seq<T>, xs: seq<T>, ys: seq<T>)
    requires Subsequence(before + xs, before + ys)
    ensures Subsequence(xs, ys)
  {
    if before == [] {
      assert before + xs == xs && before + ys == ys;
    } else {
      var rest := before[1..];
      assert before + xs == [before[0]] + (rest + xs) && before + ys == [before[0]] + (rest + ys);
      DropHeads(before[0], rest + xs, before[0], rest + ys);
      CancelBefore(rest, xs, ys);
    }
  }

  lemma {:induction false} CancelAfter<T>(xs: seq<T>, ys: seq<T>, after: seq<T>)
    requires Subsequence(xs + after, ys + after)
    ensures Subsequence(xs, ys)
  {
    if after == [] {
      assert xs + after == xs && ys + after == ys;
    } else {
      var k := |after| - 1;
      var a, b := xs + after[..k], ys + after[..k];
      assert xs + after == a + [after[k]] && ys + after == b + [after[k]];
      assert (a + [after[k]])[..|a|] == a && (b + [after[k]])[..|b|] == b;
      if Subsequence(a + [after[k]], b) {
        DropLast(a, after[k], b);
      }
      CancelAfter(xs, ys, after[..k]);
    }
  }

  lemma {:induction false} SubsequenceBounds<T>(xs: seq<T>, ys: seq<T>)
    requires Subsequence(xs, ys)
    ensures |xs| <= |ys| && forall x :: x in xs ==> x in ys
    decreases |ys|
  {
    if xs != [] {
      var k, m := |xs| - 1, |ys| - 1;
      if Subsequence(xs, ys[..m]) {
        SubsequenceBounds(xs, ys[..m]);
      } else {
        SubsequenceBounds(xs[..k], ys[..m]);
        assert xs == xs[..k] + [xs[k]];
      }
    }
  }

  lemma {:induction false} FewerColumnsFewerEvents(row: U8, xs: seq<U8>, ys: seq<U8>)
    requires Subsequence(xs, ys)
    ensures Subsequence(RowEvents(row, xs), RowEvents(row, ys))
    decreases |ys|
  {
    if xs != [] {
      var k, m := |xs| - 1, |ys| - 1;
      var es, fs := RowEvents(row, xs), RowEvents(row, ys);
      assert fs[..m] == RowEvents(row, ys[..m]) && es[..k] == RowEvents(row, xs[..k]);
      if Subsequence(xs, ys[..m]) {
        FewerColumnsFewerEvents(row, xs, ys[..m]);
      } else {
        FewerColumnsFewerEvents(row, xs[..k], ys[..m]);
      }
    }
  }

  /** The same bursts with some of their columns missing. */
  ghost predicate ColumnsLost(left: seq<RowBurst>, bs: seq<RowBurst>) {
    && |left| == |bs|
    && forall i :: 0 <= i < |bs| ==> left[i].row == bs[i].row && Subsequence(left[i].cols, bs[i].cols)
  }

  /** If only column words are lost, the events are those of the sensor with some left out. */
  lemma LostColumnsOnlyLoseEvents(left: seq<RowBurst>, bs: seq<RowBurst>)
    requires AllInRange(bs)
    requires ColumnsLost(left, bs)
    ensures var shown := Events(INITIAL, DecodeAll(SensorWords(left)));
      shown == Pairs(left) && Subsequence(shown, Pairs(bs))
  {
    hide Events, DecodeAll, SensorWords, Pairs;
    forall i | 0 <= i < |left| ensures InRange(left[i]) {
      assert InRange(bs[i]);
      SubsequenceBounds(left[i].cols, bs[i].cols);
      forall j | 0 <= j < |left[i].cols| ensures left[i].cols[j] < COLS {
        assert left[i].cols[j] in bs[i].cols;
      }
    }
    SensorWordsAssemble(left);
    FewerPairs(left, bs);
  }

  lemma {:induction false} FewerPairs(left: seq<RowBurst>, bs: seq<RowBurst>)
    requires ColumnsLost(left, bs)
    ensures Subsequence(Pairs(left), Pairs(bs))
  {
    if bs != [] {
      var k := |bs| - 1;
      FewerPairs(left[..k], bs[..k]);
      FewerColumnsFewerEvents(bs[k].row, left[k].cols, bs[k].cols);
      SubsequenceAppend(Pairs(left[..k]), Pairs(bs[..k]),
                        RowEvents(bs[k].row, left[k].cols), RowEvents(bs[k].row, bs[k].cols));
    }
  }

  // ---------------- The words around a burst ----------------

  function RemoveAt(ws: seq<U32>, p: nat): seq<U32>
    requires p < |ws|
  {
    ws[..p] + ws[p + 1..]
  }

  /** Where the row word of burst `k` is among the sensor's words. */
  function RowAt(bs: seq<RowBurst>, k: nat): nat
    requires k < |bs|
  {
    |SensorWords(bs[..k])|
  }

  function TailAt(bs: seq<RowBurst>, k: nat): nat
    requires k < |bs|
  {
    RowAt(bs, k) + 1 + |bs[k].cols|
  }

  lemma {:induction false} WordsOfAppend(xs: seq<U8>, ys: seq<U8>)
    ensures WordsOf(xs + ys) == WordsOf(xs) + WordsOf(ys)
  {
    hide WordOf;
    if ys == [] {
      assert xs + ys == xs;
    } else {
      var m := |ys| - 1;
      assert (xs + ys)[..|xs + ys| - 1] == xs + ys[..m];
      WordsOfAppend(xs, ys[..m]);
    }
  }

  lemma {:induction false} WordsOfLength(ix: seq<U8>)
    ensures |WordsOf(ix)| == |ix|
  {
    hide WordOf;
    if ix != [] {
      WordsOfLength(ix[..|ix| - 1]);
    }
  }

  lemma OneWord(p: U8)
    ensures WordsOf([p]) == [WordOf(p)]
  {
    hide WordOf;
    assert [p][..0] == [];
    assert WordsOf([]) + [WordOf(p)] == [WordOf(p)];
  }

  lemma {:induction false} WireAppend(xs: seq<seq<U8>>, ys: seq<seq<U8>>, open: seq<U8>)
    ensures WireWords(xs + ys, open) == WireWords(xs, []) + WireWords(ys, open)
    decreases |ys|
  {
    hide WordOf, WordsOf;
    assert WordsOf([]) == [] by { NoWords(); }
    if ys == [] {
      assert xs + ys == xs;
    } else {
      var m := |ys| - 1;
      assert (xs + ys)[..|xs + ys| - 1] == xs + ys[..m];
      WireAppend(xs, ys[..m], ys[m]);
    }
  }

  lemma NoWords()
    ensures WordsOf([]) == []
  {
  }

  lemma {:induction false} AllEventsAppend(xs: seq<seq<U8>>, ys: seq<seq<U8>>)
    ensures AllEvents(xs + ys) == AllEvents(xs) + AllEvents(ys)
  {
    hide BurstEvents;
    if ys == [] {
      assert xs + ys == xs;
    } else {
      var m := |ys| - 1;
      assert (xs + ys)[..|xs + ys| - 1] == xs + ys[..m];
      AllEventsAppend(xs, ys[..m]);
    }
  }

  /** Words and events of bursts, with one of them in view. */
  lemma Around(before: seq<seq<U8>>, ix: seq<U8>, after: seq<seq<U8>>)
    ensures WireWords(before + [ix] + after, [])
            == WireWords(before, []) + (WordsOf(ix) + [WordOf(TAIL_PAYLOAD)]) + WireWords(after, [])
    ensures AllEvents(before + [ix] + after) == AllEvents(before) + BurstEvents(ix) + AllEvents(after)
  {
    hide *;
    WireAppend(before + [ix], after, []);
    WireAppend(before, [ix], []);
    AllEventsAppend(before + [ix], after);
    AllEventsAppend(before, [ix]);
    JustOne(ix);
  }

  lemma JustOne(ix: seq<U8>)
    ensures WireWords([ix], []) == WordsOf(ix) + [WordOf(TAIL_PAYLOAD)] && AllEvents([ix]) == BurstEvents(ix)
  {
    hide WordOf, WordsOf, BurstEvents;
    NoWords();
    assert [ix][..0] == [];
    assert WireWords([], ix) == [] + WordsOf(ix);
    assert AllEvents([ix]) == [] + BurstEvents(ix);
  }

  lemma IndicesAround(bs: seq<RowBurst>, k: nat)
    requires k < |bs| && AllInRange(bs)
    ensures AllIndices(bs) == AllIndices(bs[..k]) + [Indices(bs[k])] + AllIndices(bs[k + 1..])
    ensures AllSmall(AllIndices(bs[..k])) && Small(Indices(bs[k])) && AllSmall(AllIndices(bs[k + 1..]))
    ensures Pairs(bs) == Pairs(bs[..k]) + RowEvents(bs[k].row, bs[k].cols) + Pairs(bs[k + 1..])
    ensures AllEvents(AllIndices(bs[..k])) == Pairs(bs[..k])
    ensures AllEvents(AllIndices(bs[k + 1..])) == Pairs(bs[k + 1..])
  {
    hide *;
    InRangeAround(bs, k);
    PairsAreEvents(bs);
    PairsAreEvents(bs[..k]);
    PairsAreEvents(bs[k + 1..]);
    SensorIndicesAreSmall(bs[..k]);
    SensorIndicesAreSmall(bs[k + 1..]);
    IndicesSplit(bs, k);
    Around(AllIndices(bs[..k]), Indices(bs[k]), AllIndices(bs[k + 1..]));
    OneBurstEvents(bs[k]);
  }

  lemma InRangeAround(bs: seq<RowBurst>, k: nat)
    requires k < |bs| && AllInRange(bs)
    ensures AllInRange(bs[..k]) && AllInRange(bs[k + 1..]) && InRange(bs[k])
  {
    hide InRange;
  }

  lemma IndicesSplit(bs: seq<RowBurst>, k: nat)
    requires k < |bs|
    ensures AllIndices(bs) == AllIndices(bs[..k]) + [Indices(bs[k])] + AllIndices(bs[k + 1..])
  {
    hide Indices;
  }

  lemma OneBurstEvents(b: RowBurst)
    requires InRange(b)
    ensures Small(Indices(b)) && BurstEvents(Indices(b)) == RowEvents(b.row, b.cols)
  {
    hide RowEvents;
    assert Columns(Indices(b)) == b.cols;
  }

  // ---------------- A lost column ----------------

  /** Where column `j` of burst `k` is among the sensor's words. */
  function ColumnAt(bs: seq<RowBurst>, k: nat, j: nat): nat
    requires k < |bs|
  {
    RowAt(bs, k) + 1 + j
  }

  /** A lost column word costs its own event and nothing else. */
  lemma LostColumn(bs: seq<RowBurst>, k: nat, j: nat)
    requires k < |bs| && AllInRange(bs) && j < |bs[k].cols|
    ensures ColumnAt(bs, k, j) < |SensorWords(bs)| && SensorWords(bs)[ColumnAt(bs, k, j)] == WordOf(bs[k].cols[j])
    ensures var b, shown := bs[k], Events(INITIAL, DecodeAll(RemoveAt(SensorWords(bs), ColumnAt(bs, k, j))));
      && shown == Pairs(bs[..k]) + RowEvents(b.row, b.cols[..j] + b.cols[j + 1..]) + Pairs(bs[k + 1..])
      && Subsequence(shown, Pairs(bs)) && |shown| == |Pairs(bs)| - 1
  {
    hide *;
    var b, before, after := bs[k], AllIndices(bs[..k]), AllIndices(bs[k + 1..]);
    var left := RowBurst(b.row, b.cols[..j] + b.cols[j + 1..]);
    IndicesAround(bs, k);
    InRangeAround(bs, k);
    ColumnRemoved(before, b, j, after);
    SensorWordsAre(bs);
    SensorWordsAre(bs[..k]);
    RowAtIs(bs, k);
    ColumnAtIs(bs, k, j);
    FewerInRange(b, j);
    OneBurstEvents(left);
    SmallAround(before, Indices(left), after);
    WireWordsAssemble(before + [Indices(left)] + after, []);
    Around(before, Indices(left), after);
    WithoutOne(b.cols, j);
    FewerColumnsFewerEvents(b.row, left.cols, b.cols);
    SubsequenceBetween(Pairs(bs[..k]), RowEvents(b.row, left.cols), RowEvents(b.row, b.cols), Pairs(bs[k + 1..]));
  }

  lemma ColumnAtIs(bs: seq<RowBurst>, k: nat, j: nat)
    requires k < |bs|
    ensures ColumnAt(bs, k, j) == RowAt(bs, k) + 1 + j
  {
  }

  lemma FewerInRange(b: RowBurst, j: nat)
    requires InRange(b) && j < |b.cols|
    ensures InRange(RowBurst(b.row, b.cols[..j] + b.cols[j + 1..]))
  {
  }

  lemma WithoutOne<T>(xs: seq<T>, j: nat)
    requires j < |xs|
    ensures Subsequence(xs[..j] + xs[j + 1..], xs)
  {
    hide Subsequence;
    var before, after := xs[..j], xs[j + 1..];
    NoneAreSubsequence([xs[j]]);
    SubsequenceBetween(before, [], [xs[j]], after);
    assert before + [] + after == before + after && before + [xs[j]] + after == xs;
  }

  lemma ColumnRemoved(before: seq<seq<U8>>, b: RowBurst, j: nat, after: seq<seq<U8>>)
    requires j < |b.cols|
    ensures var ws, p := WireWords(before + [Indices(b)] + after, []), |WireWords(before, [])| + 1 + j;
      && p < |ws| && ws[p] == WordOf(b.cols[j])
      && RemoveAt(ws, p)
         == WireWords(before + [Indices(RowBurst(b.row, b.cols[..j] + b.cols[j + 1..]))] + after, [])
  {
    hide WordOf, WordsOf, WireWords, AllEvents, BurstEvents;
    var left := RowBurst(b.row, b.cols[..j] + b.cols[j + 1..]);
    var ix, front, back := Indices(b), [b.row] + b.cols[..j], b.cols[j + 1..];
    assert ix == front + [b.cols[j]] + back && Indices(left) == front + back;
    Around(before, ix, after);
    Around(before, Indices(left), after);
    WordsOfAppend(front + [b.cols[j]], back);
    WordsOfAppend(front, [b.cols[j]]);
    WordsOfAppend(front, back);
    WordsOfLength(front);
    OneWord(b.cols[j]);
    var first, last, tail := WireWords(before, []), WireWords(after, []), [WordOf(TAIL_PAYLOAD)];
    RemoveInside(first, WordsOf(front), WordOf(b.cols[j]), WordsOf(back) + tail, last);
  }

  lemma RemoveInside(a: seq<U32>, b: seq<U32>, w: U32, c: seq<U32>, d: seq<U32>)
    ensures var ws := a + (b + [w] + c) + d;
      ws[|a| + |b|] == w && RemoveAt(ws, |a| + |b|) == a + (b + c) + d
  {
  }

  // ---------------- A lost row ----------------

  /** Without its row word a burst is read as one whose row is its first column. What is shown is
      among what the sensor reported exactly if no column is left to be misplaced, or the row
      misread is the right one. */
  lemma LostRowReframes(bs: seq<RowBurst>, k: nat)
    requires k < |bs| && AllInRange(bs)
    ensures RowAt(bs, k) < |SensorWords(bs)| && SensorWords(bs)[RowAt(bs, k)] == WordOf(bs[k].row)
    ensures var b, shown := bs[k], Events(INITIAL, DecodeAll(RemoveAt(SensorWords(bs), RowAt(bs, k))));
      && shown == Pairs(bs[..k]) + BurstEvents(b.cols) + Pairs(bs[k + 1..])
      && (Subsequence(shown, Pairs(bs)) <==> |b.cols| <= 1 || b.cols[0] == b.row)
  {
    hide *;
    var b, before, after := bs[k], AllIndices(bs[..k]), AllIndices(bs[k + 1..]);
    IndicesAround(bs, k);
    RowRemoved(before, b, after);
    SensorWordsAre(bs);
    SensorWordsAre(bs[..k]);
    assert RowAt(bs, k) == |WireWords(before, [])| by { RowAtIs(bs, k); }
    ColumnsAreSmall(b);
    SmallAround(before, b.cols, after);
    WireWordsAssemble(before + [b.cols] + after, []);
    Around(before, b.cols, after);
    SubsequenceBetween(Pairs(bs[..k]), BurstEvents(b.cols), RowEvents(b.row, b.cols), Pairs(bs[k + 1..]));
    InRangeAround(bs, k);
    MisreadRow(b);
  }

  lemma SensorWordsAre(bs: seq<RowBurst>)
    ensures SensorWords(bs) == WireWords(AllIndices(bs), [])
  {
  }

  lemma RowAtIs(bs: seq<RowBurst>, k: nat)
    requires k < |bs|
    ensures RowAt(bs, k) == |SensorWords(bs[..k])| && TailAt(bs, k) == RowAt(bs, k) + 1 + |bs[k].cols|
  {
  }

  lemma ColumnsAreSmall(b: RowBurst)
    requires Small(Indices(b))
    ensures Small(b.cols) && Small([])
  {
    forall i | 0 <= i < |b.cols| ensures b.cols[i] < 32 {
      assert b.cols[i] == Indices(b)[i + 1];
    }
  }

  lemma SmallAround(before: seq<seq<U8>>, ix: seq<U8>, after: seq<seq<U8>>)
    requires AllSmall(before) && Small(ix) && AllSmall(after)
    ensures AllSmall(before + [ix] + after) && Small([])
  {
    hide Small;
    assert Small([]) by { NothingIsSmall(); }
  }

  lemma NothingIsSmall()
    ensures Small([])
  {
  }

  lemma RowRemoved(before: seq<seq<U8>>, b: RowBurst, after: seq<seq<U8>>)
    ensures var ws, p := WireWords(before + [Indices(b)] + after, []), |WireWords(before, [])|;
      && p < |ws| && ws[p] == WordOf(b.row)
      && RemoveAt(ws, p) == WireWords(before + [b.cols] + after, [])
  {
    hide WordOf, WordsOf, WireWords, AllEvents, BurstEvents;
    Around(before, Indices(b), after);
    Around(before, b.cols, after);
    WordsOfAppend([b.row], b.cols);
    OneWord(b.row);
  }

  lemma MisreadRow(b: RowBurst)
    requires InRange(b)
    ensures Subsequence(BurstEvents(b.cols), RowEvents(b.row, b.cols)) <==> |b.cols| <= 1 || b.cols[0] == b.row
  {
    hide RowEvents;
    if |b.cols| <= 1 {
      assert |b.cols| == 1 ==> |Columns(b.cols)| == 0;
      assert BurstEvents(b.cols) == [];
    } else {
      var later := b.cols[1..];
      assert Columns(b.cols) == later;
      if b.cols[0] == b.row {
        assert [b.cols[0]] + later == b.cols;
        SubsequenceReflexive(later);
        SubsequenceAppend([], [b.cols[0]], later, later);
        assert [] + later == later;
        FewerColumnsFewerEvents(b.row, later, b.cols);
      } else if Subsequence(RowEvents(b.cols[0], later), RowEvents(b.row, b.cols)) {
        OtherRow(b.cols[0], later, b.row, b.cols);
      }
    }
  }

  lemma {:induction false} EventsHaveRow(row: U8, cols: seq<U8>)
    ensures forall i :: 0 <= i < |cols| ==> RowEvents(row, cols)[i] == Event(row, cols[i])
  {
    if cols != [] {
      EventsHaveRow(row, cols[..|cols| - 1]);
    }
  }

  /** Events of one row are not among those of another. */
  lemma OtherRow(r: U8, xs: seq<U8>, q: U8, ys: seq<U8>)
    requires r != q && Subsequence(RowEvents(r, xs), RowEvents(q, ys))
    ensures xs == []
  {
    hide RowEvents;
    EventsHaveRow(r, xs);
    EventsHaveRow(q, ys);
    if xs != [] {
      var e := RowEvents(r, xs)[0];
      assert e in RowEvents(r, xs) && e.row == r;
      SubsequenceBounds(RowEvents(r, xs), RowEvents(q, ys));
    }
  }

  // ---------------- A lost tail ----------------

  /** The first 32 columns of a burst that runs into the next one. */
  function Merged(b: RowBurst, c: RowBurst): seq<U8> {
    Columns(Indices(b) + Indices(c))
  }

  /** The merged burst shows nothing new: it was full already, or the next burst has the same row
      and, cut short, still contains its own row as a column ahead of the columns kept. */
  ghost predicate TailExpendable(b: RowBurst, c: RowBurst) {
    || |b.cols| == COLS
    || (&& |b.cols| < COLS && c.row == b.row && COLS - |b.cols| <= |c.cols|
        && Subsequence([c.row] + c.cols[..COLS - 1 - |b.cols|], c.cols))
  }

  /** Without its tail a burst runs into the next, and both are cut to 32 columns; without the last
      tail the last burst stays open and only its own events are missing. */
  lemma LostTailMerges(bs: seq<RowBurst>, k: nat)
    requires k < |bs| && AllInRange(bs)
    ensures TailAt(bs, k) < |SensorWords(bs)| && SensorWords(bs)[TailAt(bs, k)] == WordOf(TAIL_PAYLOAD)
    ensures var shown := Events(INITIAL, DecodeAll(RemoveAt(SensorWords(bs), TailAt(bs, k))));
      && shown == (if k == |bs| - 1 then Pairs(bs[..k])
                   else Pairs(bs[..k]) + RowEvents(bs[k].row, Merged(bs[k], bs[k + 1])) + Pairs(bs[k + 2..]))
      && (Subsequence(shown, Pairs(bs)) <==> k == |bs| - 1 || TailExpendable(bs[k], bs[k + 1]))
  {
    hide *;
    var b, before, after := bs[k], AllIndices(bs[..k]), AllIndices(bs[k + 1..]);
    IndicesAround(bs, k);
    TailRemoved(before, b, after);
    SensorWordsAre(bs);
    SensorWordsAre(bs[..k]);
    RowAtIs(bs, k);
    if k == |bs| - 1 {
      assert after == [] by { NoIndices(bs[k + 1..]); }
      WireWordsAssemble(before, Indices(b));
      NoPairs(bs[k + 1..]);
      SubsequenceReflexive(Pairs(bs[..k]));
      NoneAreSubsequence(RowEvents(b.row, b.cols));
      SubsequenceAppend(Pairs(bs[..k]), Pairs(bs[..k]), [], RowEvents(b.row, b.cols));
      assert Pairs(bs[..k]) + [] == Pairs(bs[..k]);
      assert Pairs(bs[..k]) + RowEvents(b.row, b.cols) + [] == Pairs(bs[..k]) + RowEvents(b.row, b.cols);
    } else {
      LostInnerTail(bs, k);
    }
  }

  lemma NoIndices(bs: seq<RowBurst>)
    requires bs == []
    ensures AllIndices(bs) == []
  {
  }

  lemma NoPairs(bs: seq<RowBurst>)
    requires bs == []
    ensures Pairs(bs) == []
  {
  }

  lemma NoneAreSubsequence<T>(ys: seq<T>)
    ensures Subsequence([], ys)
  {
  }

  lemma TailRemoved(before: seq<seq<U8>>, b: RowBurst, after: seq<seq<U8>>)
    ensures var ws, p := WireWords(before + [Indices(b)] + after, []), |WireWords(before, [])| + 1 + |b.cols|;
      && p < |ws| && ws[p] == WordOf(TAIL_PAYLOAD)
      && RemoveAt(ws, p) == (if after == [] then WireWords(before, Indices(b))
                             else WireWords(before + [Indices(b) + after[0]] + after[1..], []))
  {
    hide WordOf, WordsOf, AllEvents, BurstEvents, WireWords;
    var ix, tail := Indices(b), WordOf(TAIL_PAYLOAD);
    var first, last := WireWords(before, []), WireWords(after, []);
    Around(before, ix, after);
    WordsOfLength(ix);
    RemoveBetween(first + WordsOf(ix), tail, last);
    assert first + (WordsOf(ix) + [tail]) + last == first + WordsOf(ix) + [tail] + last;
    if after == [] {
      OpenWire(ix);
      OpenWire([]);
      WireAppend(before, [], ix);
      assert before + [] == before && first + WordsOf(ix) + [] == first + WordsOf(ix);
    } else {
      WireMerged(before, ix, after);
    }
  }

  lemma RemoveBetween(xs: seq<U32>, w: U32, ys: seq<U32>)
    ensures (xs + [w] + ys)[|xs|] == w && RemoveAt(xs + [w] + ys, |xs|) == xs + ys
  {
  }

  lemma WireMerged(before: seq<seq<U8>>, ix: seq<U8>, after: seq<seq<U8>>)
    requires after != []
    ensures WireWords(before, []) + WordsOf(ix) + WireWords(after, [])
            == WireWords(before + [ix + after[0]] + after[1..], [])
  {
    hide WordOf, WordsOf, AllEvents, BurstEvents, WireWords;
    var next, tail := after[0], [WordOf(TAIL_PAYLOAD)];
    var first, rest := WireWords(before, []), WireWords(after[1..], []);
    assert after == [] + [next] + after[1..];
    Around([], next, after[1..]);
    OpenWire([]);
    NoWords();
    Around(before, ix + next, after[1..]);
    WordsOfAppend(ix, next);
    assert [] + (WordsOf(next) + tail) + rest == WordsOf(next) + tail + rest;
    Regroup(first, WordsOf(ix), WordsOf(next), tail, rest);
  }

  lemma Regroup(a: seq<U32>, b: seq<U32>, c: seq<U32>, d: seq<U32>, e: seq<U32>)
    ensures a + b + (c + d + e) == a + (b + c + d) + e
  {
  }

  lemma OpenWire(ix: seq<U8>)
    ensures WireWords([], []) == [] && WireWords([], ix) == WordsOf(ix)
  {
  }

  lemma LostInnerTail(bs: seq<RowBurst>, k: nat)
    requires k < |bs| - 1 && AllInRange(bs)
    requires TailAt(bs, k) < |SensorWords(bs)|
    requires RemoveAt(SensorWords(bs), TailAt(bs, k))
             == WireWords(AllIndices(bs[..k]) + [Indices(bs[k]) + AllIndices(bs[k + 1..])[0]]
                          + AllIndices(bs[k + 1..])[1..], [])
    ensures var shown := Events(INITIAL, DecodeAll(RemoveAt(SensorWords(bs), TailAt(bs, k))));
      && shown == Pairs(bs[..k]) + RowEvents(bs[k].row, Merged(bs[k], bs[k + 1])) + Pairs(bs[k + 2..])
      && (Subsequence(shown, Pairs(bs)) <==> TailExpendable(bs[k], bs[k + 1]))
  {
    hide *;
    var b, c, before, after := bs[k], bs[k + 1], AllIndices(bs[..k]), AllIndices(bs[k + 2..]);
    IndicesAround(bs, k);
    InRangeAround(bs, k);
    InRangeAround(bs[k + 1..], 0);
    IndicesAround(bs[k + 1..], 0);
    assert bs[k + 1..][..0] == [] && bs[k + 1..][1..] == bs[k + 2..] && bs[k + 1..][0] == c;
    NoIndices([]);
    NoPairs([]);
    NothingBefore([Indices(c)], after);
    assert AllIndices(bs[k + 1..])[0] == Indices(c) && AllIndices(bs[k + 1..])[1..] == after;
    var ix := Indices(b) + Indices(c);
    BothSmall(Indices(b), Indices(c));
    SmallAround(before, ix, after);
    WireWordsAssemble(before + [ix] + after, []);
    Around(before, ix, after);
    MergedEvents(b, c);
    var y1, y2, rest := RowEvents(b.row, b.cols), RowEvents(c.row, c.cols), Pairs(bs[k + 2..]);
    NothingBefore(y2, rest);
    Associative(Pairs(bs[..k]) + y1, y2, rest);
    Associative(Pairs(bs[..k]), y1, y2);
    SubsequenceBetween(Pairs(bs[..k]), BurstEvents(ix), y1 + y2, Pairs(bs[k + 2..]));
    MergeIsHarmlessIff(b, c);
  }

  lemma NothingBefore<T>(xs: seq<T>, ys: seq<T>)
    ensures [] + xs + ys == xs + ys
  {
  }

  lemma BothSmall(xs: seq<U8>, ys: seq<U8>)
    requires Small(xs) && Small(ys)
    ensures Small(xs + ys)
  {
  }

  lemma MergedEvents(b: RowBurst, c: RowBurst)
    ensures BurstEvents(Indices(b) + Indices(c)) == RowEvents(b.row, Merged(b, c))
  {
  }

  lemma {:induction false} RowEventsAppend(row: U8, xs: seq<U8>, ys: seq<U8>)
    ensures RowEvents(row, xs + ys) == RowEvents(row, xs) + RowEvents(row, ys)
  {
    if ys == [] {
      assert xs + ys == xs;
    } else {
      var m := |ys| - 1;
      assert (xs + ys)[..|xs + ys| - 1] == xs + ys[..m];
      RowEventsAppend(row, xs, ys[..m]);
    }
  }

  lemma {:induction false} FewerEventsFewerColumns(row: U8, xs: seq<U8>, ys: seq<U8>)
    requires Subsequence(RowEvents(row, xs), RowEvents(row, ys))
    ensures Subsequence(xs, ys)
    decreases |ys|
  {
    if xs != [] {
      var es, fs := RowEvents(row, xs), RowEvents(row, ys);
      assert ys != [];
      var k, m := |xs| - 1, |ys| - 1;
      assert fs[..m] == RowEvents(row, ys[..m]) && es[..k] == RowEvents(row, xs[..k]);
      if Subsequence(es, fs[..m]) {
        FewerEventsFewerColumns(row, xs, ys[..m]);
      } else {
        FewerEventsFewerColumns(row, xs[..k], ys[..m]);
      }
    }
  }

  lemma MergeIsHarmlessIff(b: RowBurst, c: RowBurst)
    requires InRange(b) && InRange(c)
    ensures Subsequence(RowEvents(b.row, Merged(b, c)), RowEvents(b.row, b.cols) + RowEvents(c.row, c.cols))
            <==> TailExpendable(b, c)
  {
    hide RowEvents, Subsequence;
    var y1, y2 := RowEvents(b.row, b.cols), RowEvents(c.row, c.cols);
    var n := |b.cols|;
    if n == COLS {
      assert Merged(b, c) == b.cols;
      SubsequenceReflexive(y1);
      NoneAreSubsequence(y2);
      SubsequenceAppend(y1, y1, [], y2);
      assert y1 + [] == y1;
    } else {
      var kept := Indices(c)[..Min(1 + |c.cols|, COLS - n)];
      MergedIs(b, c);
      RowEventsAppend(b.row, b.cols, kept);
      assert y1 + RowEvents(b.row, kept) + [] == y1 + RowEvents(b.row, kept) && y1 + y2 + [] == y1 + y2;
      SubsequenceBetween(y1, RowEvents(b.row, kept), y2, []);
      KeptIsHarmlessIff(b, c, kept);
    }
  }

  lemma MergedIs(b: RowBurst, c: RowBurst)
    requires |b.cols| < COLS
    ensures Merged(b, c) == b.cols + Indices(c)[..Min(1 + |c.cols|, COLS - |b.cols|)]
  {
    var ix, m := Indices(b) + Indices(c), Min(1 + |c.cols|, COLS - |b.cols|);
    assert Columns(ix) == ix[1..1 + |b.cols| + m];
  }

  lemma KeptIsHarmlessIff(b: RowBurst, c: RowBurst, kept: seq<U8>)
    requires |b.cols| < COLS && kept == Indices(c)[..Min(1 + |c.cols|, COLS - |b.cols|)]
    ensures Subsequence(RowEvents(b.row, kept), RowEvents(c.row, c.cols)) <==> TailExpendable(b, c)
  {
    hide RowEvents, Subsequence;
    if c.row != b.row {
      if Subsequence(RowEvents(b.row, kept), RowEvents(c.row, c.cols)) {
        OtherRow(b.row, kept, c.row, c.cols);
      }
    } else {
      if Subsequence(kept, c.cols) {
        SubsequenceBounds(kept, c.cols);
        FewerColumnsFewerEvents(c.row, kept, c.cols);
      }
      if Subsequence(RowEvents(c.row, kept), RowEvents(c.row, c.cols)) {
        FewerEventsFewerColumns(c.row, kept, c.cols);
      }
      if COLS - |b.cols| <= |c.cols| {
        assert kept == [c.row] + c.cols[..COLS - 1 - |b.cols|];
      }
    }
  }

  /** When no column is reported twice in a burst, as by the sensor, a tail is expendable only if its
      burst is full, or one short of full before a burst whose row is the same and one of its columns. */
  lemma ExpendableIffFull(b: RowBurst, c: RowBurst)
    requires InRange(b) && InRange(c)
    requires forall i, j :: 0 <= i < j < |c.cols| ==> c.cols[i] != c.cols[j]
    ensures TailExpendable(b, c) <==>
            |b.cols| == COLS || (|b.cols| == COLS - 1 && c.row == b.row && c.row in c.cols)
  {
    hide Subsequence;
    var d := c.cols;
    if |b.cols| < COLS && COLS - |b.cols| <= |d| {
      var q := COLS - 1 - |b.cols|;
      if Subsequence([c.row] + d[..q], d) {
        if q == 0 {
          SubsequenceBounds([c.row] + d[..q], d);
          assert ([c.row] + d[..q])[0] in d;
        } else {
          assert d == [d[0]] + d[1..];
          DropHeads(c.row, d[..q], d[0], d[1..]);
          assert d[..q][0] == d[0] && d[0] in d[..q];
          SubsequenceBounds(d[..q], d[1..]);
        }
      }
      if q == 0 && c.row in d {
        MemberIsSubsequence(c.row, d);
        assert [c.row] + d[..q] == [c.row];
      }
    }
  }

  lemma {:induction false} MemberIsSubsequence<T>(x: T, ys: seq<T>)
    requires x in ys
    ensures Subsequence([x], ys)
  {
    var m := |ys| - 1;
    assert ys == ys[..m] + [ys[m]];
    assert [x][..0] == [];
    if x in ys[..m] {
      MemberIsSubsequence(x, ys[..m]);
    } else {
      NoneAreSubsequence(ys[..m]);
    }
  }
}
