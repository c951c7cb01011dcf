/** What skew costs the host: exactly when every pixel gets through, and the runs in which one does not. */
module SkewCost {
  import opened Words
  import opened UsbStream
  import opened Codec
  import opened EndToEnd
  import Burst
  import Link
  import Skew
  import Loss

  /** All pixels get through in every run exactly on an atomic bus, or if there is at most one burst
      and it has none: with more to lose, some run on a skewed bus tears the word that matters. */
  lemma AllPixelsIff(bus: Link.Bus, ticks: nat -> U32, bs: seq<Burst.RowBurst>, capacity: nat, usb: Usb)
    requires Burst.AllInRange(bs) && capacity >= 2 && Listening(usb)
    ensures (forall actions, s :: Reaches(bus, ticks, bs, capacity, usb, actions, s) && Link.Quiescent(s) ==>
               Shown(s) == Burst.Pairs(bs))
            <==> bus == Link.Atomic || (|bs| <= 1 && Burst.Pairs(bs) == [])
  {
    hide *;
    if bus == Link.Atomic || (|bs| <= 1 && Burst.Pairs(bs) == []) {
      forall actions, s | Reaches(bus, ticks, bs, capacity, usb, actions, s) && Link.Quiescent(s)
        ensures Shown(s) == Burst.Pairs(bs)
      {
        ShownIsFed(bus, ticks, bs, capacity, usb, actions, s);
        if bus == Link.Atomic {
          AllIsFed(ticks, bs, capacity, usb, actions, s);
        } else {
          WireHoldsEvents(bus, ticks, bs, capacity, usb, actions, s);
          NothingToShow(bs, s.main.fed);
        }
      }
    } else {
      var i := WordThatMatters(bs);
      var actions, s := TornRun(ticks, bs, capacity, usb, i);
      BusIsSkewed(bus);
      assert Shown(s) != Burst.Pairs(bs);
    }
  }

  lemma BusIsSkewed(bus: Link.Bus)
    ensures bus == Link.Atomic || bus == Link.Skewed
  {
  }

  /** A row without columns and its tail show nothing, torn or not. */
  lemma NothingToShow(bs: seq<Burst.RowBurst>, fed: seq<U32>)
    requires Burst.AllInRange(bs) && |bs| <= 1 && Burst.Pairs(bs) == [] && |fed| == |Burst.SensorWords(bs)|
    ensures Burst.Events(Burst.INITIAL, Burst.DecodeAll(fed)) == []
  {
    hide *;
    AtMostTwoWords(bs);
    TwoWordsShowNothing(fed);
  }

  lemma AtMostTwoWords(bs: seq<Burst.RowBurst>)
    requires |bs| <= 1 && Burst.Pairs(bs) == []
    ensures |Burst.SensorWords(bs)| <= 2
  {
    hide Burst.WordsOf;
    Loss.NoWords();
    if |bs| == 1 {
      var b := bs[0];
      assert bs[..0] == [] && Burst.Pairs([]) == [];
      assert Burst.Pairs(bs) == Burst.RowEvents(b.row, b.cols);
      assert Burst.AllIndices(bs) == [Burst.Indices(b)];
      assert |Burst.Indices(b)| == 1;
      Loss.Around([], Burst.Indices(b), []);
      Loss.WordsOfLength(Burst.Indices(b));
      assert [] + [Burst.Indices(b)] + [] == [Burst.Indices(b)];
    }
  }

  lemma TwoWordsShowNothing(fed: seq<U32>)
    requires |fed| <= 2
    ensures Burst.Events(Burst.INITIAL, Burst.DecodeAll(fed)) == []
  {
    hide DecodeRaw, Burst.Run, Burst.Events, Burst.DecodeAll;
    if fed == [] {
      Burst.DecodesNothing(Burst.INITIAL);
    } else {
      Burst.FeedLast(Burst.INITIAL, [], fed[0]);
      Burst.DecodesNothing(Burst.INITIAL);
      assert [] + [fed[0]] == fed[..1];
      if |fed| == 2 {
        Burst.FeedLast(Burst.INITIAL, fed[..1], fed[1]);
        assert fed[..1] + [fed[1]] == fed;
      } else {
        assert fed[..1] == fed;
      }
    }
  }

  /** A run in which the receiver latches one line of word `i` and all of the others. */
  lemma TornRun(ticks: nat -> U32, bs: seq<Burst.RowBurst>, capacity: nat, usb: Usb, i: nat)
    returns (actions: seq<Link.Action>, s: Link.Sys)
    requires Burst.AllInRange(bs) && capacity >= 2 && Listening(usb) && i < |Burst.SensorWords(bs)|
    ensures Reaches(Link.Skewed, ticks, bs, capacity, usb, actions, s) && Link.Quiescent(s)
    ensures Shown(s) == Burst.Events(Burst.INITIAL, Burst.DecodeAll(Loss.RemoveAt(Burst.SensorWords(bs), i)))
  {
    hide *;
    var words := Burst.SensorWords(bs);
    SensorIsSendable(bs);
    Sendable(words);
    Skew.TornIsPossible(words, i);
    var plan := Skew.TornAt(words, i);
    actions, s := Skew.Carried(Link.Skewed, ticks, words, capacity, usb, plan);
    RunReaches(Link.Skewed, ticks, bs, capacity, usb, actions, s);
    ShownIsFed(Link.Skewed, ticks, bs, capacity, usb, actions, s);
    Burst.SensorWordsRange(bs);
    TornIsLost(words, i);
  }

  lemma Sendable(words: seq<U32>)
    requires Link.Sendable(words)
    ensures 0 !in words
  {
  }

  lemma TornIsLost(words: seq<U32>, i: nat)
    requires i < |words| && 0 !in words && Burst.OnBus(words[i])
    ensures Burst.Events(Burst.INITIAL, Burst.DecodeAll(Skew.TornAt(words, i)))
            == Burst.Events(Burst.INITIAL, Burst.DecodeAll(Loss.RemoveAt(words, i)))
  {
    hide Burst.Events, Burst.DecodeAll, Burst.Run, Burst.Step, Burst.Emits, DecodeRaw;
    var before, part, after := words[..i], Skew.LowestLine(words[i]), words[i + 1..];
    Skew.LowestLineIsPart(words[i]);
    OneLineIsRejected(words[i]);
    assert Skew.TornAt(words, i) == before + [part] + after;
    Burst.FeedLast(Burst.INITIAL, before, part);
    Burst.Ignored(Burst.Run(Burst.INITIAL, Burst.DecodeAll(before)), DecodeRaw(part));
    EventsAfter(before + [part], after);
    EventsAfter(before, after);
  }

  lemma EventsAfter(before: seq<U32>, after: seq<U32>)
    ensures var b := Burst.Run(Burst.INITIAL, Burst.DecodeAll(before));
      Burst.Events(Burst.INITIAL, Burst.DecodeAll(before + after))
      == Burst.Events(Burst.INITIAL, Burst.DecodeAll(before)) + Burst.Events(b, Burst.DecodeAll(after))
  {
    hide Burst.Events, Burst.DecodeAll, Burst.Run;
    Burst.DecodeAllAppend(before, after);
    Burst.RunAppend(Burst.INITIAL, Burst.DecodeAll(before), Burst.DecodeAll(after));
  }

  lemma OneLineIsRejected(w: U32)
    requires Burst.OnBus(w)
    ensures !DecodeRaw(Skew.LowestLine(w)).ok
  {
    hide Skew.LowestLine, ValidWord, Payload, HasZeroGroup, HasMultiGroup, Pop;
    Skew.LowestLineIsPart(w);
    FirmwareSizes();
    var part := Skew.LowestLine(w);
    SmallMod(part, BUS);
    if ValidWord(part, GROUPS) {
      ValidPop(part, GROUPS);
    }
  }

  /** A word whose loss is seen: a column, or the tail between two bursts without any. */
  lemma WordThatMatters(bs: seq<Burst.RowBurst>) returns (i: nat)
    requires Burst.AllInRange(bs) && !(|bs| <= 1 && Burst.Pairs(bs) == [])
    ensures i < |Burst.SensorWords(bs)|
    ensures Burst.Events(Burst.INITIAL, Burst.DecodeAll(Loss.RemoveAt(Burst.SensorWords(bs), i))) != Burst.Pairs(bs)
  {
    hide *;
    if Burst.Pairs(bs) != [] {
      var k := BurstWithColumns(bs);
      Loss.LostColumn(bs, k, 0);
      Loss.IndicesAround(bs, k);
      i := Loss.ColumnAt(bs, k, 0);
    } else {
      Loss.LostTailMerges(bs, 0);
      i := Loss.TailAt(bs, 0);
      MergedIsSomething(bs[0], bs[1]);
    }
  }

  lemma MergedIsSomething(b: Burst.RowBurst, c: Burst.RowBurst)
    ensures |Loss.Merged(b, c)| > 0
  {
  }

  lemma {:induction false} BurstWithColumns(bs: seq<Burst.RowBurst>) returns (k: nat)
    requires Burst.Pairs(bs) != []
    ensures k < |bs| && bs[k].cols != []
  {
    k := |bs| - 1;
    if bs[k].cols == [] {
      k := BurstWithColumns(bs[..k]);
    }
  }
}
