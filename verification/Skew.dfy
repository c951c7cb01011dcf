/** Exactly what a skewed bus can do to the words of the sensor, if every line has risen, or never will,
    by the time its word is withdrawn. The source promises delivery without
    timing assumptions (README.md:94-119 of the firmware), but its receiver latches as soon as any line
    is high: these lemmas say when whole words are delivered, and that every tearing happens. */
module Skew {
  import opened Words
  import opened UsbStream
  import opened Link

  lemma Start(bus: Bus, ticks: nat -> U32, words: seq<U32>, plan: seq<U32>, capacity: nat, usb: Usb)
    requires Parts(bus, words, plan)
    ensures var s := Initial(words, capacity, usb);
      Run(bus, ticks, s, [], s) && OnPlan(words, plan, s)
  {
  }

  /** What the receiver may have latched once all is quiet: any part of each word that is not empty,
      in every combination, and nothing else; on an atomic bus the words themselves. */
  lemma OutcomesAreParts(bus: Bus, ticks: nat -> U32, words: seq<U32>, capacity: nat, usb: Usb, plan: seq<U32>)
    requires Sendable(words) && capacity >= 2
    ensures (exists actions, s ::
               Run(bus, ticks, Initial(words, capacity, usb), actions, s) && Quiescent(s) && s.main.rx.latched == plan)
            <==> Parts(bus, words, plan)
  {
    hide Run, Initial, Quiescent, Faithful, SubMask;
    if actions, s :| Run(bus, ticks, Initial(words, capacity, usb), actions, s) && Quiescent(s)
                     && s.main.rx.latched == plan {
      ExactlyOnce(bus, ticks, words, capacity, usb, actions, s);
      QuietMeansPeek(s);
    }
    if Parts(bus, words, plan) {
      var _, _ := Carried(bus, ticks, words, capacity, usb, plan);
    }
  }

  lemma QuietMeansPeek(s: Sys)
    requires Quiescent(s)
    ensures s.main.pc.Peek?
  {
  }

  /** The run that realises a plan. */
  lemma Carried(bus: Bus, ticks: nat -> U32, words: seq<U32>, capacity: nat, usb: Usb, plan: seq<U32>)
    returns (actions: seq<Action>, s: Sys)
    requires Sendable(words) && capacity >= 2 && Parts(bus, words, plan)
    ensures Run(bus, ticks, Initial(words, capacity, usb), actions, s) && Quiescent(s)
    ensures s.main.rx.latched == plan && s.main.fed == plan
  {
    hide *;
    Start(bus, ticks, words, plan, capacity, usb);
    actions, s := FollowPlan(bus, ticks, words, plan, capacity, usb, [], Initial(words, capacity, usb));
    assert [] + actions == actions;
  }

  /** Lowest line of a word. */
  function LowestLine(w: nat): nat {
    if w == 0 then 0 else if w % 2 == 1 then 1 else 2 * LowestLine(w / 2)
  }

  lemma {:induction false} LowestLineIsPart(w: nat)
    requires w > 0
    ensures SubMask(LowestLine(w), w) && Pop(LowestLine(w)) == 1 && 0 < LowestLine(w) <= w
  {
    if w % 2 == 0 {
      LowestLineIsPart(w / 2);
      PopHalves(LowestLine(w));
    } else {
      assert Pop(1) == 1 + Pop(0) && Pop(0) == 0;
      assert SubMask(0, w / 2);
    }
  }

  /** The words with word `i` torn down to one line. */
  function TornAt(words: seq<U32>, i: nat): seq<U32>
    requires i < |words| && 0 !in words
  {
    LowestLineIsPart(words[i]);
    words[i := LowestLine(words[i])]
  }

  lemma TornIsPossible(words: seq<U32>, i: nat)
    requires Sendable(words) && i < |words|
    ensures Parts(Skewed, words, TornAt(words, i))
    ensures Pop(words[i]) != 1 ==> TornAt(words, i) != words
  {
    hide SubMask, Pop;
    LowestLineIsPart(words[i]);
    forall j | 0 <= j < |words| ensures TornAt(words, i)[j] != 0 && SubMask(TornAt(words, i)[j], words[j]) {
      SubMaskReflexive(words[j]);
    }
  }

  /** Whole words are delivered in every run exactly on an atomic bus, or if no word raises more
      than one line. */
  lemma WholeWordsIff(bus: Bus, ticks: nat -> U32, words: seq<U32>, capacity: nat, usb: Usb)
    requires Sendable(words) && capacity >= 2
    ensures (forall actions, s ::
               Run(bus, ticks, Initial(words, capacity, usb), actions, s) ==> s.main.rx.latched <= words)
            <==> bus == Atomic || forall i :: 0 <= i < |words| ==> Pop(words[i]) == 1
  {
    hide Run, Initial, Pop, SubMask, LowestLine;
    if bus == Atomic || forall i :: 0 <= i < |words| ==> Pop(words[i]) == 1 {
      forall actions, s | Run(bus, ticks, Initial(words, capacity, usb), actions, s)
        ensures s.main.rx.latched <= words
      {
        ExactlyOnce(bus, ticks, words, capacity, usb, actions, s);
        SingleLinesAreWhole(bus, words, s.main.rx.latched);
      }
    } else {
      var i :| 0 <= i < |words| && Pop(words[i]) != 1;
      TornIsPossible(words, i);
      var actions, s := Carried(bus, ticks, words, capacity, usb, TornAt(words, i));
      assert !(s.main.rx.latched <= words);
    }
  }

  lemma SingleLinesAreWhole(bus: Bus, words: seq<U32>, latched: seq<U32>)
    requires Faithful(bus, words, latched)
    requires bus == Atomic || forall i :: 0 <= i < |words| ==> Pop(words[i]) == 1
    ensures latched <= words
  {
    hide SubMask, Pop;
    if bus == Skewed {
      forall i | 0 <= i < |latched| ensures latched[i] == words[i] {
        PopZero(latched[i]);
        SubMaskPop(latched[i], words[i]);
      }
    }
  }
}
