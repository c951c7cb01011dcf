/** From the sensor's bursts to the host's list of events, through every stage at once. */
module EndToEnd {
  import opened Words
  import opened Framing
  import opened UsbStream
  import Burst
  import Codec
  import Loss
  import MainLoop
  import Link
  import Fairness
  import Viewer

  /** A device whose port is open; whatever it wrote before holds no packet magic. */
  ghost predicate Listening(usb: Usb) {
    Reliable(usb.port) && MagicFree(usb.port.wire)
  }

  /** `s` is reached, by some interleaving, by a sensor sending `bs` and the firmware's main loop. */
  ghost predicate Reaches(bus: Link.Bus, ticks: nat -> U32, bs: seq<Burst.RowBurst>, capacity: nat, usb: Usb,
                          actions: seq<Link.Action>, s: Link.Sys)
  {
    && Burst.AllInRange(bs) && capacity >= 2 && Listening(usb)
    && Link.Run(bus, ticks, Link.Initial(Burst.SensorWords(bs), capacity, usb), actions, s)
  }

  /** All bytes written to the USB port so far. */
  function Wire(s: Link.Sys): seq<U8> {
    if s.main.out.usb.Some? then s.main.out.usb.value.port.wire else []
  }

  lemma SensorIsSendable(bs: seq<Burst.RowBurst>)
    requires Burst.AllInRange(bs)
    ensures Link.Sendable(Burst.SensorWords(bs))
  {
    Burst.SensorWordsRange(bs);
    var ws := Burst.SensorWords(bs);
    forall i | 0 <= i < |ws| ensures ws[i] != 0 {
      assert Burst.OnBus(ws[i]);
    }
  }

  /** At every moment, on either bus, the wire holds after what was there before exactly one
      packet per event of the words fed so far; the ring is empty at every peek and nothing was
      ever dropped. On an atomic bus those words are the first of the sensor's. */
  lemma WireHoldsEvents(bus: Link.Bus, ticks: nat -> U32, bs: seq<Burst.RowBurst>, capacity: nat, usb: Usb,
                        actions: seq<Link.Action>, s: Link.Sys)
    requires Reaches(bus, ticks, bs, capacity, usb, actions, s)
    ensures var es := Burst.Events(Burst.INITIAL, Burst.DecodeAll(s.main.fed));
      && Wire(s) == usb.port.wire + Frames(PacketsSince(ticks, usb, es))
      && (bus == Link.Atomic ==> s.main.fed <= Burst.SensorWords(bs))
      && s.main.rx.droppedFull == 0
      && (s.main.pc == MainLoop.Peek ==> s.main.rx.ring == [])
      && (Link.Quiescent(s) ==> |s.main.fed| == |Burst.SensorWords(bs)|)
  {
    hide Burst.Events, Burst.DecodeAll, Burst.SensorWords, Link.Run, DeliverAll, Frames, PacketsFor, Framable;
    var words := Burst.SensorWords(bs);
    SensorIsSendable(bs);
    Link.Reachable(bus, ticks, words, capacity, usb, actions, s);
    Link.ExactlyOnce(bus, ticks, words, capacity, usb, actions, s);
    var es := Burst.Events(Burst.INITIAL, Burst.DecodeAll(s.main.fed));
    DeliveryWritesPackets(ticks, Silent(usb), es);
  }

  lemma HostSeesPrefix(xs: seq<Packet>, ys: seq<Packet>)
    requires xs <= ys
    ensures HostEvents(xs) <= HostEvents(ys)
  {
    HostEventsAppend(xs, ys[|xs|..]);
    assert xs + ys[|xs|..] == ys;
  }

  lemma EventsOfPrefix(fed: seq<U32>, words: seq<U32>)
    requires fed <= words
    ensures Burst.Events(Burst.INITIAL, Burst.DecodeAll(fed)) <= Burst.Events(Burst.INITIAL, Burst.DecodeAll(words))
  {
    hide Burst.Events, Burst.DecodeAll;
    var rest := words[|fed|..];
    assert fed + rest == words;
    Burst.DecodeAllAppend(fed, rest);
    Burst.RunAppend(Burst.INITIAL, Burst.DecodeAll(fed), Burst.DecodeAll(rest));
  }

  /** What the host has made of part of the bytes is the first of the events of the fed words. */
  lemma HostShowsPartOfFed(bus: Link.Bus, ticks: nat -> U32, bs: seq<Burst.RowBurst>, capacity: nat, usb: Usb,
                           actions: seq<Link.Action>, s: Link.Sys, chunks: seq<seq<U8>>)
    requires Reaches(bus, ticks, bs, capacity, usb, actions, s)
    requires Concat(chunks) <= Wire(s)
    ensures HostEvents(Feed([], chunks).packets) <= Burst.Events(Burst.INITIAL, Burst.DecodeAll(s.main.fed))
  {
    WireHoldsEvents(bus, ticks, bs, capacity, usb, actions, s);
    hide *;
    ReachesMeans(bus, ticks, bs, capacity, usb, actions, s);
    var es := Burst.Events(Burst.INITIAL, Burst.DecodeAll(s.main.fed));
    var ps := PacketsSince(ticks, usb, es);
    ShownSoFar(ticks, usb, es);
    assert Parse(Wire(s)) == ps && HostEvents(ps) == es;
    ChunkingPrefix(chunks, Wire(s));
    HostSeesPrefix(Feed([], chunks).packets, ps);
  }

  /** Safety, end to end: in every interleaving, at every moment, for every part of the USB bytes
      delivered so far and every way of cutting it into reads, the host shows a prefix of the
      pixels the sensor reported. */
  lemma HostNeverShowsAnythingElse(ticks: nat -> U32, bs: seq<Burst.RowBurst>, capacity: nat, usb: Usb,
                                   actions: seq<Link.Action>, s: Link.Sys, chunks: seq<seq<U8>>)
    requires Reaches(Link.Atomic, ticks, bs, capacity, usb, actions, s)
    requires Concat(chunks) <= Wire(s)
    ensures HostEvents(Feed([], chunks).packets) <= Burst.Pairs(bs)
  {
    WireHoldsEvents(Link.Atomic, ticks, bs, capacity, usb, actions, s);
    HostShowsPartOfFed(Link.Atomic, ticks, bs, capacity, usb, actions, s, chunks);
    hide *;
    ReachesMeans(Link.Atomic, ticks, bs, capacity, usb, actions, s);
    EventsOfPrefix(s.main.fed, Burst.SensorWords(bs));
    SensorShows(bs);
  }

  /** Lines that rise and fall one by one can only cost words, never change one: the events of the
      words received are those of the sensor's words with the torn ones left out. */
  lemma SkewOnlyTearsWords(bus: Link.Bus, ticks: nat -> U32, bs: seq<Burst.RowBurst>, capacity: nat, usb: Usb,
                           actions: seq<Link.Action>, s: Link.Sys)
    requires Reaches(bus, ticks, bs, capacity, usb, actions, s)
    ensures var words, fed := Burst.SensorWords(bs), s.main.fed;
      && |fed| <= |words|
      && Burst.Events(Burst.INITIAL, Burst.DecodeAll(fed))
         == Burst.Events(Burst.INITIAL, Burst.DecodeAll(Link.Survivors(words, fed)))
  {
    hide Burst.Events, Burst.DecodeAll, Burst.SensorWords, Link.Survivors, Link.Run, DeliverAll,
      MagicFree, Wire, Burst.InRange, Burst.AllInRange;
    var words := Burst.SensorWords(bs);
    SensorIsSendable(bs);
    Burst.SensorWordsRange(bs);
    Link.SkewSafety(bus, ticks, words, capacity, usb, actions, s);
    Link.EventsAreOfFed(bus, ticks, words, capacity, usb, actions, s);
  }

  /** So on any bus and at every moment, the host shows a prefix of the events of the words that
      were not torn. */
  lemma SkewOnlyLosesWords(bus: Link.Bus, ticks: nat -> U32, bs: seq<Burst.RowBurst>, capacity: nat, usb: Usb,
                           actions: seq<Link.Action>, s: Link.Sys, chunks: seq<seq<U8>>)
    requires Reaches(bus, ticks, bs, capacity, usb, actions, s)
    requires Concat(chunks) <= Wire(s)
    ensures var words, fed := Burst.SensorWords(bs), s.main.fed;
      && |fed| <= |words|
      && HostEvents(Feed([], chunks).packets)
         <= Burst.Events(Burst.INITIAL, Burst.DecodeAll(Link.Survivors(words, fed)))
  {
    hide *;
    HostShowsPartOfFed(bus, ticks, bs, capacity, usb, actions, s, chunks);
    SkewOnlyTearsWords(bus, ticks, bs, capacity, usb, actions, s);
  }

  lemma ReachesMeans(bus: Link.Bus, ticks: nat -> U32, bs: seq<Burst.RowBurst>, capacity: nat, usb: Usb,
                     actions: seq<Link.Action>, s: Link.Sys)
    requires Reaches(bus, ticks, bs, capacity, usb, actions, s)
    ensures Burst.AllInRange(bs) && Listening(usb)
  {
  }

  lemma SensorShows(bs: seq<Burst.RowBurst>)
    requires Burst.AllInRange(bs)
    ensures Burst.Events(Burst.INITIAL, Burst.DecodeAll(Burst.SensorWords(bs))) == Burst.Pairs(bs)
  {
    Burst.SensorWordsAssemble(bs);
  }

  /** The packets on the wire read back as the events that wrote them. */
  lemma ShownSoFar(ticks: nat -> U32, usb: Usb, es: seq<Event>)
    requires Listening(usb)
    ensures var ps := PacketsSince(ticks, usb, es);
      Parse(usb.port.wire + Frames(ps)) == ps && HostEvents(ps) == es
  {
    hide MagicFree, Parse, Frames, HostEvents, PacketsFor;
    ParseFrames(usb.port.wire, PacketsSince(ticks, usb, es));
    PacketsReadBack(ticks, usb.timestamps, usb.tickReads, es);
  }

  lemma ChunkingPrefix(chunks: seq<seq<U8>>, wire: seq<U8>)
    requires Concat(chunks) <= wire
    ensures Feed([], chunks).packets <= Parse(wire)
  {
    hide Feed, Parse, Concat;
    var bytes := Concat(chunks);
    ChunkingIndependent([], chunks);
    assert [] + bytes == bytes;
    ParseGrows(bytes, wire[|bytes|..]);
    assert bytes + wire[|bytes|..] == wire;
  }

  /** All bytes in, however they were cut into reads: a host whose reads go on timing out, like those of
      the printing tool, has shown exactly the events of the words fed. The viewer's do not: see
      `ViewerShowsAllIff`. */
  lemma HostShowsAllOfFed(bus: Link.Bus, ticks: nat -> U32, bs: seq<Burst.RowBurst>, capacity: nat, usb: Usb,
                          actions: seq<Link.Action>, s: Link.Sys, chunks: seq<seq<U8>>, idle: nat)
    requires Reaches(bus, ticks, bs, capacity, usb, actions, s)
    requires Concat(chunks) == Wire(s)
    requires idle >= |Burst.Events(Burst.INITIAL, Burst.DecodeAll(s.main.fed))|
    ensures HostEvents(Feed([], chunks + Empties(idle)).packets)
            == Burst.Events(Burst.INITIAL, Burst.DecodeAll(s.main.fed))
  {
    WireHoldsEvents(bus, ticks, bs, capacity, usb, actions, s);
    hide *;
    ReachesMeans(bus, ticks, bs, capacity, usb, actions, s);
    var es := Burst.Events(Burst.INITIAL, Burst.DecodeAll(s.main.fed));
    ShownSoFar(ticks, usb, es);
    PacketCount(ticks, usb, es);
    EveryChunkingYieldsTheParse(chunks, idle);
  }

  /** Once everything is quiet and all bytes are in, the host has shown exactly the sensor's pixels. */
  lemma HostShowsExactlyThePixels(ticks: nat -> U32, bs: seq<Burst.RowBurst>, capacity: nat, usb: Usb,
                                  actions: seq<Link.Action>, s: Link.Sys, chunks: seq<seq<U8>>, idle: nat)
    requires Reaches(Link.Atomic, ticks, bs, capacity, usb, actions, s) && Link.Quiescent(s)
    requires Concat(chunks) == Wire(s)
    requires idle >= |Burst.Pairs(bs)|
    ensures HostEvents(Feed([], chunks + Empties(idle)).packets) == Burst.Pairs(bs)
  {
    hide *;
    AllIsFed(ticks, bs, capacity, usb, actions, s);
    HostShowsAllOfFed(Link.Atomic, ticks, bs, capacity, usb, actions, s, chunks, idle);
  }

  lemma AllIsFed(ticks: nat -> U32, bs: seq<Burst.RowBurst>, capacity: nat, usb: Usb,
                 actions: seq<Link.Action>, s: Link.Sys)
    requires Reaches(Link.Atomic, ticks, bs, capacity, usb, actions, s) && Link.Quiescent(s)
    ensures s.main.fed == Burst.SensorWords(bs)
    ensures Burst.Events(Burst.INITIAL, Burst.DecodeAll(s.main.fed)) == Burst.Pairs(bs)
  {
    WireHoldsEvents(Link.Atomic, ticks, bs, capacity, usb, actions, s);
    hide *;
    ReachesMeans(Link.Atomic, ticks, bs, capacity, usb, actions, s);
    var words := Burst.SensorWords(bs);
    assert s.main.fed == words[..|words|] == words;
    SensorShows(bs);
  }

  /** The same on any bus: the host has shown exactly the events of the words that were not torn. */
  lemma HostShowsExactlyTheSurvivors(bus: Link.Bus, ticks: nat -> U32, bs: seq<Burst.RowBurst>, capacity: nat, usb: Usb,
                                     actions: seq<Link.Action>, s: Link.Sys, chunks: seq<seq<U8>>, idle: nat)
    requires Reaches(bus, ticks, bs, capacity, usb, actions, s) && Link.Quiescent(s)
    requires Concat(chunks) == Wire(s)
    requires idle >= |Burst.Events(Burst.INITIAL, Burst.DecodeAll(s.main.fed))|
    ensures var words, fed := Burst.SensorWords(bs), s.main.fed;
      && |fed| == |words|
      && HostEvents(Feed([], chunks + Empties(idle)).packets)
         == Burst.Events(Burst.INITIAL, Burst.DecodeAll(Link.Survivors(words, fed)))
  {
    hide *;
    WireHoldsEvents(bus, ticks, bs, capacity, usb, actions, s);
    HostShowsAllOfFed(bus, ticks, bs, capacity, usb, actions, s, chunks, idle);
    SkewOnlyTearsWords(bus, ticks, bs, capacity, usb, actions, s);
  }

  lemma PacketCount(ticks: nat -> U32, usb: Usb, es: seq<Event>)
    ensures |PacketsSince(ticks, usb, es)| == |es|
  {
  }

  /** And everything does become quiet: from any reachable state a bounded number of moves leads
      to the state the theorem above is about. */
  lemma EverythingCanBeDelivered(ticks: nat -> U32, bs: seq<Burst.RowBurst>, capacity: nat, usb: Usb,
                                 actions: seq<Link.Action>, s: Link.Sys)
    returns (more: seq<Link.Action>, quiet: Link.Sys)
    requires Reaches(Link.Atomic, ticks, bs, capacity, usb, actions, s)
    ensures Reaches(Link.Atomic, ticks, bs, capacity, usb, actions + more, quiet) && Link.Quiescent(quiet)
    ensures |more| <= Link.Measure(Burst.SensorWords(bs), s)
  {
    SensorIsSendable(bs);
    more, quiet := Link.CanFinish(Link.Atomic, ticks, Burst.SensorWords(bs), capacity, usb, actions, s);
  }

  /** What a host shows that has read all bytes written so far and taken every whole packet from them. */
  ghost function Shown(s: Link.Sys): seq<Event> {
    HostEvents(Parse(Wire(s)))
  }

  lemma ShownIsFed(bus: Link.Bus, ticks: nat -> U32, bs: seq<Burst.RowBurst>, capacity: nat, usb: Usb,
                   actions: seq<Link.Action>, s: Link.Sys)
    requires Reaches(bus, ticks, bs, capacity, usb, actions, s)
    ensures Shown(s) == Burst.Events(Burst.INITIAL, Burst.DecodeAll(s.main.fed))
  {
    WireHoldsEvents(bus, ticks, bs, capacity, usb, actions, s);
    hide Wire, HostEvents, Parse, Burst.Events, Burst.DecodeAll, Burst.SensorWords, Frames, PacketsFor, PacketsSince,
      MagicFree, Link.Run;
    ShownSoFar(ticks, usb, Burst.Events(Burst.INITIAL, Burst.DecodeAll(s.main.fed)));
  }

  /** Bytes of one event packet. */
  function PacketSize(usb: Usb): nat {
    HEADER_LENGTH + if usb.timestamps then 8 else 4
  }

  /** All bytes in: the pixels the viewer has shown are exactly the events of the words fed if and only if,
      counting bytes, after none of its reads more packets were still to come than reads. */
  lemma ViewerShowsAllIff(bus: Link.Bus, ticks: nat -> U32, bs: seq<Burst.RowBurst>, capacity: nat, usb: Usb,
                          actions: seq<Link.Action>, s: Link.Sys, made: seq<seq<U8>>)
    requires Reaches(bus, ticks, bs, capacity, usb, actions, s)
    requires Concat(made) == Wire(s)
    ensures var shown := Viewer.Pixels(Feed([], made).packets);
      var es := Burst.Events(Burst.INITIAL, Burst.DecodeAll(s.main.fed));
      && shown <= es
      && (shown == es <==>
          forall i :: 0 <= i <= |made| ==>
            PacketsIn(usb, |Wire(s)|) - PacketsIn(usb, |Concat(made[..i])|) <= |made| - i)
  {
    WireHoldsEvents(bus, ticks, bs, capacity, usb, actions, s);
    hide *;
    ReachesMeans(bus, ticks, bs, capacity, usb, actions, s);
    var es := Burst.Events(Burst.INITIAL, Burst.DecodeAll(s.main.fed));
    var ps := PacketsSince(ticks, usb, es);
    ShownSoFar(ticks, usb, es);
    Viewer.AllReturnedIff(made);
    EventsOnGrid(s.main.fed);
    PixelsOfPrefix(ticks, usb, es, Feed([], made).packets);
    WholeIsPacketsIn(ticks, usb, es, made);
  }

  /** Event packets in the first bytes of the wire. */
  function PacketsIn(usb: Usb, bytes: nat): nat {
    Viewer.FramesIn(|usb.port.wire|, PacketSize(usb), bytes)
  }

  lemma WholeIsPacketsIn(ticks: nat -> U32, usb: Usb, es: seq<Event>, made: seq<seq<U8>>)
    requires Listening(usb) && Concat(made) == usb.port.wire + Frames(PacketsSince(ticks, usb, es))
    ensures Viewer.KeepsUp(made) <==>
            forall i :: 0 <= i <= |made| ==>
              PacketsIn(usb, |Concat(made)|) - PacketsIn(usb, |Concat(made[..i])|) <= |made| - i
  {
    hide Frames, Concat, Parse, PacketsSince, PacketsIn, MagicFree;
    var n := |made|;
    forall i | 0 <= i <= n ensures Viewer.Whole(made, i) == PacketsIn(usb, |Concat(made[..i])|) {
      PrefixIsPrefix(made, i);
      WholeInBytes(ticks, usb, es, Concat(made[..i]));
    }
    assert made[..n] == made;
  }

  lemma WholeInBytes(ticks: nat -> U32, usb: Usb, es: seq<Event>, bytes: seq<U8>)
    requires Listening(usb) && bytes <= usb.port.wire + Frames(PacketsSince(ticks, usb, es))
    ensures |Parse(bytes)| == PacketsIn(usb, |bytes|)
  {
    hide Frames, Parse, MagicFree, PacketsSince;
    var ps := PacketsSince(ticks, usb, es);
    PacketsHaveSize(ticks, usb, usb.tickReads, es);
    PacketsSinceIs(ticks, usb, es);
    Viewer.WholeFramesAfter(usb.port.wire, ps, PacketSize(usb), bytes);
  }

  lemma PacketsSinceIs(ticks: nat -> U32, usb: Usb, es: seq<Event>)
    ensures PacketsSince(ticks, usb, es) == PacketsFor(ticks, usb.timestamps, usb.tickReads, es)
  {
  }

  lemma {:induction false} PacketsHaveSize(ticks: nat -> U32, usb: Usb, n: nat, es: seq<Event>)
    ensures Viewer.OfSize(PacketsFor(ticks, usb.timestamps, n, es), PacketSize(usb))
  {
    if es != [] {
      PacketsHaveSize(ticks, usb, n, es[..|es| - 1]);
    }
  }

  lemma {:induction false} PrefixIsPrefix(chunks: seq<seq<U8>>, i: nat)
    requires i <= |chunks|
    ensures Concat(chunks[..i]) <= Concat(chunks)
  {
    if i > 0 {
      assert chunks[..i][1..] == chunks[1..][..i - 1];
      PrefixIsPrefix(chunks[1..], i - 1);
    }
  }

  /** Events come from the sensor's grid whatever words are fed. */
  lemma {:induction false} EventsOnGrid(fed: seq<U32>)
    ensures var b := Burst.Run(Burst.INITIAL, Burst.DecodeAll(fed));
      && (b.phase == Burst.ExpectColOrTail ==> b.row < Viewer.SIDE)
      && (forall i :: 0 <= i < |b.cols| ==> b.cols[i] < Viewer.SIDE)
    ensures var es := Burst.Events(Burst.INITIAL, Burst.DecodeAll(fed));
      && (forall i :: 0 <= i < |es| ==> Viewer.InGrid(es[i])) && Viewer.OnGrid(es) == es
  {
    hide Burst.Run, Burst.Events, Burst.DecodeAll, Codec.DecodeRaw, Viewer.OnGrid, Burst.RowEvents;
    if fed == [] {
      Burst.DecodesNothing(Burst.INITIAL);
    } else {
      var k := |fed| - 1;
      EventsOnGrid(fed[..k]);
      Burst.FeedLast(Burst.INITIAL, fed[..k], fed[k]);
      assert fed[..k] + [fed[k]] == fed;
      var b := Burst.Run(Burst.INITIAL, Burst.DecodeAll(fed[..k]));
      Loss.EventsHaveRow(b.row, b.cols);
    }
    Viewer.AllOnGrid(Burst.Events(Burst.INITIAL, Burst.DecodeAll(fed)));
  }

  /** The first packets light the first pixels, one each. */
  lemma PixelsOfPrefix(ticks: nat -> U32, usb: Usb, es: seq<Event>, first: seq<Packet>)
    requires first <= PacketsSince(ticks, usb, es)
    requires forall i :: 0 <= i < |es| ==> Viewer.InGrid(es[i])
    ensures Viewer.Pixels(first) <= es
    ensures Viewer.Pixels(first) == es <==> first == PacketsSince(ticks, usb, es)
  {
    hide HostEvents, PacketsFor, Viewer.OnGrid, Viewer.InGrid;
    var k := |first|;
    FirstPackets(ticks, usb.timestamps, usb.tickReads, es, k);
    PacketsReadBack(ticks, usb.timestamps, usb.tickReads, es[..k]);
    PacketsSinceIs(ticks, usb, es);
    assert PacketsSince(ticks, usb, es)[..k] == first;
    Viewer.AllOnGrid(es[..k]);
    assert Viewer.Pixels(first) == es[..k];
    assert k == |es| ==> es[..k] == es && PacketsSince(ticks, usb, es)[..k] == PacketsSince(ticks, usb, es);
  }

  lemma {:induction false} FirstPackets(ticks: nat -> U32, timestamps: bool, n: nat, es: seq<Event>, k: nat)
    requires k <= |es|
    ensures PacketsFor(ticks, timestamps, n, es)[..k] == PacketsFor(ticks, timestamps, n, es[..k])
  {
    hide RecordPacket, RecordFor;
    if k == |es| {
      assert es[..k] == es;
    } else {
      var m := |es| - 1;
      FirstPackets(ticks, timestamps, n, es[..m], k);
      assert es[..m][..k] == es[..k];
    }
  }

  /** And it does, under every fair schedule: from some moment on the host shows, once it has read all
      bytes, exactly the sensor's pixels. */
  lemma FairSchedulesDeliver(ticks: nat -> U32, bs: seq<Burst.RowBurst>, capacity: nat, usb: Usb,
                             schedule: nat -> Link.Action, states: nat -> Link.Sys)
    returns (n: nat)
    requires Burst.AllInRange(bs) && capacity >= 2 && Listening(usb)
    requires Fairness.Execution(Link.Atomic, ticks, Link.Initial(Burst.SensorWords(bs), capacity, usb),
                                schedule, states)
    requires Fairness.Fair(Link.Atomic, schedule, states)
    ensures forall m: nat :: m >= n ==> Link.Quiescent(states(m)) && Shown(states(m)) == Burst.Pairs(bs)
  {
    hide *;
    SensorIsSendable(bs);
    var words, start := Burst.SensorWords(bs), Link.Initial(Burst.SensorWords(bs), capacity, usb);
    n := Fairness.FairRunsEndQuiet(Link.Atomic, ticks, words, capacity, usb, schedule, states);
    var actions, s := Fairness.Prefix(schedule, n), states(n);
    Fairness.PrefixRuns(Link.Atomic, ticks, start, schedule, states, n);
    RunReaches(Link.Atomic, ticks, bs, capacity, usb, actions, s);
    AllIsFed(ticks, bs, capacity, usb, actions, s);
    ShownIsFed(Link.Atomic, ticks, bs, capacity, usb, actions, s);
  }

  lemma RunReaches(bus: Link.Bus, ticks: nat -> U32, bs: seq<Burst.RowBurst>, capacity: nat, usb: Usb,
                   actions: seq<Link.Action>, s: Link.Sys)
    requires Burst.AllInRange(bs) && capacity >= 2 && Listening(usb)
    requires Link.Run(bus, ticks, Link.Initial(Burst.SensorWords(bs), capacity, usb), actions, s)
    ensures Reaches(bus, ticks, bs, capacity, usb, actions, s)
  {
  }
}
