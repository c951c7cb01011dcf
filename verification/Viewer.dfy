/** The viewer (scripts/view_events.py): it asks for a packet only while bytes wait at the port, so whole
    packets can stay in the reader's buffer unseen, and these lemmas say exactly when none does. */
module Viewer {
  import opened Words
  import opened Framing
  import opened UsbStream

  const SIDE: nat := 32

  predicate InGrid(e: Event) {
    e.row < SIDE && e.col < SIDE
  }

  function OnGrid(es: seq<Event>): seq<Event> {
    if es == [] then [] else (if InGrid(es[0]) then [es[0]] else []) + OnGrid(es[1..])
  }

  /** The pixels that packets light. */
  function Pixels(ps: seq<Packet>): seq<Event> {
    OnGrid(HostEvents(ps))
  }

  lemma {:induction false} OnGridAppend(xs: seq<Event>, ys: seq<Event>)
    ensures OnGrid(xs + ys) == OnGrid(xs) + OnGrid(ys)
  {
    hide InGrid;
    if xs == [] {
      assert xs + ys == ys;
    } else {
      assert (xs + ys)[1..] == xs[1..] + ys;
      OnGridAppend(xs[1..], ys);
      Associative(if InGrid(xs[0]) then [xs[0]] else [], OnGrid(xs[1..]), OnGrid(ys));
    }
  }

  lemma {:induction false} AllOnGrid(es: seq<Event>)
    requires forall i :: 0 <= i < |es| ==> InGrid(es[i])
    ensures OnGrid(es) == es
  {
    if es != [] {
      AllOnGrid(es[1..]);
    }
  }

  // ---------------- The pump ----------------

  /** Every read that returned nothing was made with no whole packet in the buffer. */
  ghost predicate OnlyWhenBlocked(made: seq<seq<U8>>) {
    forall i :: 0 <= i < |made| && made[i] == [] ==> Parse(Feed([], made[..i]).buf) == []
  }

  /** A pixel shown, and when. */
  datatype Sighting = Sighting(event: Event, time: real)

  function EventsOf(log: seq<Sighting>): (es: seq<Event>)
    ensures |es| == |log| && forall i :: 0 <= i < |log| ==> es[i] == log[i].event
  {
    seq(|log|, i requires 0 <= i < |log| => log[i].event)
  }

  /** When a pixel was last seen, or -1. */
  function LastSeen(log: seq<Sighting>, e: Event): real {
    if log == [] then -1.0
    else if log[|log| - 1].event == e then log[|log| - 1].time
    else LastSeen(log[..|log| - 1], e)
  }

  function Stamped(es: seq<Event>, time: real): (log: seq<Sighting>)
    ensures |log| == |es| && forall i :: 0 <= i < |es| ==> log[i] == Sighting(es[i], time)
  {
    seq(|es|, i requires 0 <= i < |es| => Sighting(es[i], time))
  }

  /** Why a call of the pump returned. */
  datatype Stop = SliceOver | NothingWaits | Blocked

  const SLICE: real := 0.005

  class Viewer {
    const reader: FramedStreamReader
    const lastSeen: array2<real>
    /** The n-th reading of the clock. */
    const clock: nat -> real
    var clockReads: nat
    ghost var made: seq<seq<U8>>
    ghost var log: seq<Sighting>

    constructor (ser: Serial, clock: nat -> real)
      ensures Valid() && made == [] && log == [] && reader.ser == ser && fresh(reader) && fresh(lastSeen)
      ensures this.clock == clock && clockReads == 0
    {
      reader := new FramedStreamReader(ser);
      lastSeen := new real[SIDE, SIDE]((r, c) => -1.0);
      this.clock, clockReads, made, log := clock, 0, [], [];
      new;
      NothingFed([]);
    }

    /** All reads made so far, fed to the reader, give what it holds and what has been shown; each pixel
        has the time at which it was shown last. */
    ghost predicate Valid()
      reads this`made, this`log, reader`buf, lastSeen
    {
      && Grid() && reader.buf == Feed([], made).buf && OnlyWhenBlocked(made)
      && EventsOf(log) == Pixels(Feed([], made).packets)
      && Shows(log)
    }

    ghost predicate Grid() {
      lastSeen.Length0 == SIDE && lastSeen.Length1 == SIDE
    }

    ghost predicate Shows(log: seq<Sighting>)
      requires Grid()
      reads lastSeen
    {
      forall r, c :: 0 <= r < SIDE && 0 <= c < SIDE ==> lastSeen[r, c] == LastSeen(log, Event(r, c))
    }

    method Now() returns (now: real)
      modifies this`clockReads
      ensures now == clock(old(clockReads)) && clockReads == old(clockReads) + 1
    {
      now := clock(clockReads);
      clockReads := clockReads + 1;
    }

    /** Reading `i` of the clock is within the time slice that began at reading `start`. */
    predicate InSlice(start: nat, i: nat) {
      clock(i) - clock(start) <= SLICE
    }

    /** Bytes wait at the port, and it says so when asked for the n-th time. */
    ghost predicate Answers(n: nat)
      reads reader.ser
    {
      reader.ser.waits(n) && reader.ser.pending != [] && reader.ser.pending[0] != []
    }

    /** One frame's pumping: packets while the time slice lasts and bytes wait. `checks` are the clock
        readings that looked at the slice, one at the start of each turn. */
    method Pump() returns (ghost why: Stop, ghost checks: seq<nat>)
      requires Valid()
      modifies this, reader, reader.ser, lastSeen
      ensures Valid()
      ensures made + reader.ser.pending == old(made) + old(reader.ser.pending)
      ensures old(made) <= made && old(log) <= log
      ensures SeenBetween(log, |old(log)|, old(clockReads), clockReads)
      // every turn but the last looked at the clock in time, got yes from the port, and read
      ensures checks != [] && checks[0] == old(clockReads) + 1
      ensures forall k :: 0 <= k < |checks| - 1 ==> InSlice(old(clockReads), checks[k])
      ensures forall j: nat :: old(reader.ser.asked) <= j < old(reader.ser.asked) + |checks| - 1 ==> reader.ser.waits(j)
      ensures |made| >= |old(made)| + |checks| - (if why == Blocked then 0 else 1)
      // and it stopped for a reason
      ensures why == SliceOver ==>
                !InSlice(old(clockReads), checks[|checks| - 1])
                && reader.ser.asked == old(reader.ser.asked) + |checks| - 1
      ensures why != SliceOver ==>
                InSlice(old(clockReads), checks[|checks| - 1])
                && reader.ser.asked == old(reader.ser.asked) + |checks|
      ensures why == NothingWaits ==> !Answers(reader.ser.asked - 1)
      ensures why == Blocked ==> reader.ser.pending == []
      // so with a clock inside the slice and a port that always says when bytes wait, none do
      ensures (forall i: nat :: InSlice(old(clockReads), i)) && (forall n: nat :: reader.ser.waits(n)) ==>
                reader.ser.pending == [] || reader.ser.pending[0] == []
    {
      hide *;
      ghost var c0, turns := clockReads, 0;
      checks := [];
      var start := Now();
      NothingSeen(log, c0);
      while true
        invariant Valid() && old(made) <= made && old(log) <= log && clockReads > c0
        invariant made + reader.ser.pending == old(made) + old(reader.ser.pending)
        invariant SeenBetween(log, |old(log)|, c0, clockReads)
        invariant |checks| == turns && (if turns == 0 then clockReads == c0 + 1 else checks[0] == c0 + 1)
        invariant forall k :: 0 <= k < turns ==> InSlice(c0, checks[k])
        invariant reader.ser.asked == old(reader.ser.asked) + turns
        invariant forall j: nat :: old(reader.ser.asked) <= j < old(reader.ser.asked) + turns ==> reader.ser.waits(j)
        invariant |made| >= |old(made)| + turns
        decreases |reader.ser.pending|
      {
        checks := checks + [clockReads];
        var now := Now();
        NoneAfter(log, clock(clockReads - 1));
        StillBetween(log, log, |old(log)|, c0, clockReads - 1, clockReads);
        SliceIs(now, start, c0, clockReads - 1);
        if now - start > SLICE {
          return SliceOver, checks;
        }
        var some := reader.ser.InWaiting();
        AnswersIs(reader.ser.asked - 1);
        if !some {
          return NothingWaits, checks;
        }
        turns := turns + 1;
        ghost var at, seen := clockReads, log;
        var blocked := TakeTurn();
        StillBetween(seen, log, |old(log)|, c0, at, clockReads);
        if blocked {
          return Blocked, checks;
        }
      }
    }

    lemma SliceIs(now: real, begun: real, start: nat, i: nat)
      requires now == clock(i) && begun == clock(start)
      ensures InSlice(start, i) <==> now - begun <= SLICE
    {
    }

    lemma AnswersIs(n: nat)
      ensures Answers(n) <==> reader.ser.waits(n) && reader.ser.pending != [] && reader.ser.pending[0] != []
    {
    }

    lemma NoneAfter(log: seq<Sighting>, time: real)
      ensures SeenAt(log, |log|, time)
    {
    }

    lemma NothingSeen(log: seq<Sighting>, from: nat)
      ensures SeenBetween(log, |log|, from, from + 1)
    {
    }

    lemma StillBetween(seen: seq<Sighting>, log: seq<Sighting>, k: nat, from: nat, at: nat, now: nat)
      requires from < at <= now && seen <= log && k <= |seen| && SeenBetween(seen, k, from, at)
      requires SeenAt(log, |seen|, clock(at)) && (|seen| < |log| ==> at < now)
      ensures SeenBetween(log, k, from, now)
    {
      forall i | k <= i < |log| ensures ReadBetween(log[i].time, from, now) {
        if i < |seen| {
          assert log[i] == seen[i] && ReadBetween(seen[i].time, from, at);
        } else {
          assert from < at < now && clock(at) == log[i].time;
        }
      }
    }

    /** One packet, or all reads there are, and what it shows. */
    method TakeTurn() returns (blocked: bool)
      requires Valid() && reader.ser.pending != [] && reader.ser.pending[0] != []
      modifies this, reader, reader.ser`pending, lastSeen
      ensures Valid() && old(made) <= made && |made| > |old(made)|
      ensures made + reader.ser.pending == old(made) + old(reader.ser.pending)
      ensures |reader.ser.pending| < |old(reader.ser.pending)|
      ensures blocked ==> reader.ser.pending == []
      ensures clockReads >= old(clockReads) && old(log) <= log
      ensures SeenAt(log, |old(log)|, clock(old(clockReads)))
      ensures |old(log)| < |log| ==> old(clockReads) < clockReads
    {
      hide Feed, Parse, Pixels, OnlyWhenBlocked, Extract, OnGrid, HostEvents, Yield, LastSeen;
      ghost var held, pending := reader.buf, reader.ser.pending;
      var packet, turns := reader.ReadPacket();
      ghost var before, chunks := made, pending[..turns];
      made := before + chunks;
      assert chunks[..turns - 1] == pending[..turns - 1];
      Fed(before, chunks, held, packet, reader.buf);
      assert before + pending == before + chunks + pending[turns..];
      blocked := packet.None?;
      if packet.Some? && packet.value.ptype == EVENT_BIN {
        ShowPacket(packet.value.payload);
      }
    }

    /** All sightings from number `k` on have this time. */
    ghost predicate SeenAt(log: seq<Sighting>, k: nat, time: real) {
      forall i :: k <= i < |log| ==> log[i].time == time
    }

    /** All sightings from number `k` on were made at clock readings between these. */
    ghost predicate SeenBetween(log: seq<Sighting>, k: nat, from: nat, upTo: nat) {
      forall i :: k <= i < |log| ==> ReadBetween(log[i].time, from, upTo)
    }

    /** `time` is a reading of the clock made between these. */
    ghost predicate ReadBetween(time: real, from: nat, upTo: nat) {
      exists j: nat :: from < j < upTo && clock(j) == time
    }

    method ShowPacket(payload: seq<U8>)
      requires Grid() && Shows(log)
      modifies this`clockReads, this`log, lastSeen
      ensures clockReads == old(clockReads) + 1
      ensures log == old(log) + Stamped(OnGrid(Extract(payload)), clock(old(clockReads))) && Shows(log)
    {
      hide Extract, OnGrid;
      var now := Now();
      var events := ExtractOnEvents(payload);
      ghost var before := log;
      NoneOnGrid();
      assert before + Stamped(OnGrid([]), now) == before;
      for i := 0 to |events|
        invariant clockReads == old(clockReads) + 1
        invariant log == before + Stamped(OnGrid(events[..i]), now) && Shows(log)
      {
        OnGridLast(events, i);
        var row, col := events[i].row, events[i].col;
        if 0 <= row < SIDE && 0 <= col < SIDE {
          SeenLast(log, Event(row, col), now);
          lastSeen[row, col] := now;
          log := log + [Sighting(Event(row, col), now)];
        }
      }
      assert events[..|events|] == events;
    }
  }

  lemma SeenLast(log: seq<Sighting>, e: Event, time: real)
    ensures forall f: Event :: LastSeen(log + [Sighting(e, time)], f) == if f == e then time else LastSeen(log, f)
  {
    assert (log + [Sighting(e, time)])[..|log|] == log;
  }

  lemma NoneOnGrid()
    ensures OnGrid([]) == []
  {
  }

  lemma OnGridLast(es: seq<Event>, i: nat)
    requires i < |es|
    ensures OnGrid(es[..i + 1]) == OnGrid(es[..i]) + if InGrid(es[i]) then [es[i]] else []
  {
    assert es[..i + 1] == es[..i] + [es[i]];
    OnGridAppend(es[..i], [es[i]]);
    assert [es[i]][1..] == [];
  }

  /** What one call of the reader adds to all reads made so far. */
  lemma Fed(made: seq<seq<U8>>, chunks: seq<seq<U8>>, held: seq<U8>, packet: Option<Packet>, buf: seq<U8>)
    requires OnlyWhenBlocked(made) && held == Feed([], made).buf
    requires Feed(held, chunks) == Reading(Yield(packet), buf)
    requires chunks != [] && chunks[0] != [] && Feed(held, chunks[..|chunks| - 1]).packets == []
    ensures OnlyWhenBlocked(made + chunks) && Feed([], made + chunks).buf == buf
    ensures var before, after := Pixels(Feed([], made).packets), Pixels(Feed([], made + chunks).packets);
      if packet.Some? && packet.value.ptype == EVENT_BIN then after == before + OnGrid(Extract(packet.value.payload))
      else after == before
  {
    hide *;
    FeedAppend([], made, chunks);
    PixelsOf(Feed([], made).packets, packet);
    StillOnlyWhenBlocked(made, chunks, held);
  }

  lemma StillOnlyWhenBlocked(made: seq<seq<U8>>, chunks: seq<seq<U8>>, held: seq<U8>)
    requires OnlyWhenBlocked(made) && held == Feed([], made).buf
    requires chunks != [] && chunks[0] != [] && Feed(held, chunks[..|chunks| - 1]).packets == []
    ensures OnlyWhenBlocked(made + chunks)
  {
    hide Feed, Parse;
    var all := made + chunks;
    forall i | 0 <= i < |all| && all[i] == [] ensures Parse(Feed([], all[..i]).buf) == [] {
      if i < |made| {
        assert all[..i] == made[..i] && made[i] == [];
      } else {
        var k := i - |made|;
        assert all[i] == chunks[k] && k > 0;
        assert all[..i] == made + chunks[..k];
        FeedAppend([], made, chunks[..k]);
        FeedPrefix(held, chunks[..|chunks| - 1], k);
        assert chunks[..|chunks| - 1][..k] == chunks[..k];
        NothingHeld(held, chunks[..k]);
      }
    }
  }

  lemma PixelsOf(ps: seq<Packet>, packet: Option<Packet>)
    ensures if packet.Some? && packet.value.ptype == EVENT_BIN then
              Pixels(ps + Yield(packet)) == Pixels(ps) + OnGrid(Extract(packet.value.payload))
            else Pixels(ps + Yield(packet)) == Pixels(ps)
  {
    hide Extract;
    if packet.None? {
      assert ps + Yield(packet) == ps;
    } else {
      var p := packet.value;
      HostEventsAppend(ps, [p]);
      OneShown(p);
      OnGridAppend(HostEvents(ps), HostEvents([p]));
      assert OnGrid(HostEvents(ps)) + [] == OnGrid(HostEvents(ps));
    }
  }

  lemma OneShown(p: Packet)
    ensures HostEvents([p]) == (if p.ptype == EVENT_BIN then Extract(p.payload) else []) && OnGrid([]) == []
  {
    hide Extract;
    assert [p] == [p] + [] && HostEvents([]) == [];
    assert [p][1..] == [];
  }

  lemma FeedPrefix(buf: seq<U8>, chunks: seq<seq<U8>>, k: nat)
    requires k <= |chunks| && Feed(buf, chunks).packets == []
    ensures Feed(buf, chunks[..k]).packets == []
  {
    hide Feed;
    FeedAppend(buf, chunks[..k], chunks[k..]);
    assert chunks[..k] + chunks[k..] == chunks;
  }

  lemma NothingHeld(buf: seq<U8>, chunks: seq<seq<U8>>)
    requires chunks != [] && Feed(buf, chunks).packets == []
    ensures Parse(Feed(buf, chunks).buf) == []
  {
    hide Feed, Parse;
    BlocksIffNoPacket(buf, chunks);
    ChunkingIndependent(buf, chunks);
  }

  // ---------------- One packet per read ----------------

  /** Packets that are whole after the first `i` reads, and packets returned by then. */
  ghost function Whole(chunks: seq<seq<U8>>, i: nat): nat
    requires i <= |chunks|
  {
    |Parse(Concat(chunks[..i]))|
  }

  ghost function Returned(chunks: seq<seq<U8>>, i: nat): nat
    requires i <= |chunks|
  {
    |Feed([], chunks[..i]).packets|
  }

  lemma {:induction false} ConcatLast(chunks: seq<seq<U8>>, chunk: seq<U8>)
    ensures Concat(chunks + [chunk]) == Concat(chunks) + chunk
  {
    if chunks == [] {
      assert chunks + [chunk] == [chunk] && [chunk][1..] == [] && chunk + [] == chunk;
    } else {
      assert (chunks + [chunk])[1..] == chunks[1..] + [chunk];
      ConcatLast(chunks[1..], chunk);
    }
  }

  /** Each read returns one packet as long as one is whole and not yet returned. */
  lemma OneRead(chunks: seq<seq<U8>>, i: nat)
    requires i < |chunks|
    ensures Returned(chunks, i) <= Whole(chunks, i) <= Whole(chunks, i + 1)
    ensures Returned(chunks, i + 1)
            == Returned(chunks, i) + if Whole(chunks, i + 1) > Returned(chunks, i) then 1 else 0
  {
    hide Feed, Parse, Concat, Try, Yield;
    var before := Feed([], chunks[..i]);
    var a := Try(before.buf + chunks[i]);
    assert chunks[..i + 1] == chunks[..i] + [chunks[i]];
    FeedOneMore([], chunks[..i], chunks[i]);
    ConcatLast(chunks[..i], chunks[i]);
    ParseGrows(Concat(chunks[..i]), chunks[i]);
    AllAccounted(chunks[..i]);
    AllAccounted(chunks[..i + 1]);
    YieldIs();
    if a.packet.None? {
      NoneWhole(before.buf + chunks[i]);
    }
  }

  lemma AllAccounted(chunks: seq<seq<U8>>)
    ensures Feed([], chunks).packets + Parse(Feed([], chunks).buf) == Parse(Concat(chunks))
  {
    hide Feed, Parse, Concat;
    ChunkingIndependent([], chunks);
    assert [] + Concat(chunks) == Concat(chunks);
  }

  lemma {:induction false} AtMostOnePerRead(chunks: seq<seq<U8>>, i: nat, j: nat)
    requires i <= j <= |chunks|
    ensures Returned(chunks, j) <= Returned(chunks, i) + (j - i)
  {
    hide Whole, Returned;
    if i < j {
      AtMostOnePerRead(chunks, i, j - 1);
      OneRead(chunks, j - 1);
    }
  }

  /** The last moment up to `j` at which nothing whole was waiting; every read since has returned a packet. */
  lemma {:induction false} LastCaughtUp(chunks: seq<seq<U8>>, j: nat) returns (i: nat)
    requires j <= |chunks|
    ensures i <= j && Returned(chunks, i) == Whole(chunks, i)
    ensures Returned(chunks, j) == Returned(chunks, i) + (j - i)
  {
    hide Whole, Returned;
    i := j;
    if Returned(chunks, j) != Whole(chunks, j) {
      if j == 0 {
        NothingAtFirst(chunks);
      } else {
        OneRead(chunks, j - 1);
        i := LastCaughtUp(chunks, j - 1);
      }
    }
  }

  lemma NothingAtFirst(chunks: seq<seq<U8>>)
    ensures Returned(chunks, 0) == Whole(chunks, 0) == 0
  {
    assert chunks[..0] == [];
  }

  /** The reads leave no whole packet behind exactly if, after each of them, no more packets are to
      become whole or be returned than there are reads left. */
  ghost predicate KeepsUp(chunks: seq<seq<U8>>) {
    forall i :: 0 <= i <= |chunks| ==> Whole(chunks, |chunks|) - Whole(chunks, i) <= |chunks| - i
  }

  lemma AllReturnedIff(chunks: seq<seq<U8>>)
    ensures Feed([], chunks).packets <= Parse(Concat(chunks))
    ensures Feed([], chunks).packets == Parse(Concat(chunks)) <==> KeepsUp(chunks)
  {
    hide Feed, Parse, Concat;
    var n := |chunks|;
    assert chunks[..n] == chunks;
    AllAccounted(chunks);
    var i := LastCaughtUp(chunks, n);
    if Returned(chunks, n) == Whole(chunks, n) {
      forall k | 0 <= k <= n ensures Whole(chunks, n) - Whole(chunks, k) <= n - k {
        AtMostOnePerRead(chunks, k, n);
        AllAccounted(chunks[..k]);
      }
    } else {
      assert Returned(chunks, n) < Whole(chunks, n);
      assert Whole(chunks, n) - Whole(chunks, i) > n - i;
    }
  }

  /** Two packets in one read: the viewer shows the first and leaves the second in the buffer. */
  lemma TwoPacketsOneRead(p: Packet, q: Packet)
    requires Framable(p) && Framable(q)
    ensures Feed([], [Frames([p, q])]).packets == [p] && Parse(Concat([Frames([p, q])])) == [p, q]
  {
    hide Feed, Parse, Frames;
    var bytes := Frames([p, q]);
    ConcatLast([], bytes);
    assert [] + [bytes] == [bytes] && Concat([]) + bytes == bytes by { NothingRead(); }
    assert [] + bytes == bytes && MagicFree([]);
    ParseFrames([], [p, q]);
    var chunks := [bytes];
    assert chunks[..1] == chunks && chunks[..0] == [];
    NothingAtFirst(chunks);
    OneRead(chunks, 0);
    assert |Feed([], chunks).packets| == 1;
    AllAccounted(chunks);
    assert Feed([], chunks).packets[0] == Parse(Concat(chunks))[0] == p;
  }

  lemma NothingRead()
    ensures Concat([]) == []
  {
  }

  // ---------------- Counted in bytes ----------------

  /** How many whole frames of `size` bytes there are in `bytes` bytes, the first `garbage` of which are not
      of a frame. */
  function FramesIn(garbage: nat, size: nat, bytes: nat): nat
    requires size > 0
  {
    if bytes <= garbage then 0 else (bytes - garbage) / size
  }

  ghost predicate OfSize(ps: seq<Packet>, size: nat) {
    forall p :: p in ps ==> Framable(p) && HEADER_LENGTH + |p.payload| == size
  }

  lemma {:induction false} WholeFrames(ps: seq<Packet>, size: nat, bytes: seq<U8>)
    requires size > 0 && OfSize(ps, size) && bytes <= Frames(ps)
    ensures |Parse(bytes)| == |bytes| / size
    decreases |ps|
  {
    hide Parse, Frame, MagicAt;
    if ps == [] {
      assert bytes == [];
      NothingInGarbage([]);
      SmallQuotient(0, size, 0);
    } else {
      var f := Frame(ps[0]);
      assert |f| == size by { FrameSize(ps[0]); }
      if |bytes| < size {
        assert bytes == f[..|bytes|];
        PartOfFrame(ps[0], |bytes|);
        SmallQuotient(|bytes|, size, 0);
      } else {
        var rest := bytes[size..];
        assert Frames(ps) == f + Frames(ps[1..]);
        assert bytes[..size] == f && rest <= Frames(ps[1..]);
        assert bytes == f + rest;
        FrameIsTaken(ps[0], rest);
        WholeFrames(ps[1..], size, rest);
        SmallQuotient(|rest|, size, 1);
      }
    }
  }

  lemma SmallQuotient(a: nat, m: nat, q: nat)
    requires m > 0 && q <= 1
    ensures (a + q * m) / m == a / m + q && (a < m ==> a / m == 0)
  {
    var d, r := a / m, a % m;
    assert a == m * d + r;
    assert m * (d + q) == m * d + q * m;
    DivUnique(a + q * m, m, d + q, r);
    if a < m {
      DivUnique(a, m, 0, a);
    }
  }

  lemma FrameSize(p: Packet)
    requires Framable(p)
    ensures |Frame(p)| == HEADER_LENGTH + |p.payload|
  {
  }

  /** Part of a frame holds no packet. */
  lemma PartOfFrame(p: Packet, k: nat)
    requires Framable(p) && k < |Frame(p)|
    ensures Parse(Frame(p)[..k]) == []
  {
    var f, n := Frame(p), |p.payload|;
    var b := f[..k];
    ParseIs(b);
    if k >= 4 {
      assert f[0] == 65 && f[1] == 69 && f[2] == 82 && f[3] == 83;
      assert MagicAt(b, 0);
      FindIs(b, 0);
      if k >= HEADER_LENGTH {
        assert LengthField(b, 0) == LengthField(f, 0) == n % 256 + 256 * (n / 256) == n;
      }
    }
  }

  /** The same after garbage that holds no packet magic. */
  lemma WholeFramesAfter(garbage: seq<U8>, ps: seq<Packet>, size: nat, bytes: seq<U8>)
    requires MagicFree(garbage) && size > 0 && OfSize(ps, size) && bytes <= garbage + Frames(ps)
    ensures |Parse(bytes)| == FramesIn(|garbage|, size, |bytes|)
  {
    hide Parse, Frames;
    var all := garbage + Frames(ps);
    if |bytes| <= |garbage| {
      assert bytes == garbage[..|bytes|];
      assert forall j: nat :: MagicAt(bytes, j) ==> MagicAt(garbage, j);
      NothingInGarbage(bytes);
    } else {
      var rest := bytes[|garbage|..];
      assert rest == all[|garbage|..|bytes|] == Frames(ps)[..|rest|];
      if ps == [] {
        NoFrames();
      } else {
        FirstFrame(ps);
        NoMagicBeforeFrame(garbage, ps[0], Frames(ps[1..]));
        Associative(garbage, Frame(ps[0]), Frames(ps[1..]));
        assert forall j: nat :: MagicAt(bytes, j) ==> MagicAt(all, j);
        ParseSkip(bytes, |garbage|);
        WholeFrames(ps, size, rest);
      }
    }
  }

  lemma NoFrames()
    ensures Frames([]) == []
  {
  }

  lemma FirstFrame(ps: seq<Packet>)
    requires ps != [] && forall p :: p in ps ==> Framable(p)
    ensures Frames(ps) == Frame(ps[0]) + Frames(ps[1..])
  {
  }
}
