/** The framed byte stream: the firmware's packet writer (pico_aer_rx/hal/hal_stdio.c) and the
    host's incremental, resynchronising reader (scripts/print_events.py). */
module Framing {
  import opened Words

  const MAGIC: seq<U8> := [65, 69, 82, 83]
  const HEADER_LENGTH: nat := 8
  const VERSION: U8 := 1
  const EVENT_BIN: U8 := 2

  datatype Option<+T> = None | Some(value: T)

  datatype Packet = Packet(ver: U8, ptype: U8, payload: seq<U8>)

  function Concat(chunks: seq<seq<U8>>): seq<U8> {
    if chunks == [] then [] else chunks[0] + Concat(chunks[1..])
  }

  // ---------------- Writing ----------------

  predicate Framable(p: Packet) {
    p.ver == VERSION && |p.payload| < TWO16
  }

  /** The bytes of one packet: magic, version, type, little-endian length, payload. */
  function Frame(p: Packet): seq<U8>
    requires Framable(p)
  {
    Header(p) + p.payload
  }

  function Header(p: Packet): (h: seq<U8>)
    requires Framable(p)
    ensures |h| == HEADER_LENGTH
  {
    MAGIC + [p.ver, p.ptype, |p.payload| % 256, |p.payload| / 256]
  }

  function Frames(ps: seq<Packet>): seq<U8>
    requires forall p :: p in ps ==> Framable(p)
  {
    if ps == [] then [] else Frame(ps[0]) + Frames(ps[1..])
  }

  lemma {:induction false} FramesAppend(ps: seq<Packet>, qs: seq<Packet>)
    requires forall p :: p in ps ==> Framable(p)
    requires forall p :: p in qs ==> Framable(p)
    ensures Frames(ps + qs) == Frames(ps) + Frames(qs)
  {
    if ps == [] {
      assert ps + qs == qs;
    } else {
      assert (ps + qs)[1..] == ps[1..] + qs;
      FramesAppend(ps[1..], qs);
    }
  }

  /** The USB port: whether it is open the n-th time it is asked, how many bytes the n-th write takes at
      most, how often each has happened, and the bytes written so far. */
  datatype Port = Port(open: nat -> bool, takes: nat -> nat, asked: nat, writes: nat, wire: seq<U8>)

  datatype Written = Written(ok: bool, port: Port)

  predicate IsOpen(p: Port) {
    p.open(p.asked)
  }

  function Asked(p: Port): Port {
    p.(asked := p.asked + 1)
  }

  /** One locked write: nothing on a closed port, else as many of the bytes as are taken. */
  function PutBytes(p: Port, bytes: seq<U8>): Written {
    if !IsOpen(p) then Written(false, Asked(p))
    else
      var n := Min(p.takes(p.writes), |bytes|);
      Written(n == |bytes|, Asked(p).(writes := p.writes + 1, wire := p.wire + bytes[..n]))
  }

  /** Header and payload, each in one write; after a failure nothing more. */
  function PutPacket(port: Port, p: Packet): Written
    requires Framable(p)
  {
    if !IsOpen(port) then Written(false, Asked(port))
    else
      var w := PutBytes(Asked(port), Header(p));
      if w.ok && p.payload != [] then PutBytes(w.port, p.payload) else w
  }

  /** Whatever the port does, the wire gains the first bytes of the frame, and all of them exactly if
      success is reported. */
  lemma WritesPartOfFrame(port: Port, p: Packet)
    requires Framable(p)
    ensures var w := PutPacket(port, p);
      && w.port.wire[..|port.wire|] == port.wire && |w.port.wire| >= |port.wire|
      && w.port.wire[|port.wire|..] <= Frame(p)
      && (w.ok <==> w.port.wire == port.wire + Frame(p))
      && (!port.open(port.asked) || !port.open(port.asked + 1) ==> w.port.wire == port.wire)
      && w.port.open == port.open && w.port.takes == port.takes
  {
    hide Header, Frame;
    var h := Header(p);
    assert Frame(p) == h + p.payload by { FrameIs(p); }
    if IsOpen(port) {
      var p1 := Asked(port);
      var w := PutBytes(p1, h);
      PutsPrefix(p1, h);
      if w.ok && p.payload != [] {
        PutsPrefix(w.port, p.payload);
        var n := |PutBytes(w.port, p.payload).port.wire| - |w.port.wire|;
        assert port.wire + h + p.payload[..n] == port.wire + (h + p.payload[..n]);
        assert h + p.payload[..n] == (h + p.payload)[..|h| + n];
      }
    }
  }

  lemma FrameIs(p: Packet)
    requires Framable(p)
    ensures Frame(p) == Header(p) + p.payload
  {
  }

  lemma PutsPrefix(p: Port, bytes: seq<U8>)
    ensures var w := PutBytes(p, bytes);
      var n := |w.port.wire| - |p.wire|;
      && 0 <= n <= |bytes| && w.port.wire == p.wire + bytes[..n]
      && (w.ok ==> n == |bytes|) && (!w.ok ==> n < |bytes| || bytes == [])
      && w.port.open == p.open && w.port.takes == p.takes
  {
  }

  /** A port that stays open and takes every write whole. */
  ghost predicate Reliable(p: Port) {
    forall n: nat :: p.open(n) && p.takes(n) >= TWO16
  }

  lemma ReliableWrites(port: Port, p: Packet)
    requires Reliable(port) && Framable(p)
    ensures var w := PutPacket(port, p);
      IsOpen(port) && w.ok && Reliable(w.port) && w.port.wire == port.wire + Frame(p)
  {
    hide Header, Frame;
    FrameIs(p);
    assert p.payload != [] ==> port.wire + Header(p) + p.payload == port.wire + (Header(p) + p.payload);
    assert Header(p) + [] == Header(p);
  }

  /** The USB port as the firmware writes to it. */
  class HalStream {
    const open: nat -> bool
    const takes: nat -> nat
    var asked: nat
    var writes: nat
    var wire: seq<U8>

    constructor (open: nat -> bool, takes: nat -> nat)
      ensures View() == Port(open, takes, 0, 0, [])
    {
      this.open, this.takes := open, takes;
      asked, writes, wire := 0, 0, [];
    }

    ghost function View(): Port
      reads this
    {
      Port(open, takes, asked, writes, wire)
    }

    method IsConnected() returns (connected: bool)
      modifies this`asked
      ensures connected == IsOpen(old(View())) && View() == Asked(old(View()))
    {
      connected := open(asked);
      asked := asked + 1;
    }

    method WriteBytesLocked(bytes: seq<U8>) returns (ok: bool)
      modifies this
      ensures Written(ok, View()) == PutBytes(old(View()), bytes)
    {
      var connected := IsConnected();
      if !connected {
        return false;
      }
      var n := Min(takes(writes), |bytes|);
      writes := writes + 1;
      wire := wire + bytes[..n];
      return n == |bytes|;
    }

    method Write(ptype: U8, payload: seq<U8>) returns (ok: bool)
      requires |payload| < TWO16
      modifies this
      ensures Written(ok, View()) == PutPacket(old(View()), Packet(VERSION, ptype, payload))
    {
      hide PutBytes;
      var connected := IsConnected();
      if !connected {
        return false;
      }
      var lenLe: U16 := |payload|;
      var hdr: seq<U8> := MAGIC + [VERSION] + [ptype] + [lenLe % 256] + [lenLe / 256];
      assert hdr == Header(Packet(VERSION, ptype, payload));
      ok := WriteBytesLocked(hdr);
      if ok && lenLe != 0 {
        ok := WriteBytesLocked(payload);
      }
    }
  }

  // ---------------- Reading ----------------

  predicate MagicAt(b: seq<U8>, i: nat) {
    i + 4 <= |b| && b[i] == 65 && b[i + 1] == 69 && b[i + 2] == 82 && b[i + 3] == 83
  }

  predicate MagicFree(b: seq<U8>) {
    forall i: nat :: i < |b| ==> !MagicAt(b, i)
  }

  /** `bytearray.find(MAGIC)`, from position `i` on. */
  function Find(b: seq<U8>, i: nat): (r: int)
    requires i <= |b|
    ensures r < |b|
    ensures r == -1 || (i <= r < |b| && MagicAt(b, r))
    ensures forall j: nat :: i <= j < (if r == -1 then |b| else r) ==> !MagicAt(b, j)
    decreases |b| - i
  {
    if i == |b| then -1 else if MagicAt(b, i) then i else Find(b, i + 1)
  }

  function LengthField(b: seq<U8>, i: nat): nat
    requires i + HEADER_LENGTH <= |b|
  {
    (b[i + 6] as int) + 256 * (b[i + 7] as int)
  }

  datatype Parsed = NoPacket | Parsed(packet: Packet, rest: seq<U8>)

  /** The packet whose magic was found at `i`, if all of it is there. */
  function Cut(b: seq<U8>, i: int): (p: Parsed)
    requires i < |b|
    ensures p.Parsed? ==> |p.rest| < |b|
  {
    if i < 0 || i + HEADER_LENGTH > |b| then NoPacket
    else
      var end := i + HEADER_LENGTH + LengthField(b, i);
      if end > |b| then NoPacket
      else Parsed(Packet(b[i + 4], b[i + 5], b[i + HEADER_LENGTH..end]), b[end..])
  }

  /** The packets of a whole byte stream, read in one go. */
  function Parse(b: seq<U8>): seq<Packet>
    decreases |b|
  {
    match Cut(b, Find(b, 0))
    case NoPacket => []
    case Parsed(p, rest) => [p] + Parse(rest)
  }

  datatype Attempt = Attempt(packet: Option<Packet>, buf: seq<U8>)

  /** One turn of the reader's loop on what it has buffered. */
  function Try(buf: seq<U8>): Attempt {
    var i := Find(buf, 0);
    if i < 0 then
      Attempt(None, if |buf| > 3 then buf[|buf| - 3..] else buf)
    else
      var b := buf[i..];
      if |b| < HEADER_LENGTH then Attempt(None, b)
      else
        var total := HEADER_LENGTH + LengthField(b, 0);
        if |b| < total then Attempt(None, b)
        else Attempt(Some(Packet(b[4], b[5], b[HEADER_LENGTH..total])), b[total..])
  }

  function Yield(p: Option<Packet>): seq<Packet> {
    if p.None? then [] else [p.value]
  }

  datatype Reading = Reading(packets: seq<Packet>, buf: seq<U8>)

  /** The reader fed one chunk per turn. */
  function Feed(buf: seq<U8>, chunks: seq<seq<U8>>): Reading
    decreases |chunks|
  {
    if chunks == [] then Reading([], buf)
    else
      var a := Try(buf + chunks[0]);
      var rest := Feed(a.buf, chunks[1..]);
      Reading(Yield(a.packet) + rest.packets, rest.buf)
  }

  /** The serial port: what each read will return, possibly nothing, and what it answers when asked for
      the n-th time whether bytes wait (never yes when the next read returns none). */
  class Serial {
    const waits: nat -> bool
    var asked: nat
    var pending: seq<seq<U8>>

    constructor (chunks: seq<seq<U8>>, waits: nat -> bool)
      ensures pending == chunks && this.waits == waits
    {
      pending, this.waits, asked := chunks, waits, 0;
    }

    method InWaiting() returns (some: bool)
      modifies this`asked
      ensures some <==> waits(old(asked)) && pending != [] && pending[0] != []
      ensures asked == old(asked) + 1
    {
      some := waits(asked) && pending != [] && pending[0] != [];
      asked := asked + 1;
    }

    method Read() returns (data: seq<U8>)
      requires pending != []
      modifies this`pending
      ensures data == old(pending)[0] && pending == old(pending)[1..]
    {
      data := pending[0];
      pending := pending[1..];
    }
  }

  class FramedStreamReader {
    const ser: Serial
    var buf: seq<U8>

    constructor (ser: Serial)
      ensures this.ser == ser && buf == []
    {
      this.ser := ser;
      buf := [];
    }

    method ReadSome()
      requires ser.pending != []
      modifies this`buf, ser`pending
      ensures buf == old(buf) + old(ser.pending)[0] && ser.pending == old(ser.pending)[1..]
    {
      var data := ser.Read();
      if data != [] {
        buf := buf + data;
      }
    }

    /** The rest of a turn: the packet at the front of the buffer, if it is whole. */
    method TakePacket() returns (packet: Option<Packet>)
      modifies this`buf
      ensures Attempt(packet, buf) == Try(old(buf))
    {
      hide Find, LengthField, MagicAt;
      assert buf[0..] == buf;
      var idx := Find(buf, 0);
      if idx < 0 {
        if |buf| > 3 {
          buf := buf[|buf| - 3..];
        }
        return None;
      }
      if idx > 0 {
        buf := buf[idx..];
      }
      if |buf| < HEADER_LENGTH {
        return None;
      }
      var ver, ptype, plen := buf[4], buf[5], LengthField(buf, 0);
      var totalLen := HEADER_LENGTH + plen;
      if |buf| < totalLen {
        return None;
      }
      var payload := buf[HEADER_LENGTH..totalLen];
      buf := buf[totalLen..];
      return Some(Packet(ver, ptype, payload));
    }

    /** `None` stands for a call that is still blocked when the modelled reads run out;
        `turns` is the number of reads made. */
    method ReadPacket() returns (packet: Option<Packet>, ghost turns: nat)
      modifies this, ser`pending
      ensures turns <= |old(ser.pending)| && ser.pending == old(ser.pending)[turns..]
      ensures Feed(old(buf), old(ser.pending)[..turns]) == Reading(Yield(packet), buf)
      ensures packet.None? ==> ser.pending == []
      ensures turns > 0 ==> Feed(old(buf), old(ser.pending)[..turns - 1]).packets == []
      ensures old(ser.pending) != [] ==> turns > 0
    {
      hide Feed, Try, Yield;
      YieldIs();
      NothingFed(buf);
      turns := 0;
      ghost var start, script := buf, ser.pending;
      assert script[..0] == [] && script[0..] == script;
      while ser.pending != []
        invariant turns <= |script| && ser.pending == script[turns..]
        invariant Feed(start, script[..turns]) == Reading([], buf)
        invariant turns > 0 ==> Feed(start, script[..turns - 1]).packets == []
        decreases |ser.pending|
      {
        OneTurn(start, script, turns, buf);
        ReadSome();
        packet := TakePacket();
        turns := turns + 1;
        if packet.Some? {
          return;
        }
      }
      packet := None;
    }
  }

  /** One more read and what it brings. */
  lemma OneTurn(start: seq<U8>, script: seq<seq<U8>>, turns: nat, held: seq<U8>)
    requires turns < |script| && Feed(start, script[..turns]) == Reading([], held)
    ensures script[turns..][0] == script[turns] && script[turns..][1..] == script[turns + 1..]
    ensures var a := Try(held + script[turns]);
      Feed(start, script[..turns + 1]) == Reading(Yield(a.packet), a.buf)
  {
    hide Try, Feed;
    assert script[..turns + 1] == script[..turns] + [script[turns]];
    FeedOneMore(start, script[..turns], script[turns]);
  }

  lemma NothingFed(buf: seq<U8>)
    ensures Feed(buf, []) == Reading([], buf)
  {
  }

  lemma {:induction false} FeedOneMore(buf: seq<U8>, chunks: seq<seq<U8>>, chunk: seq<U8>)
    ensures var before := Feed(buf, chunks);
      var a := Try(before.buf + chunk);
      Feed(buf, chunks + [chunk]) == Reading(before.packets + Yield(a.packet), a.buf)
    decreases |chunks|
  {
    if chunks == [] {
      assert ([chunk])[1..] == [];
    } else {
      assert (chunks + [chunk])[1..] == chunks[1..] + [chunk];
      hide Try, Yield;
      FeedOneMore(Try(buf + chunks[0]).buf, chunks[1..], chunk);
    }
  }

  // ---------------- Reading does not depend on the chunking ----------------

  lemma FindIs(b: seq<U8>, i: nat)
    requires MagicAt(b, i)
    requires forall j: nat :: j < i ==> !MagicAt(b, j)
    ensures Find(b, 0) == i
  {
    var r := Find(b, 0);
    assert r != -1;
  }

  lemma FindSkip(b: seq<U8>, k: nat)
    requires k <= |b|
    requires forall j: nat :: j < k ==> !MagicAt(b, j)
    ensures Find(b, 0) == if Find(b[k..], 0) < 0 then -1 else k + Find(b[k..], 0)
  {
    var c := b[k..];
    assert forall j: nat :: MagicAt(c, j) <==> MagicAt(b, k + j);
    hide MagicAt;
    var i, ic := Find(b, 0), Find(c, 0);
    if i >= 0 {
      assert i >= k && MagicAt(b, k + (i - k)) && MagicAt(c, i - k);
    }
    if ic >= 0 {
      assert MagicAt(b, k + ic);
      assert i >= 0 && i - k >= ic;
    }
  }

  lemma CutSkip(b: seq<U8>, k: nat, i: nat)
    requires k + i < |b|
    ensures Cut(b, k + i) == Cut(b[k..], i)
  {
    var c := b[k..];
    if i + HEADER_LENGTH <= |c| {
      assert LengthField(c, i) == LengthField(b, k + i);
      var end := i + HEADER_LENGTH + LengthField(c, i);
      if end <= |c| {
        assert b[k + end..] == c[end..];
        assert b[k + i + HEADER_LENGTH..k + end] == c[i + HEADER_LENGTH..end];
      }
    }
  }

  lemma ParseIs(b: seq<U8>)
    ensures var p := Cut(b, Find(b, 0)); Parse(b) == if p.NoPacket? then [] else [p.packet] + Parse(p.rest)
  {
    hide Cut, Find;
  }

  /** Bytes before the first magic carry no packet. */
  lemma ParseSkip(b: seq<U8>, k: nat)
    requires k <= |b|
    requires forall j: nat :: j < k ==> !MagicAt(b, j)
    ensures Parse(b) == Parse(b[k..])
  {
    hide Find, Parse, LengthField;
    FindSkip(b, k);
    hide MagicAt;
    var c := b[k..];
    var i := Find(c, 0);
    ParseIs(b);
    ParseIs(c);
    if i >= 0 {
      CutSkip(b, k, i);
    }
  }

  /** What one turn takes out of the buffer and leaves in it is all there was to read,
      whatever bytes come next: three bytes kept from a buffer without magic are enough. */
  lemma TryLosesNothing(buf: seq<U8>, next: seq<U8>)
    ensures Parse(buf + next) == Yield(Try(buf).packet) + Parse(Try(buf).buf + next)
  {
    hide Find, Parse;
    var all := buf + next;
    var i := Find(buf, 0);
    if i < 0 {
      if |buf| > 3 {
        NoMagicYet(buf, next, |buf| - 3);
        ParseSkip(all, |buf| - 3);
        assert all[|buf| - 3..] == Try(buf).buf + next;
      }
    } else {
      NoMagicYet(buf, next, i);
      ParseSkip(all, i);
      assert all[i..] == buf[i..] + next;
      TryFromMagic(buf[i..], next);
    }
  }

  lemma TryFromMagic(b: seq<U8>, next: seq<U8>)
    requires MagicAt(b, 0)
    ensures var total := HEADER_LENGTH + if |b| >= HEADER_LENGTH then LengthField(b, 0) else 0;
      |b| >= total ==>
        Parse(b + next) == [Packet(b[4], b[5], b[HEADER_LENGTH..total])] + Parse(b[total..] + next)
  {
    if |b| >= HEADER_LENGTH && |b| >= HEADER_LENGTH + LengthField(b, 0) {
      TakeWhole(b, next);
    }
  }

  lemma NoMagicYet(buf: seq<U8>, next: seq<U8>, k: nat)
    requires k + 3 <= |buf|
    requires forall j: nat :: j < k ==> !MagicAt(buf, j)
    ensures forall j: nat :: j < k ==> !MagicAt(buf + next, j)
  {
    forall j: nat | j < k ensures !MagicAt(buf + next, j) {
      assert !MagicAt(buf, j);
    }
  }

  lemma TakeWhole(b: seq<U8>, next: seq<U8>)
    requires MagicAt(b, 0) && HEADER_LENGTH <= |b| && HEADER_LENGTH + LengthField(b, 0) <= |b|
    ensures var total := HEADER_LENGTH + LengthField(b, 0);
      Parse(b + next) == [Packet(b[4], b[5], b[HEADER_LENGTH..total])] + Parse(b[total..] + next)
  {
    var all := b + next;
    assert MagicAt(all, 0);
    FindIs(all, 0);
    ParseIs(all);
    hide Find, MagicAt, Parse, Cut;
    CutWhole(b, next);
  }

  lemma CutWhole(b: seq<U8>, next: seq<U8>)
    requires HEADER_LENGTH <= |b| && HEADER_LENGTH + LengthField(b, 0) <= |b|
    ensures var total := HEADER_LENGTH + LengthField(b, 0);
      Cut(b + next, 0) == Parsed(Packet(b[4], b[5], b[HEADER_LENGTH..total]), b[total..] + next)
  {
    SameHeader(b, next);
    hide LengthField;
    SliceBefore(b, next, HEADER_LENGTH, HEADER_LENGTH + LengthField(b, 0));
  }

  lemma SameHeader(b: seq<U8>, next: seq<U8>)
    requires HEADER_LENGTH <= |b|
    ensures LengthField(b + next, 0) == LengthField(b, 0) && (b + next)[4] == b[4] && (b + next)[5] == b[5]
  {
  }

  lemma SliceBefore(b: seq<U8>, next: seq<U8>, i: nat, j: nat)
    requires i <= j <= |b|
    ensures (b + next)[i..j] == b[i..j] && (b + next)[j..] == b[j..] + next
  {
  }

  /** What the reader has yielded, followed by what it still holds, is the one-shot parse
      of all the bytes it was given, however they were cut into reads. */
  lemma {:induction false} ChunkingIndependent(buf: seq<U8>, chunks: seq<seq<U8>>)
    ensures Feed(buf, chunks).packets + Parse(Feed(buf, chunks).buf) == Parse(buf + Concat(chunks))
    decreases |chunks|
  {
    hide Try, Parse, Yield;
    if chunks == [] {
      assert buf + Concat(chunks) == buf;
    } else {
      var a, tail := Try(buf + chunks[0]), Concat(chunks[1..]);
      var rest := Feed(a.buf, chunks[1..]);
      TryLosesNothing(buf + chunks[0], tail);
      ChunkingIndependent(a.buf, chunks[1..]);
      Associative(buf, chunks[0], tail);
      Associative(Yield(a.packet), rest.packets, Parse(rest.buf));
    }
  }

  lemma Associative<T>(a: seq<T>, b: seq<T>, c: seq<T>)
    ensures a + b + c == a + (b + c)
  {
  }

  /** Reads that time out. */
  function Empties(n: nat): (e: seq<seq<U8>>)
    ensures |e| == n
  {
    if n == 0 then [] else [[]] + Empties(n - 1)
  }

  /** A reader left alone hands out one whole packet per timed-out read until none is left. */
  lemma {:induction false} IdleReaderDrains(buf: seq<U8>, n: nat)
    requires n >= |Parse(buf)|
    ensures Feed(buf, Empties(n)).packets == Parse(buf)
    decreases n
  {
    hide Try, Parse, Yield;
    if n > 0 {
      assert Empties(n)[1..] == Empties(n - 1);
      assert buf + Empties(n)[0] == buf;
      TryLosesNothing(buf, []);
      var a := Try(buf);
      assert buf + [] == buf && a.buf + [] == a.buf;
      YieldIs();
      if a.packet.None? {
        NoneWhole(buf);
      } else {
        assert |Parse(buf)| == 1 + |Parse(a.buf)|;
      }
      IdleReaderDrains(a.buf, n - 1);
    }
  }

  /** Any chunking, then enough timed-out reads: exactly the packets of the byte stream. */
  lemma EveryChunkingYieldsTheParse(chunks: seq<seq<U8>>, idle: nat)
    requires idle >= |Parse(Concat(chunks))|
    ensures Feed([], chunks + Empties(idle)).packets == Parse(Concat(chunks))
  {
    ChunkingIndependent([], chunks);
    assert [] + Concat(chunks) == Concat(chunks);
    FeedAppend([], chunks, Empties(idle));
    IdleReaderDrains(Feed([], chunks).buf, idle);
  }

  lemma {:induction false} FeedAppend(buf: seq<U8>, a: seq<seq<U8>>, b: seq<seq<U8>>)
    ensures Feed(buf, a + b) == Reading(Feed(buf, a).packets + Feed(Feed(buf, a).buf, b).packets,
                                        Feed(Feed(buf, a).buf, b).buf)
    decreases |a|
  {
    hide Try, Yield;
    if a == [] {
      assert a + b == b;
    } else {
      assert (a + b)[1..] == a[1..] + b;
      var t := Try(buf + a[0]);
      FeedAppend(t.buf, a[1..], b);
      var first := Feed(t.buf, a[1..]);
      Associative(Yield(t.packet), first.packets, Feed(first.buf, b).packets);
    }
  }

  /** However many reads are made, the reader has returned no packet exactly if none is whole yet: it
      blocks instead of reporting that more data is needed. */
  lemma BlocksIffNoPacket(buf: seq<U8>, chunks: seq<seq<U8>>)
    requires chunks != []
    ensures Feed(buf, chunks).packets == [] <==> Parse(buf + Concat(chunks)) == []
  {
    hide Feed, Try, Parse, Concat, Yield;
    var k := |chunks| - 1;
    var before := Feed(buf, chunks[..k]);
    assert Yield(None) == [] && forall p: Packet :: Yield(Some(p)) == [p] by { YieldIs(); }
    FeedOneMore(buf, chunks[..k], chunks[k]);
    assert chunks == chunks[..k] + [chunks[k]];
    if Try(before.buf + chunks[k]).packet.None? {
      NoneWhole(before.buf + chunks[k]);
    }
    ChunkingIndependent(buf, chunks);
  }

  lemma YieldIs()
    ensures Yield(None) == [] && forall p: Packet :: Yield(Some(p)) == [p]
  {
  }

  lemma NoneWhole(buf: seq<U8>)
    requires Try(buf).packet.None?
    ensures Parse(buf) == [] && Parse(Try(buf).buf) == []
  {
    TryLosesNothing(buf, []);
    assert buf + [] == buf && Try(buf).buf + [] == Try(buf).buf;
  }

  /** What the reader holds after a turn that gave no packet: at most three bytes, or the beginning of one
      packet, so never more than a packet can have. */
  lemma HeldIsBounded(buf: seq<U8>)
    requires Try(buf).packet.None?
    ensures var held := Try(buf).buf;
      && (|held| <= 3
          || (MagicAt(held, 0) && (|held| < HEADER_LENGTH || |held| < HEADER_LENGTH + LengthField(held, 0))))
      && |held| < HEADER_LENGTH + TWO16
  {
    var i := Find(buf, 0);
    if i >= 0 {
      assert MagicAt(buf[i..], 0);
    }
  }

  /** More bytes never change the packets already complete. */
  lemma {:induction false} ParseGrows(b: seq<U8>, more: seq<U8>)
    ensures Parse(b) <= Parse(b + more)
    decreases |b|
  {
    TryLosesNothing(b, more);
    TryLosesNothing(b, []);
    assert b + [] == b;
    var a := Try(b);
    if a.packet.Some? {
      ParseGrows(a.buf, more);
      assert a.buf + [] == a.buf;
    }
  }

  // ---------------- Reading undoes writing ----------------

  /** Magic-free garbage and the four magic bytes overlap nowhere: "AERS" has no border. */
  lemma GarbageThenFrame(garbage: seq<U8>, p: Packet, rest: seq<U8>)
    requires MagicFree(garbage) && Framable(p)
    ensures Parse(garbage + Frame(p) + rest) == [p] + Parse(rest)
  {
    hide Frame, Parse, MagicFree;
    var f := Frame(p);
    var all := garbage + f + rest;
    NoMagicBeforeFrame(garbage, p, rest);
    ParseSkip(all, |garbage|);
    assert all[|garbage|..] == f + rest;
    FrameIsTaken(p, rest);
  }

  lemma NoMagicBeforeFrame(garbage: seq<U8>, p: Packet, rest: seq<U8>)
    requires MagicFree(garbage) && Framable(p)
    ensures forall j: nat :: j < |garbage| ==> !MagicAt(garbage + Frame(p) + rest, j)
  {
    var f := Frame(p);
    assert f[0] == 65 && f[1] == 69 && f[2] == 82 && f[3] == 83;
    var all := garbage + f + rest;
    forall j: nat | j < |garbage| ensures !MagicAt(all, j) {
      assert !MagicAt(garbage, j);
    }
  }

  lemma FrameIsTaken(p: Packet, rest: seq<U8>)
    requires Framable(p)
    ensures Parse(Frame(p) + rest) == [p] + Parse(rest)
  {
    var f := Frame(p);
    var n := |p.payload|;
    assert LengthField(f, 0) == n % 256 + 256 * (n / 256) == n;
    assert f[HEADER_LENGTH..HEADER_LENGTH + n] == p.payload;
    assert f[HEADER_LENGTH + n..] == [];
    TakeWhole(f, rest);
    assert [] + rest == rest;
  }

  /** Frames after magic-free garbage are read back exactly, whatever bytes they carry. */
  lemma {:induction false} ParseFrames(garbage: seq<U8>, ps: seq<Packet>)
    requires MagicFree(garbage)
    requires forall p :: p in ps ==> Framable(p)
    ensures Parse(garbage + Frames(ps)) == ps
    decreases |ps|
  {
    hide MagicAt, Frame, Parse;
    if ps == [] {
      assert garbage + Frames(ps) == garbage;
      NothingInGarbage(garbage);
    } else {
      GarbageThenFrame(garbage, ps[0], Frames(ps[1..]));
      ParseFrames([], ps[1..]);
      assert [] + Frames(ps[1..]) == Frames(ps[1..]);
      assert garbage + (Frame(ps[0]) + Frames(ps[1..])) == garbage + Frame(ps[0]) + Frames(ps[1..]);
      assert MagicFree([]);
    }
  }

  lemma NothingInGarbage(garbage: seq<U8>)
    requires MagicFree(garbage)
    ensures Parse(garbage) == []
  {
  }
}
