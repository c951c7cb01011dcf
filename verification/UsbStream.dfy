/** Event records inside stream packets: the firmware's writer (pico_aer_rx/usb_stream.c), the
    callback that feeds it (pico_aer_rx/aer_event_sink.c), and the host's record walker
    (scripts/view_events.py). */
module UsbStream {
  import opened Words
  import opened Framing

  const REC_NOTS: U8 := 1
  const REC_TICKS: U8 := 2
  const FLAG_ON: U8 := 1

  datatype Event = Event(row: U8, col: U8)

  /** One record as it is written: with the cycle counter or without. */
  datatype Record = Plain(flags: U8, event: Event) | Timed(flags: U8, event: Event, ticks: U32)

  function LittleEndian32(x: U32): (b: seq<U8>)
    ensures |b| == 4
  {
    [x % 256, x / 256 % 256, x / 65536 % 256, x / 16777216]
  }

  function RecordBytes(r: Record): seq<U8> {
    match r
    case Plain(flags, e) => [REC_NOTS, flags, e.row, e.col]
    case Timed(flags, e, ticks) => [REC_TICKS, flags, e.row, e.col] + LittleEndian32(ticks)
  }

  // ---------------- The firmware side ----------------

  /** State of the USB wrapper: port, configuration, counters. `tickReads` counts reads of the cycle
      counter. */
  datatype Usb = Usb(port: Port, timestamps: bool, sent: U32, dropped: U32, tickReads: nat)

  function RecordFor(ticks: nat -> U32, timestamps: bool, n: nat, flags: U8, e: Event): Record {
    if timestamps then Timed(flags, e, ticks(n)) else Plain(flags, e)
  }

  function RecordPacket(r: Record): (p: Packet)
    ensures Framable(p)
  {
    Packet(VERSION, EVENT_BIN, RecordBytes(r))
  }

  datatype Sending = Sending(ok: bool, usb: Usb)

  function Send(ticks: nat -> U32, u: Usb, e: Event, flags: U8): Sending {
    if !IsOpen(u.port) then Sending(false, u.(port := Asked(u.port), dropped := Increment(u.dropped)))
    else
      var w := PutPacket(Asked(u.port), RecordPacket(RecordFor(ticks, u.timestamps, u.tickReads, flags, e)));
      Sending(w.ok, u.(port := w.port,
                       sent := if w.ok then Increment(u.sent) else u.sent,
                       tickReads := u.tickReads + if u.timestamps then 1 else 0))
  }

  class UsbStream {
    const hal: HalStream
    /** The value of the cycle counter at its n-th read. */
    const ticks: nat -> U32
    var timestampsEnabled: bool
    var eventsSent: U32
    var eventsDropped: U32
    var tickReads: nat

    constructor (hal: HalStream, ticks: nat -> U32, timestamps: bool)
      ensures this.hal == hal && this.ticks == ticks
      ensures View() == Usb(hal.View(), timestamps, 0, 0, 0)
    {
      this.hal, this.ticks := hal, ticks;
      timestampsEnabled, eventsSent, eventsDropped, tickReads := timestamps, 0, 0, 0;
    }

    ghost function View(): Usb
      reads this, hal
    {
      Usb(hal.View(), timestampsEnabled, eventsSent, eventsDropped, tickReads)
    }

    method SendEvent(row: U8, col: U8, flags: U8) returns (ok: bool)
      modifies this, hal
      ensures Sending(ok, View()) == Send(ticks, old(View()), Event(row, col), flags)
    {
      hide PutPacket, LittleEndian32;
      var connected := hal.IsConnected();
      if !connected {
        eventsDropped := Increment(eventsDropped);
        return false;
      }
      if timestampsEnabled {
        var now := ticks(tickReads);
        tickReads := tickReads + 1;
        var e: seq<U8> := [REC_TICKS, flags, row, col] + LittleEndian32(now);
        ok := hal.Write(EVENT_BIN, e);
      } else {
        var e: seq<U8> := [REC_NOTS, flags, row, col];
        ok := hal.Write(EVENT_BIN, e);
      }
      if ok {
        eventsSent := Increment(eventsSent);
      }
    }
  }

  /** The event sink's switch and statistics. */
  datatype Sink = Sink(enabled: bool, emitted: U32, sentOk: U32, failed: U32)

  /** The sink as `main` sets it up. */
  const NEW_SINK := Sink(true, 0, 0, 0)

  /** What has left the burst assembler: its events, and the sink and USB stream behind them if any. */
  datatype Output = Output(events: seq<Event>, sink: Sink, usb: Option<Usb>)

  /** A device that has not sent anything. */
  function Silent(usb: Usb): Output {
    Output([], NEW_SINK, Some(usb))
  }

  function Deliver(ticks: nat -> U32, o: Output, e: Event): Output {
    var k := o.sink.(emitted := Increment(o.sink.emitted));
    if o.usb.None? then o.(events := o.events + [e])
    else if !k.enabled then Output(o.events + [e], k.(failed := Increment(k.failed)), o.usb)
    else
      var r := Send(ticks, o.usb.value, e, FLAG_ON);
      Output(o.events + [e],
             if r.ok then k.(sentOk := Increment(k.sentOk)) else k.(failed := Increment(k.failed)),
             Some(r.usb))
  }

  function DeliverAll(ticks: nat -> U32, o: Output, es: seq<Event>): Output {
    if es == [] then o
    else Deliver(ticks, DeliverAll(ticks, o, es[..|es| - 1]), es[|es| - 1])
  }

  lemma {:induction false} DeliverAppend(ticks: nat -> U32, o: Output, xs: seq<Event>, ys: seq<Event>)
    ensures DeliverAll(ticks, o, xs + ys) == DeliverAll(ticks, DeliverAll(ticks, o, xs), ys)
  {
    hide Deliver;
    if ys == [] {
      assert xs + ys == xs;
    } else {
      DeliverAppend(ticks, o, xs, ys[..|ys| - 1]);
      assert (xs + ys)[..|xs + ys| - 1] == xs + ys[..|ys| - 1];
    }
  }

  /** The event callback, with a log of its calls: on the device it forwards to the USB stream and
      counts, on the host it does neither. */
  class EventSink {
    const usb: UsbStream?
    const ticks: nat -> U32
    var enabled: bool
    var eventsEmitted: U32
    var usbSentOk: U32
    var usbSendFailed: U32
    ghost var events: seq<Event>

    constructor OnDevice(usb: UsbStream, enabled: bool)
      ensures this.usb == usb && Valid() && this.ticks == usb.ticks
      ensures View() == Output([], Sink(enabled, 0, 0, 0), Some(usb.View()))
    {
      this.usb, this.ticks, this.events := usb, usb.ticks, [];
      this.enabled, eventsEmitted, usbSentOk, usbSendFailed := enabled, 0, 0, 0;
    }

    constructor OnHost()
      ensures this.usb == null && Valid() && View() == Output([], NEW_SINK, None)
    {
      this.usb, this.ticks, this.events := null, _ => 0, [];
      enabled, eventsEmitted, usbSentOk, usbSendFailed := true, 0, 0, 0;
    }

    ghost predicate Valid() {
      usb != null ==> ticks == usb.ticks
    }

    ghost function View(): Output
      reads Footprint(this)
      requires Valid()
    {
      Output(events, Sink(enabled, eventsEmitted, usbSentOk, usbSendFailed),
             if usb == null then None else Some(usb.View()))
    }

    method SetEnabled(on: bool)
      requires Valid()
      modifies this`enabled
      ensures View() == var o := old(View()); o.(sink := o.sink.(enabled := on))
    {
      enabled := on;
    }

    method OnEvent(row: U8, col: U8)
      requires Valid()
      modifies Footprint(this)
      ensures View() == Deliver(ticks, old(View()), Event(row, col))
    {
      hide Send;
      events := events + [Event(row, col)];
      if usb == null {
        return;
      }
      eventsEmitted := Increment(eventsEmitted);
      if !enabled {
        usbSendFailed := Increment(usbSendFailed);
        return;
      }
      var ok := usb.SendEvent(row, col, FLAG_ON);
      if ok {
        usbSentOk := Increment(usbSentOk);
      } else {
        usbSendFailed := Increment(usbSendFailed);
      }
    }
  }

  /** Everything a callback may change. */
  ghost function Footprint(cb: EventSink?): set<object> {
    if cb == null then {} else if cb.usb == null then {cb} else {cb, cb.usb, cb.usb.hal}
  }

  /** The bytes on the wire for one event. */
  lemma BytesOnTheWire(flags: U8, e: Event, ticks: U32)
    ensures Frame(RecordPacket(Plain(flags, e))) == [65, 69, 82, 83, 1, 2, 4, 0, 1, flags, e.row, e.col]
    ensures Frame(RecordPacket(Timed(flags, e, ticks)))
            == [65, 69, 82, 83, 1, 2, 8, 0, 2, flags, e.row, e.col,
                ticks % 256, ticks / 256 % 256, ticks / 65536 % 256, ticks / 16777216]
  {
  }

  /** One event sent on a reliable port, whatever its flags: these bytes, and one more sent. */
  lemma SendWrites(ticks: nat -> U32, u: Usb, e: Event, flags: U8)
    requires Reliable(u.port)
    ensures var s, t := Send(ticks, u, e, flags), ticks(u.tickReads);
      && s.ok && s.usb.sent == Increment(u.sent) && s.usb.dropped == u.dropped
      && s.usb.tickReads == u.tickReads + (if u.timestamps then 1 else 0)
      && s.usb.port.wire == u.port.wire
         + if u.timestamps then [65, 69, 82, 83, 1, 2, 8, 0, 2, flags, e.row, e.col,
                                 t % 256, t / 256 % 256, t / 65536 % 256, t / 16777216]
           else [65, 69, 82, 83, 1, 2, 4, 0, 1, flags, e.row, e.col]
  {
    hide PutPacket, RecordPacket, Frame;
    ReliableAsked(u.port);
    BytesOnTheWire(flags, e, ticks(u.tickReads));
    ReliableWrites(Asked(u.port), RecordPacket(RecordFor(ticks, u.timestamps, u.tickReads, flags, e)));
  }

  /** A disabled sink sends nothing and counts every event as failed. */
  lemma {:induction false} DisabledSinkSendsNothing(ticks: nat -> U32, o: Output, es: seq<Event>)
    requires o.usb.Some? && !o.sink.enabled
    ensures var o2 := DeliverAll(ticks, o, es);
      && o2.usb == o.usb && o2.sink.sentOk == o.sink.sentOk && !o2.sink.enabled
      && o2.sink.failed == (o.sink.failed + |es|) % TWO32
  {
    hide Increment;
    if es == [] {
      Wrapped(o.sink.failed);
    } else {
      DisabledSinkSendsNothing(ticks, o, es[..|es| - 1]);
      IncrementIs(o.sink.failed + |es| - 1);
    }
  }

  /** On a port that is closed throughout nothing is written and every event counts as dropped. */
  lemma {:induction false} ClosedPortDrops(ticks: nat -> U32, o: Output, es: seq<Event>)
    requires o.usb.Some? && o.sink.enabled && forall n: nat :: !o.usb.value.port.open(n)
    ensures var o2, u := DeliverAll(ticks, o, es), o.usb.value;
      && o2.usb.Some? && o2.sink.enabled && o2.sink.sentOk == o.sink.sentOk
      && o2.usb.value.port.wire == u.port.wire && o2.usb.value.port.open == u.port.open
      && o2.usb.value.sent == u.sent && o2.usb.value.dropped == (u.dropped + |es|) % TWO32
  {
    hide Increment, PutPacket, RecordPacket;
    if es == [] {
      Wrapped(o.usb.value.dropped);
    } else {
      ClosedPortDrops(ticks, o, es[..|es| - 1]);
      IncrementIs(o.usb.value.dropped + |es| - 1);
    }
  }

  /** On a reliable port the stream counts every event as sent and none as dropped. */
  lemma {:induction false} ReliablePortSends(ticks: nat -> U32, o: Output, es: seq<Event>)
    requires o.usb.Some? && o.sink.enabled && Reliable(o.usb.value.port)
    ensures var o2, u := DeliverAll(ticks, o, es), o.usb.value;
      && o2.usb.Some? && o2.usb.value.sent == (u.sent + |es|) % TWO32 && o2.usb.value.dropped == u.dropped
      && o2.sink.sentOk == (o.sink.sentOk + |es|) % TWO32
  {
    hide Increment, PutPacket, RecordPacket, Reliable;
    if es == [] {
      Wrapped(o.usb.value.sent);
      Wrapped(o.sink.sentOk);
    } else {
      var k := |es| - 1;
      var mid := DeliverAll(ticks, o, es[..k]);
      ReliablePortSends(ticks, o, es[..k]);
      DeliveryWritesPackets(ticks, o, es[..k]);
      DeliveryKeeps(ticks, o, es[..k]);
      var port, u := mid.usb.value.port, mid.usb.value;
      ReliableAsked(port);
      ReliableWrites(Asked(port), RecordPacket(RecordFor(ticks, u.timestamps, u.tickReads, FLAG_ON, es[k])));
      IncrementIs(o.usb.value.sent + k);
      IncrementIs(o.sink.sentOk + k);
    }
  }

  lemma ReliableAsked(p: Port)
    requires Reliable(p)
    ensures IsOpen(p) && Reliable(Asked(p))
  {
  }

  // ---------------- The host side ----------------

  function IfOn(flags: U8, row: U8, col: U8): seq<Event> {
    if flags % 2 == 1 then [Event(row, col)] else []
  }

  /** The ON events of a payload: records are walked until one is cut short or unknown. */
  function Extract(p: seq<U8>): seq<Event> {
    if p == [] then []
    else if p[0] == REC_NOTS then
      if 4 > |p| then [] else IfOn(p[1], p[2], p[3]) + Extract(p[4..])
    else if p[0] == REC_TICKS then
      if 8 > |p| then [] else IfOn(p[1], p[2], p[3]) + Extract(p[8..])
    else []
  }

  method ExtractOnEvents(payload: seq<U8>) returns (events: seq<Event>)
    ensures events == Extract(payload)
  {
    hide Extract, IfOn;
    events := [];
    var i := 0;
    assert payload[0..] == payload;
    while i < |payload|
      invariant i <= |payload|
      invariant events + Extract(payload[i..]) == Extract(payload)
    {
      ExtractFrom(payload, i);
      ghost var done := events;
      var recType := payload[i];
      if recType == REC_NOTS {
        if i + 4 > |payload| {
          return;
        }
        var flags, row, col := payload[i + 1], payload[i + 2], payload[i + 3];
        i := i + 4;
        if flags % 2 == 1 {
          events := events + [Event(row, col)];
        }
        Taken(done, flags, row, col, Extract(payload[i..]));
      } else if recType == REC_TICKS {
        if i + 8 > |payload| {
          return;
        }
        var flags, row, col := payload[i + 1], payload[i + 2], payload[i + 3];
        i := i + 8;
        if flags % 2 == 1 {
          events := events + [Event(row, col)];
        }
        Taken(done, flags, row, col, Extract(payload[i..]));
      } else {
        return;
      }
    }
    ExtractNothing();
    assert payload[i..] == [];
  }

  lemma Taken(done: seq<Event>, flags: U8, row: U8, col: U8, rest: seq<Event>)
    ensures (if flags % 2 == 1 then done + [Event(row, col)] else done) + rest == done + (IfOn(flags, row, col) + rest)
  {
  }

  lemma ExtractNothing()
    ensures Extract([]) == []
  {
  }

  lemma ExtractFrom(p: seq<U8>, i: nat)
    requires i < |p|
    ensures Extract(p[i..]) ==
            if p[i] == REC_NOTS && i + 4 <= |p| then IfOn(p[i + 1], p[i + 2], p[i + 3]) + Extract(p[i + 4..])
            else if p[i] == REC_TICKS && i + 8 <= |p| then IfOn(p[i + 1], p[i + 2], p[i + 3]) + Extract(p[i + 8..])
            else []
  {
    var q := p[i..];
    if i + 4 <= |p| {
      assert q[4..] == p[i + 4..];
    }
    if i + 8 <= |p| {
      assert q[8..] == p[i + 8..];
    }
  }

  function RecordsBytes(rs: seq<Record>): seq<U8> {
    if rs == [] then [] else RecordBytes(rs[0]) + RecordsBytes(rs[1..])
  }

  function OnEvents(rs: seq<Record>): seq<Event> {
    if rs == [] then [] else (if rs[0].flags % 2 == 1 then [rs[0].event] else []) + OnEvents(rs[1..])
  }

  /** Records of both kinds, packed in any order into one payload, are read back exactly;
      a record cut short at the end, or of unknown type, ends the walk and loses nothing before it. */
  lemma {:induction false} RecordsRoundTrip(rs: seq<Record>, tail: seq<U8>)
    requires Extract(tail) == []
    ensures Extract(RecordsBytes(rs) + tail) == OnEvents(rs)
  {
    if rs == [] {
      assert RecordsBytes(rs) + tail == tail;
    } else {
      var bytes := RecordBytes(rs[0]);
      var rest := RecordsBytes(rs[1..]) + tail;
      RecordsRoundTrip(rs[1..], tail);
      assert RecordsBytes(rs) + tail == bytes + rest;
      assert (bytes + rest)[|bytes|..] == rest;
      assert |bytes| == if rs[0].Plain? then 4 else 8;
      assert bytes[0] == if rs[0].Plain? then REC_NOTS else REC_TICKS;
      assert bytes[1] == rs[0].flags && bytes[2] == rs[0].event.row && bytes[3] == rs[0].event.col;
    }
  }

  /** What the host shows for a stream of packets: the ON events of its event packets. */
  function HostEvents(ps: seq<Packet>): seq<Event> {
    if ps == [] then []
    else (if ps[0].ptype == EVENT_BIN then Extract(ps[0].payload) else []) + HostEvents(ps[1..])
  }

  /** Packets that are not of events show nothing. */
  lemma OtherPacketsShowNothing(before: seq<Packet>, p: Packet, after: seq<Packet>)
    requires p.ptype != 2
    ensures HostEvents(before + [p] + after) == HostEvents(before + after)
  {
    HostEventsAppend(before + [p], after);
    HostEventsAppend(before, [p]);
    HostEventsAppend(before, after);
    assert [p][1..] == [];
    assert HostEvents([p]) == [] + HostEvents([]);
  }

  lemma {:induction false} HostEventsAppend(ps: seq<Packet>, qs: seq<Packet>)
    ensures HostEvents(ps + qs) == HostEvents(ps) + HostEvents(qs)
  {
    if ps == [] {
      assert ps + qs == qs;
    } else {
      assert (ps + qs)[1..] == ps[1..] + qs;
      HostEventsAppend(ps[1..], qs);
    }
  }

  // ---------------- Device to host ----------------

  /** The packets of a list of events, the first stamped by cycle-counter read `n`. */
  function PacketsFor(ticks: nat -> U32, timestamps: bool, n: nat, es: seq<Event>): (ps: seq<Packet>)
    ensures |ps| == |es| && forall p :: p in ps ==> Framable(p)
  {
    if es == [] then []
    else
      var k := |es| - 1;
      var r := RecordFor(ticks, timestamps, n + (if timestamps then k else 0), FLAG_ON, es[k]);
      PacketsFor(ticks, timestamps, n, es[..k]) + [RecordPacket(r)]
  }

  /** The packets the stream has sent since it was `u`. */
  ghost function PacketsSince(ticks: nat -> U32, u: Usb, es: seq<Event>): (ps: seq<Packet>)
    ensures |ps| == |es| && forall p :: p in ps ==> Framable(p)
  {
    PacketsFor(ticks, u.timestamps, u.tickReads, es)
  }

  lemma {:induction false} DeliveryKeeps(ticks: nat -> U32, o: Output, es: seq<Event>)
    ensures var o2 := DeliverAll(ticks, o, es);
      && o2.events == o.events + es && o2.sink.enabled == o.sink.enabled
      && (o2.usb.Some? <==> o.usb.Some?)
      && (o.usb.Some? ==> o2.usb.value.timestamps == o.usb.value.timestamps)
  {
    hide PutPacket, RecordPacket;
    if es == [] {
      assert o.events + es == o.events;
    } else {
      var k := |es| - 1;
      DeliveryKeeps(ticks, o, es[..k]);
      Associative(o.events, es[..k], [es[k]]);
      assert es[..k] + [es[k]] == es;
    }
  }

  /** The sink's statistics, whatever the port does: every event is counted, and counted once more as
      sent or as failed. */
  lemma {:induction false} SinkCounts(ticks: nat -> U32, o: Output, es: seq<Event>)
    requires o.usb.Some?
    ensures var k, k2 := o.sink, DeliverAll(ticks, o, es).sink;
      && k2.emitted == (k.emitted + |es|) % TWO32
      && (k2.sentOk + k2.failed) % TWO32 == (k.sentOk + k.failed + |es|) % TWO32
  {
    hide Deliver, Increment;
    if es == [] {
      Wrapped(o.sink.emitted);
    } else {
      var k := |es| - 1;
      var mid := DeliverAll(ticks, o, es[..k]);
      SinkCounts(ticks, o, es[..k]);
      DeliveryKeeps(ticks, o, es[..k]);
      OneCounted(ticks, mid, es[k]);
      IncrementIs(o.sink.emitted + k);
      SameNext(mid.sink.sentOk + mid.sink.failed, o.sink.sentOk + o.sink.failed + k);
    }
  }

  lemma OneCounted(ticks: nat -> U32, o: Output, e: Event)
    requires o.usb.Some?
    ensures var k, k2 := o.sink, Deliver(ticks, o, e).sink;
      k2.emitted == Increment(k.emitted) && (k2.sentOk + k2.failed) % TWO32 == (k.sentOk + k.failed + 1) % TWO32
  {
    hide Send;
  }

  lemma Wrapped(x: U32)
    ensures x % TWO32 == x
  {
  }

  lemma SameNext(a: nat, b: nat)
    requires a % TWO32 == b % TWO32
    ensures (a + 1) % TWO32 == (b + 1) % TWO32
  {
  }

  /** On a reliable port every delivered event becomes one whole packet, in order, and none fails. */
  lemma {:induction false} DeliveryWritesPackets(ticks: nat -> U32, o: Output, es: seq<Event>)
    requires o.usb.Some? && Reliable(o.usb.value.port) && o.sink.enabled
    ensures var u, o2 := o.usb.value, DeliverAll(ticks, o, es);
      && o2.usb.Some? && Reliable(o2.usb.value.port) && o2.sink.failed == o.sink.failed
      && o2.usb.value.tickReads == u.tickReads + (if u.timestamps then |es| else 0)
      && o2.usb.value.port.wire == u.port.wire + Frames(PacketsSince(ticks, u, es))
  {
    hide Reliable, Deliver, RecordPacket;
    var u := o.usb.value;
    if es == [] {
      assert u.port.wire + [] == u.port.wire;
    } else {
      var k := |es| - 1;
      var mid := DeliverAll(ticks, o, es[..k]);
      DeliveryKeeps(ticks, o, es[..k]);
      DeliveryWritesPackets(ticks, o, es[..k]);
      DeliverOne(ticks, mid, es[k]);
      var p := RecordPacket(RecordFor(ticks, u.timestamps, mid.usb.value.tickReads, FLAG_ON, es[k]));
      var ps := PacketsSince(ticks, u, es[..k]);
      assert DeliverAll(ticks, o, es) == Deliver(ticks, mid, es[k]);
      assert PacketsSince(ticks, u, es) == ps + [p];
      hide *;
      OneFrame(p);
      FramesAppend(ps, [p]);
      Associative(u.port.wire, Frames(ps), Frames([p]));
    }
  }

  lemma DeliverOne(ticks: nat -> U32, o: Output, e: Event)
    requires o.usb.Some? && Reliable(o.usb.value.port) && o.sink.enabled
    ensures var o2, u := Deliver(ticks, o, e), o.usb.value;
      && o2.usb.Some? && Reliable(o2.usb.value.port) && o2.sink.failed == o.sink.failed
      && o2.usb.value.tickReads == u.tickReads + (if u.timestamps then 1 else 0)
      && o2.usb.value.port.wire
         == u.port.wire + Frame(RecordPacket(RecordFor(ticks, u.timestamps, u.tickReads, FLAG_ON, e)))
  {
    hide PutPacket, RecordPacket, Frame;
    var port := o.usb.value.port;
    assert IsOpen(port) && Reliable(Asked(port));
    var u := o.usb.value;
    ReliableWrites(Asked(port), RecordPacket(RecordFor(ticks, u.timestamps, u.tickReads, FLAG_ON, e)));
  }

  lemma OneFrame(p: Packet)
    requires Framable(p)
    ensures Frames([p]) == Frame(p)
  {
    assert Frame(p) + [] == Frame(p);
  }

  /** The host reads from those packets exactly the delivered events, with or without
      timestamps and whatever the cycle counter said. */
  lemma {:induction false} PacketsReadBack(ticks: nat -> U32, timestamps: bool, n: nat, es: seq<Event>)
    ensures HostEvents(PacketsFor(ticks, timestamps, n, es)) == es
  {
    hide HostEvents, RecordPacket, RecordFor, Extract, Framable;
    if es == [] {
      HostShowsNothing();
    } else {
      var k := |es| - 1;
      var m := n + if timestamps then k else 0;
      var p := RecordPacket(RecordFor(ticks, timestamps, m, FLAG_ON, es[k]));
      PacketsReadBack(ticks, timestamps, n, es[..k]);
      OneEventPacket(ticks, timestamps, m, es[k]);
      HostEventsAppend(PacketsFor(ticks, timestamps, n, es[..k]), [p]);
      assert es == es[..k] + [es[k]];
    }
  }

  lemma HostShowsNothing()
    ensures HostEvents([]) == []
  {
  }

  lemma OneEventPacket(ticks: nat -> U32, timestamps: bool, m: nat, e: Event)
    ensures HostEvents([RecordPacket(RecordFor(ticks, timestamps, m, FLAG_ON, e))]) == [e]
  {
    ExtractNothing();
    hide RecordsBytes, Extract;
    var r := RecordFor(ticks, timestamps, m, FLAG_ON, e);
    RecordsRoundTrip([r], []);
    OneRecord(r);
    assert HostEvents([]) == [];
  }

  lemma OneRecord(r: Record)
    ensures RecordsBytes([r]) + [] == RecordBytes(r)
    ensures OnEvents([r]) == IfOn(r.flags, r.event.row, r.event.col)
  {
  }
}
