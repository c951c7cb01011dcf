/** A host that opens the port in the middle of an event frame: the rest of the frame is garbage to the
    reader, and these lemmas say exactly when it costs no later packet. */
module Joining {
  import opened Words
  import opened Framing
  import opened UsbStream

  /** An ON event of the sensor as the firmware writes it. */
  predicate SensorRecord(r: Record) {
    r.flags == FLAG_ON && r.event.row < 32 && r.event.col < 32
  }

  /** The cycle counter reads, byte for byte, like the packet magic. */
  predicate MagicTicks(r: Record) {
    r.Timed? && LittleEndian32(r.ticks) == MAGIC
  }

  const TICKS_AT: nat := 12

  lemma FrameBytes(r: Record)
    requires SensorRecord(r)
    ensures var f := Frame(RecordPacket(r));
      && |f| == (if r.Timed? then 16 else 12)
      && f[0] == 65 && f[1] == 69 && f[2] == 82 && f[3] == 83
      && f[4] == VERSION && f[5] == EVENT_BIN && f[6] == |f| - HEADER_LENGTH && f[7] == 0
      && f[8] <= 2 && f[9] == FLAG_ON && f[10] < 32 && f[11] < 32
      && (r.Timed? ==> f[TICKS_AT..] == LittleEndian32(r.ticks))
  {
  }

  /** Inside an event frame magic can only be made of tick bytes. */
  lemma MagicInside(r: Record, m: nat)
    requires SensorRecord(r) && m > 0
    ensures MagicAt(Frame(RecordPacket(r)), m) <==> MagicTicks(r) && m == TICKS_AT
  {
    hide RecordPacket, Frame, LittleEndian32;
    FrameBytes(r);
    var f := Frame(RecordPacket(r));
    if r.Timed? {
      var t := LittleEndian32(r.ticks);
      assert f[12] == t[0] && f[13] == t[1] && f[14] == t[2] && f[15] == t[3] by {
        assert f[TICKS_AT..][0] == f[12] && f[TICKS_AT..][1] == f[13];
        assert f[TICKS_AT..][2] == f[14] && f[TICKS_AT..][3] == f[15];
      }
      assert t == [t[0], t[1], t[2], t[3]];
    }
  }

  /** What is left of an event frame cut anywhere after its first byte is free of magic exactly if the cut
      is behind the ticks' first byte or the ticks do not read like magic. */
  lemma TailIsMagicFreeIff(r: Record, cut: nat)
    requires SensorRecord(r) && 0 < cut <= |Frame(RecordPacket(r))|
    ensures MagicFree(Frame(RecordPacket(r))[cut..]) <==> !(MagicTicks(r) && cut <= TICKS_AT)
  {
    hide RecordPacket, Frame, LittleEndian32;
    var f := Frame(RecordPacket(r));
    forall j: nat ensures MagicAt(f[cut..], j) <==> MagicTicks(r) && cut + j == TICKS_AT {
      MagicInside(r, cut + j);
      assert MagicAt(f[cut..], j) <==> MagicAt(f, cut + j);
    }
    if MagicTicks(r) && cut <= TICKS_AT {
      assert MagicAt(f[cut..], TICKS_AT - cut);
    }
  }

  /** Joining there, the reader gets exactly the later packets if and only if there are none or the rest of
      the frame is free of magic; otherwise the first later frame is taken for the end of a header. */
  lemma JoiningIsHarmlessIff(r: Record, cut: nat, ps: seq<Packet>)
    requires SensorRecord(r) && 0 < cut <= |Frame(RecordPacket(r))|
    requires forall p :: p in ps ==> Framable(p)
    ensures Parse(Frame(RecordPacket(r))[cut..] + Frames(ps)) == ps
            <==> ps == [] || !(MagicTicks(r) && cut <= TICKS_AT)
  {
    hide RecordPacket, Frame, LittleEndian32, Parse, Frames, MagicFree;
    var tail := Frame(RecordPacket(r))[cut..];
    TailIsMagicFreeIff(r, cut);
    if !(MagicTicks(r) && cut <= TICKS_AT) {
      ParseFrames(tail, ps);
    } else {
      MagicTail(r, cut, Frames(ps));
      AfterMagic(ps);
    }
  }

  lemma MagicTail(r: Record, cut: nat, rest: seq<U8>)
    requires SensorRecord(r) && MagicTicks(r) && 0 < cut <= TICKS_AT
    requires cut <= |Frame(RecordPacket(r))|
    ensures Parse(Frame(RecordPacket(r))[cut..] + rest) == Parse(MAGIC + rest)
  {
    hide RecordPacket, Frame, LittleEndian32, Parse;
    FrameBytes(r);
    var f := Frame(RecordPacket(r));
    var b, k := f[cut..] + rest, TICKS_AT - cut;
    assert b[k..] == MAGIC + rest;
    forall j: nat | j < k ensures !MagicAt(b, j) {
      MagicInside(r, cut + j);
      assert b[j] == f[cut + j] && b[j + 1] == f[cut + j + 1];
      assert b[j + 2] == f[cut + j + 2] && b[j + 3] == f[cut + j + 3];
    }
    ParseSkip(b, k);
  }

  /** Frames behind four bytes of magic: the first frame's magic is read as version, type and length. */
  lemma AfterMagic(ps: seq<Packet>)
    requires forall p :: p in ps ==> Framable(p)
    ensures Parse(MAGIC + Frames(ps)) == ps <==> ps == []
  {
    var b := MAGIC + Frames(ps);
    assert MagicAt(b, 0);
    FindIs(b, 0);
    ParseIs(b);
    if ps != [] {
      var f := Frame(ps[0]);
      assert f[0] == 65;
      assert b[4] == f[0];
      hide Parse, Frames;
      assert ps[0].ver == VERSION;
    }
  }
}
