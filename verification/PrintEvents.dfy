/** The printing tool's record walker (scripts/print_events.py), cycle-counter values included. */
module PrintEvents {
  import opened Words
  import opened Framing
  import opened UsbStream

  /** A line the printing tool writes: an ON event, with its ticks if it has some and they are
      wanted, or the warning that ends the walk. */
  datatype Line = On(event: Event) | OnAt(event: Event, ticks: U32) | UnknownRecord(recType: U8, payloadLen: nat)

  function FromLittleEndian32(b: seq<U8>): U32
    requires |b| == 4
  {
    (b[0] as int) + 256 * (b[1] as int) + 65536 * (b[2] as int) + 16777216 * (b[3] as int)
  }

  lemma LittleEndianRoundTrip(x: U32)
    ensures FromLittleEndian32(LittleEndian32(x)) == x
  {
    assert x == x % 256 + 256 * (x / 256);
    assert x / 256 == x / 256 % 256 + 256 * (x / 65536);
    assert x / 65536 == x / 65536 % 256 + 256 * (x / 16777216);
  }

  function LineFor(r: Record, showTicks: bool): seq<Line> {
    if r.flags % 2 == 0 then []
    else if r.Timed? && showTicks then [OnAt(r.event, r.ticks)]
    else [On(r.event)]
  }

  // ---------------- Text ----------------

  function Digit(d: nat): (c: char)
    requires d < 10
    ensures DigitOf(c) == d
  {
    ('0' as int + d) as char
  }

  /** The value of a decimal digit, or 10. */
  function DigitOf(c: char): (d: nat)
    ensures d <= 10
  {
    if '0' <= c <= '9' then c as int - '0' as int else 10
  }

  function Decimal(n: nat): string {
    if n < 10 then [Digit(n)] else Decimal(n / 10) + [Digit(n % 10)]
  }

  /** At least two digits. */
  function TwoDigits(n: nat): string {
    if n < 10 then "0" + Decimal(n) else Decimal(n)
  }

  const COL: string := " col="
  const TICKS: string := "  ticks="
  const LENGTH: string := "; payload_len="
  const ROW: string := "ON  row="
  const WARNING: string := "[warn] Unknown event record type "

  function Text(line: Line): string {
    match line
    case On(e) => ROW + (TwoDigits(e.row) + (COL + TwoDigits(e.col)))
    case OnAt(e, ticks) => ROW + (TwoDigits(e.row) + (COL + (TwoDigits(e.col) + (TICKS + Decimal(ticks)))))
    case UnknownRecord(recType, len) => WARNING + (Decimal(recType) + (LENGTH + Decimal(len)))
  }

  function Texts(lines: seq<Line>): (texts: seq<string>)
    ensures |texts| == |lines| && forall i :: 0 <= i < |lines| ==> texts[i] == Text(lines[i])
  {
    seq(|lines|, i requires 0 <= i < |lines| => Text(lines[i]))
  }

  /** Two digits below 100, with a leading zero; three from there on. */
  lemma TwoDigitsIs(n: U8)
    ensures n < 100 ==> TwoDigits(n) == [Digit(n / 10), Digit(n % 10)]
    ensures n >= 100 ==> TwoDigits(n) == [Digit(n / 100), Digit(n / 10 % 10), Digit(n % 10)]
  {
    if n < 10 {
      assert Digit(0) == '0' && n / 10 == 0;
    } else if n < 100 {
      assert Decimal(n / 10) == [Digit(n / 10)];
    } else {
      assert n / 10 / 10 == n / 100 < 10;
      assert Decimal(n / 10) == [Digit(n / 100)] + [Digit(n / 10 % 10)];
    }
  }

  datatype Scanned = Scanned(value: nat, rest: string)

  /** A number read from the front of a text. */
  function Scan(value: nat, s: string): Scanned
    decreases |s|
  {
    if s != [] && DigitOf(s[0]) < 10 then Scan(10 * value + DigitOf(s[0]), s[1..]) else Scanned(value, s)
  }

  lemma {:induction false} ScanDecimal(n: nat, rest: string)
    ensures Scan(0, Decimal(n) + rest) == Scan(n, rest)
  {
    if n < 10 {
      assert (Decimal(n) + rest)[1..] == rest;
    } else {
      var d := Digit(n % 10);
      ScanDecimal(n / 10, [d] + rest);
      assert Decimal(n) + rest == Decimal(n / 10) + ([d] + rest);
      assert ([d] + rest)[1..] == rest;
    }
  }

  lemma ScanTwoDigits(n: nat, rest: string)
    ensures Scan(0, TwoDigits(n) + rest) == Scan(n, rest)
  {
    ScanDecimal(n, rest);
    if n < 10 {
      assert TwoDigits(n) + rest == "0" + (Decimal(n) + rest);
      assert ("0" + (Decimal(n) + rest))[1..] == Decimal(n) + rest;
    }
  }

  lemma ScanStops(n: nat, rest: string)
    requires rest == [] || DigitOf(rest[0]) == 10
    ensures Scan(n, rest) == Scanned(n, rest)
  {
  }

  lemma Behind(front: string, rest: string)
    ensures (front + rest)[|front|..] == rest && (front != [] ==> (front + rest)[0] == front[0])
  {
  }

  /** The numbers in a line of text: those after its front, its middle and, if any is left, `TICKS`. */
  function Numbers(text: string, front: nat, middle: nat): seq<nat> {
    if front > |text| then []
    else
      var a := Scan(0, text[front..]);
      if middle > |a.rest| then []
      else
        var b := Scan(0, a.rest[middle..]);
        if |TICKS| > |b.rest| then [a.value, b.value]
        else [a.value, b.value, Scan(0, b.rest[|TICKS|..]).value]
  }

  function Values(line: Line): seq<nat> {
    match line
    case On(e) => [e.row, e.col]
    case OnAt(e, ticks) => [e.row, e.col, ticks]
    case UnknownRecord(recType, len) => [recType, len]
  }

  /** A line can be read back from its text: kind and values are all there. */
  lemma TextTellsLine(line: Line)
    ensures Text(line) != [] && (Text(line)[0] == '[' <==> line.UnknownRecord?)
    ensures var text := Text(line);
      Values(line) == if text[0] == '[' then Numbers(text, |WARNING|, |LENGTH|) else Numbers(text, |ROW|, |COL|)
  {
    hide Scan, Decimal, TwoDigits;
    match line {
      case On(e) =>
        NumbersOf(ROW, TwoDigits(e.row), e.row, COL, TwoDigits(e.col), e.col, []);
        assert TwoDigits(e.col) + [] == TwoDigits(e.col);
      case OnAt(e, ticks) =>
        NumbersOf(ROW, TwoDigits(e.row), e.row, COL, TwoDigits(e.col), e.col, TICKS + Decimal(ticks));
        Behind(TICKS, Decimal(ticks));
        LastNumber(ticks);
      case UnknownRecord(recType, len) =>
        NumbersOf(WARNING, Decimal(recType), recType, LENGTH, Decimal(len), len, []);
        assert Decimal(len) + [] == Decimal(len);
    }
  }

  lemma LastNumber(n: nat)
    ensures Scan(0, Decimal(n)) == Scanned(n, [])
  {
    assert Decimal(n) + [] == Decimal(n);
    ScanDecimal(n, []);
  }

  lemma NumbersOf(front: string, a: string, m: nat, middle: string, b: string, n: nat, rest: string)
    requires front != [] && (a == Decimal(m) || a == TwoDigits(m)) && (b == Decimal(n) || b == TwoDigits(n))
    requires middle != [] && DigitOf(middle[0]) == 10 && (rest == [] || DigitOf(rest[0]) == 10)
    ensures var text := front + (a + (middle + (b + rest)));
      && text[0] == front[0]
      && Numbers(text, |front|, |middle|)
         == [m, n] + if |TICKS| > |rest| then [] else [Scan(0, rest[|TICKS|..]).value]
  {
    hide Scan, Decimal, TwoDigits;
    var tail := middle + (b + rest);
    Behind(front, a + tail);
    ScanDecimal(m, tail);
    ScanTwoDigits(m, tail);
    Behind(middle, b + rest);
    ScanStops(m, tail);
    ScanDecimal(n, rest);
    ScanTwoDigits(n, rest);
    ScanStops(n, rest);
  }

  // ---------------- The walk ----------------

  /** What is printed for the rest `p` of a payload of `total` bytes. */
  function Printed(p: seq<U8>, showTicks: bool, total: nat): seq<Line> {
    if p == [] then []
    else if p[0] == REC_NOTS then
      if 4 > |p| then [] else LineFor(Plain(p[1], Event(p[2], p[3])), showTicks) + Printed(p[4..], showTicks, total)
    else if p[0] == REC_TICKS then
      if 8 > |p| then []
      else
        LineFor(Timed(p[1], Event(p[2], p[3]), FromLittleEndian32(p[4..8])), showTicks)
        + Printed(p[8..], showTicks, total)
    else [UnknownRecord(p[0], total)]
  }

  method DecodeAndPrintEvents(payload: seq<U8>, showTicks: bool) returns (lines: seq<string>)
    ensures lines == Texts(Printed(payload, showTicks, |payload|))
  {
    hide Printed, FromLittleEndian32, Text, Texts, LineFor;
    lines := [];
    var i := 0;
    ghost var total, shown := |payload|, [];
    NoTexts();
    assert payload[0..] == payload;
    while i < |payload|
      invariant i <= |payload|
      invariant shown + Printed(payload[i..], showTicks, total) == Printed(payload, showTicks, total)
      invariant lines == Texts(shown)
    {
      PrintedFrom(payload, i, showTicks, total);
      ghost var before := shown;
      var recType := payload[i];
      if recType == REC_NOTS {
        if i + 4 > |payload| {
          return;
        }
        var flags, row, col := payload[i + 1], payload[i + 2], payload[i + 3];
        i := i + 4;
        ghost var r := Plain(flags, Event(row, col));
        shown := shown + LineFor(r, showTicks);
        RecordTexts(before, r, showTicks, Printed(payload[i..], showTicks, total));
        if flags % 2 == 1 {
          lines := lines + [Text(On(Event(row, col)))];
        }
      } else if recType == REC_TICKS {
        if i + 8 > |payload| {
          return;
        }
        var flags, row, col := payload[i + 1], payload[i + 2], payload[i + 3];
        var ticks := FromLittleEndian32(payload[i + 4..i + 8]);
        i := i + 8;
        ghost var r := Timed(flags, Event(row, col), ticks);
        shown := shown + LineFor(r, showTicks);
        RecordTexts(before, r, showTicks, Printed(payload[i..], showTicks, total));
        if flags % 2 == 1 {
          if showTicks {
            lines := lines + [Text(OnAt(Event(row, col), ticks))];
          } else {
            lines := lines + [Text(On(Event(row, col)))];
          }
        }
      } else {
        TextsLast(shown, UnknownRecord(recType, |payload|));
        lines := lines + [Text(UnknownRecord(recType, |payload|))];
        return;
      }
    }
    assert payload[i..] == [];
    PrintsNothing(showTicks, total);
  }

  lemma NoTexts()
    ensures Texts([]) == []
  {
  }

  lemma TextsLast(lines: seq<Line>, line: Line)
    ensures Texts(lines + [line]) == Texts(lines) + [Text(line)]
  {
    hide Text;
  }

  lemma RecordTexts(lines: seq<Line>, r: Record, showTicks: bool, rest: seq<Line>)
    ensures lines + LineFor(r, showTicks) + rest == lines + (LineFor(r, showTicks) + rest)
    ensures r.flags % 2 == 0 ==> Texts(lines + LineFor(r, showTicks)) == Texts(lines)
    ensures r.flags % 2 == 1 ==>
              Texts(lines + LineFor(r, showTicks))
              == Texts(lines) + [Text(if r.Timed? && showTicks then OnAt(r.event, r.ticks) else On(r.event))]
  {
    hide Text, Texts;
    if r.flags % 2 == 1 {
      TextsLast(lines, LineFor(r, showTicks)[0]);
    } else {
      assert lines + [] == lines;
    }
  }

  lemma PrintsNothing(showTicks: bool, total: nat)
    ensures Printed([], showTicks, total) == []
  {
  }

  lemma PrintedFrom(p: seq<U8>, i: nat, showTicks: bool, total: nat)
    requires i < |p|
    ensures Printed(p[i..], showTicks, total) ==
            if p[i] == REC_NOTS then
              if i + 4 > |p| then []
              else LineFor(Plain(p[i + 1], Event(p[i + 2], p[i + 3])), showTicks)
                   + Printed(p[i + 4..], showTicks, total)
            else if p[i] == REC_TICKS then
              if i + 8 > |p| then []
              else LineFor(Timed(p[i + 1], Event(p[i + 2], p[i + 3]), FromLittleEndian32(p[i + 4..i + 8])), showTicks)
                   + Printed(p[i + 8..], showTicks, total)
            else [UnknownRecord(p[i], total)]
  {
    hide FromLittleEndian32, LineFor;
    var q := p[i..];
    if i + 4 <= |p| {
      assert q[4..] == p[i + 4..];
    }
    if i + 8 <= |p| {
      assert q[8..] == p[i + 8..] && q[4..8] == p[i + 4..i + 8];
    }
  }

  /** The events among the printed lines. */
  function ShownEvents(lines: seq<Line>): seq<Event> {
    if lines == [] then []
    else (if lines[0].UnknownRecord? then [] else [lines[0].event]) + ShownEvents(lines[1..])
  }

  /** Both tools show the same events for every payload, malformed ones included. */
  lemma {:induction false} ToolsAgree(p: seq<U8>, showTicks: bool, total: nat)
    ensures ShownEvents(Printed(p, showTicks, total)) == Extract(p)
  {
    hide FromLittleEndian32, LineFor, IfOn, ShownEvents;
    if p == [] {
      NothingShown();
    } else if p[0] == REC_NOTS && 4 <= |p| {
      ToolsAgree(p[4..], showTicks, total);
      ShownFirst(Plain(p[1], Event(p[2], p[3])), showTicks, Printed(p[4..], showTicks, total));
    } else if p[0] == REC_TICKS && 8 <= |p| {
      ToolsAgree(p[8..], showTicks, total);
      var r := Timed(p[1], Event(p[2], p[3]), FromLittleEndian32(p[4..8]));
      ShownFirst(r, showTicks, Printed(p[8..], showTicks, total));
    } else {
      NothingShown();
      WarningShown(p[0], total);
    }
  }

  lemma NothingShown()
    ensures ShownEvents([]) == []
  {
  }

  lemma WarningShown(recType: U8, total: nat)
    ensures ShownEvents([UnknownRecord(recType, total)]) == []
  {
  }

  lemma ShownFirst(r: Record, showTicks: bool, rest: seq<Line>)
    ensures ShownEvents(LineFor(r, showTicks) + rest) == IfOn(r.flags, r.event.row, r.event.col) + ShownEvents(rest)
  {
    var l := LineFor(r, showTicks);
    if l == [] {
      assert l + rest == rest;
    } else {
      assert (l + rest)[1..] == rest;
    }
  }

  function AllLines(rs: seq<Record>, showTicks: bool): seq<Line> {
    if rs == [] then [] else LineFor(rs[0], showTicks) + AllLines(rs[1..], showTicks)
  }

  /** Printed record by record, ticks and all; then whatever follows. */
  lemma {:induction false} RecordsPrintBack(rs: seq<Record>, tail: seq<U8>, showTicks: bool, total: nat)
    ensures Printed(RecordsBytes(rs) + tail, showTicks, total)
            == AllLines(rs, showTicks) + Printed(tail, showTicks, total)
  {
    hide Printed, FromLittleEndian32, LineFor, RecordBytes;
    if rs == [] {
      assert RecordsBytes(rs) + tail == tail;
    } else {
      var rest := RecordsBytes(rs[1..]) + tail;
      RecordsPrintBack(rs[1..], tail, showTicks, total);
      assert RecordsBytes(rs) + tail == RecordBytes(rs[0]) + rest;
      PrintedFirst(rs[0], rest, showTicks, total);
      Associative(LineFor(rs[0], showTicks), AllLines(rs[1..], showTicks), Printed(tail, showTicks, total));
    }
  }

  /** The text for one ON event as the firmware sends it: with the counter's value if it was sent and is
      wanted, without it otherwise, and none for an event that is not ON. */
  lemma OneEventText(flags: U8, e: Event, ticks: U32, showTicks: bool, total: nat)
    ensures var plain, timed := RecordBytes(Plain(flags, e)), RecordBytes(Timed(flags, e, ticks));
      var text := "ON  row=" + (TwoDigits(e.row) + (" col=" + TwoDigits(e.col)));
      var withTicks := "ON  row=" + (TwoDigits(e.row) + (" col=" + (TwoDigits(e.col) + ("  ticks=" + Decimal(ticks)))));
      && Texts(Printed(plain, showTicks, total)) == (if flags % 2 == 1 then [text] else [])
      && Texts(Printed(timed, showTicks, total))
         == (if flags % 2 == 0 then [] else if showTicks then [withTicks] else [text])
  {
    hide TwoDigits, Decimal, RecordBytes, Printed;
    PrintedFirst(Plain(flags, e), [], showTicks, total);
    PrintedFirst(Timed(flags, e, ticks), [], showTicks, total);
    PrintsNothing(showTicks, total);
    NothingAfter(RecordBytes(Plain(flags, e)));
    NothingAfter(RecordBytes(Timed(flags, e, ticks)));
    NothingAfter(LineFor(Plain(flags, e), showTicks));
    NothingAfter(LineFor(Timed(flags, e, ticks), showTicks));
  }

  lemma NothingAfter<T>(xs: seq<T>)
    ensures xs + [] == xs
  {
  }

  /** A record cut short ends the walk silently, one of unknown type with a warning. */
  lemma BadRecordText(p: seq<U8>, showTicks: bool, total: nat)
    requires p != []
    ensures (p[0] == 1 && |p| < 4) || (p[0] == 2 && |p| < 8) ==> Texts(Printed(p, showTicks, total)) == []
    ensures p[0] != 1 && p[0] != 2 ==>
              Texts(Printed(p, showTicks, total))
              == ["[warn] Unknown event record type " + (Decimal(p[0]) + ("; payload_len=" + Decimal(total)))]
  {
    hide Decimal;
  }

  lemma PrintedFirst(r: Record, rest: seq<U8>, showTicks: bool, total: nat)
    ensures Printed(RecordBytes(r) + rest, showTicks, total) == LineFor(r, showTicks) + Printed(rest, showTicks, total)
  {
    hide FromLittleEndian32, LineFor, Printed, LittleEndian32;
    var p := RecordBytes(r) + rest;
    assert p[|RecordBytes(r)|..] == rest;
    assert p[0..] == p;
    PrintedFrom(p, 0, showTicks, total);
    if r.Timed? {
      assert p[4..8] == LittleEndian32(r.ticks);
      LittleEndianRoundTrip(r.ticks);
    }
  }
}
