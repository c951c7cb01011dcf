/** The 1-of-4 codec (common/src/aer_codec.c), for any number of 4-line groups.

    Group `g` of a word is its `g`-th hexadecimal digit; a group is valid when exactly
    one of its four lines is high, and then stands for a 2-bit symbol. */
module Codec {
  import opened Words

  /** Sensor geometry of aer_cfg.h: groups on the bus, bits of a row or column index. */
  const GROUPS: nat := 3
  const INDEX_BITS: nat := 5
  const TAIL_PAYLOAD: nat := 63

  datatype CodecErr = Neutral | OutOfRange | MultiHot | ZeroHot | PadBitSet

  datatype Decoded = Decoded(ok: bool, payload: nat, isTail: bool, errs: set<CodecErr>)

  // ---------------- Specification, group by group ----------------

  predicate IsOneHot(nib: nat) {
    nib == 1 || nib == 2 || nib == 4 || nib == 8
  }

  /** The symbol a group contributes: invalid groups contribute nothing. */
  function Symbol(nib: nat): (s: nat)
    ensures s < 4
  {
    if nib == 2 then 1 else if nib == 4 then 2 else if nib == 8 then 3 else 0
  }

  /** The line that stands for a symbol. */
  function Line(sym: nat): (nib: nat)
    ensures sym < 4 ==> IsOneHot(nib) && Symbol(nib) == sym && nib == Pow(2, sym)
  {
    if sym == 0 then 1 else if sym == 1 then 2 else if sym == 2 then 4 else 8
  }

  predicate ValidWord(w: nat, n: nat) {
    n == 0 || (IsOneHot(w % 16) && ValidWord(w / 16, n - 1))
  }

  function Payload(w: nat, n: nat): nat {
    if n == 0 then 0 else Symbol(w % 16) + 4 * Payload(w / 16, n - 1)
  }

  predicate HasZeroGroup(w: nat, n: nat) {
    n > 0 && (w % 16 == 0 || HasZeroGroup(w / 16, n - 1))
  }

  predicate HasMultiGroup(w: nat, n: nat) {
    n > 0 && ((w % 16 != 0 && !IsOneHot(w % 16)) || HasMultiGroup(w / 16, n - 1))
  }

  /** The word on the bus for a payload. */
  function Encode(p: nat, n: nat): nat {
    if n == 0 then 0 else Line(p % 4) + 16 * Encode(p / 4, n - 1)
  }

  /** What decoding means: `n` groups, indices of `k` bits. */
  function Decode(n: nat, k: nat, raw: nat): Decoded {
    var above := if raw >= Pow(16, n) then {OutOfRange} else {};
    PowPositive(16, n);
    PowPositive(2, k);
    var w := raw % Pow(16, n);
    if w == 0 then Decoded(false, 0, false, above + {Neutral})
    else
      var ok := ValidWord(w, n);
      var p := Payload(w, n);
      var isTail := ok && p == Pow(4, n) - 1;
      Decoded(ok, p, isTail,
              above
              + (if HasZeroGroup(w, n) then {ZeroHot} else {})
              + (if HasMultiGroup(w, n) then {MultiHot} else {})
              + (if ok && !isTail && p / Pow(2, k) != 0 then {PadBitSet} else {}))
  }

  /** What is left of it in a `uint8_t` payload: tail and pad bits are read off the narrow value. */
  function Narrow(n: nat, k: nat, d: Decoded): Decoded {
    PowPositive(2, k);
    var p := d.payload % TWO8;
    var isTail := d.ok && p == Pow(4, n) - 1;
    Decoded(d.ok, p, isTail,
            (d.errs - {PadBitSet}) + if d.ok && !isTail && p / Pow(2, k) != 0 then {PadBitSet} else {})
  }

  /** `aer_decode_word` as the firmware configures it. */
  function DecodeRaw(raw: nat): Decoded {
    Decode(GROUPS, INDEX_BITS, raw)
  }

  // ---------------- The C loops refine the specification ----------------

  /** The SWAR bit count of a group is its number of high lines. */
  function PopCount4(x: nat): (c: nat)
    requires x < 16
    ensures c == Pop(x)
  {
    assert And(x / 2, 5) <= x by { PopCount4Digits(x); }
    var y: nat := x - And(x / 2, 5);
    PopCount4Digits(x);
    And(y, 3) + And(y / 4, 3)
  }

  lemma AndHalves(a: nat, b: nat)
    ensures And(a, b) == (if a % 2 == 1 && b % 2 == 1 then 1 else 0) + 2 * And(a / 2, b / 2)
  {
  }

  lemma {:induction false} AndZero(a: nat)
    ensures And(a, 0) == 0
  {
    if a > 0 {
      AndZero(a / 2);
    }
  }

  /** `&` with ones only is a remainder. */
  lemma {:induction false} AndLow(a: nat, k: nat)
    ensures Pow(2, k) > 0 && And(a, Pow(2, k) - 1) == a % Pow(2, k)
  {
    PowPositive(2, k);
    if k == 0 {
      AndZero(a);
    } else {
      var m := Pow(2, k - 1);
      PowPositive(2, k - 1);
      AndLow(a / 2, k - 1);
      AndHalves(a, 2 * m - 1);
      ModHalf(a, m);
    }
  }

  lemma ModHalf(a: nat, m: nat)
    requires m > 0
    ensures a % (2 * m) == a % 2 + 2 * (a / 2 % m) && (2 * m - 1) / 2 == m - 1
  {
    var q, r := a / 2 / m, a / 2 % m;
    assert a / 2 == m * q + r;
    assert 2 * (m * q) == (2 * m) * q;
    DivUnique(a, 2 * m, q, 2 * r + a % 2);
  }

  lemma AndThree(a: nat)
    ensures And(a, 3) == a % 4
  {
    AndHalves(a, 3);
    AndHalves(a / 2, 1);
    AndZero(a / 2 / 2);
  }

  lemma AndFive(a: nat)
    ensures And(a, 5) == a % 2 + 4 * (a / 2 / 2 % 2)
  {
    AndHalves(a, 5);
    AndHalves(a / 2, 2);
    AndHalves(a / 2 / 2, 1);
    AndZero(a / 2 / 2 / 2);
  }

  lemma PopCount4Digits(x: nat)
    requires x < 16
    ensures And(x / 2, 5) <= x
    ensures var y := x - And(x / 2, 5); And(y, 3) + And(y / 4, 3) == Pop(x)
  {
    hide Pop, And;
    AndFive(x / 2);
    PopFour(x);
    PopZero(0);
    var b0, b1, b2, b3 := x % 2, x / 2 % 2, x / 2 / 2 % 2, x / 2 / 2 / 2 % 2;
    FromHalvings(x);
    var y := x - And(x / 2, 5);
    assert y == (b0 + b1) + 4 * (b2 + b3);
    AndThree(y);
    AndThree(y / 4);
    assert y % 4 == b0 + b1 && y / 4 == b2 + b3;
  }

  function Ctz4(x: nat): (i: nat)
    requires IsOneHot(x)
    ensures i == Symbol(x) && Pow(2, i) == x
  {
    if x % 2 == 1 then 0 else if x / 2 % 2 == 1 then 1 else if x / 4 % 2 == 1 then 2 else 3
  }

  lemma OneHotIffOneLine(x: nat)
    requires x < 16
    ensures IsOneHot(x) <==> Pop(x) == 1
  {
    PopFour(x);
    PopZero(0);
  }

  function Group(w: nat, g: nat): (nib: nat)
    ensures nib < 16
  {
    PowPositive(16, g);
    w / Pow(16, g) % 16
  }

  /** What one more group adds, read from the top as the loops do. */
  lemma {:induction false} OneMoreGroup(w: nat, g: nat)
    ensures ValidWord(w, g + 1) <==> ValidWord(w, g) && IsOneHot(Group(w, g))
    ensures HasZeroGroup(w, g + 1) <==> HasZeroGroup(w, g) || Group(w, g) == 0
    ensures HasMultiGroup(w, g + 1) <==>
            HasMultiGroup(w, g) || (Group(w, g) != 0 && !IsOneHot(Group(w, g)))
    ensures Payload(w, g + 1) == Payload(w, g) + Symbol(Group(w, g)) * Pow(4, g)
  {
    if g == 0 {
      assert Group(w, 0) == w % 16;
    } else {
      OneMoreGroup(w / 16, g - 1);
      GroupAbove(w, g - 1);
      var s, f := Symbol(Group(w, g)), Pow(4, g - 1);
      assert 4 * (s * f) == s * (4 * f);
    }
  }

  lemma GroupAbove(w: nat, g: nat)
    ensures Group(w, g + 1) == Group(w / 16, g)
  {
    PowPositive(16, g);
    DivDiv(w, 16, Pow(16, g));
    assert Pow(16, g) * 16 == Pow(16, g + 1);
  }

  function SymbolAt(p: nat, g: nat): (s: nat)
    ensures s < 4
  {
    PowPositive(4, g);
    p / Pow(4, g) % 4
  }

  lemma {:induction false} OneMoreSymbol(p: nat, g: nat)
    ensures Encode(p, g + 1) == Encode(p, g) + Line(SymbolAt(p, g)) * Pow(16, g)
  {
    if g == 0 {
      assert SymbolAt(p, 0) == p % 4;
    } else {
      OneMoreSymbol(p / 4, g - 1);
      SymbolAbove(p, g - 1);
      var l, f := Line(SymbolAt(p, g)), Pow(16, g - 1);
      assert 16 * (l * f) == l * (16 * f);
    }
  }

  lemma SymbolAbove(p: nat, g: nat)
    ensures SymbolAt(p, g + 1) == SymbolAt(p / 4, g)
  {
    PowPositive(4, g);
    DivDiv(p, 4, Pow(4, g));
    assert Pow(4, g) * 4 == Pow(4, g + 1);
  }

  lemma {:induction false} PayloadBound(w: nat, n: nat)
    ensures Payload(w, n) < Pow(4, n)
  {
    if n > 0 {
      PayloadBound(w / 16, n - 1);
    }
  }

  /** Or-ing a symbol in above the ones already decoded adds it. */
  lemma OrSymbol(w: nat, sym: nat, g: nat)
    ensures Or(Payload(w, g), sym * Pow(4, g)) == Payload(w, g) + sym * Pow(4, g)
  {
    PayloadBound(w, g);
    Pow4Is(g);
    OrAbove(Payload(w, g), sym, 2 * g);
  }

  lemma OrLine(p: nat, line: nat, g: nat)
    ensures Or(Encode(p, g), line * Pow(16, g)) == Encode(p, g) + line * Pow(16, g)
  {
    EncodeIsValid(p, g);
    Pow16Is(g);
    OrAbove(Encode(p, g), line, 4 * g);
  }

  method DecodeWord(n: nat, k: nat, raw: nat) returns (r: Decoded)
    requires n > 0
    ensures r == Narrow(n, k, Decode(n, k, raw))
    ensures n <= 4 ==> r == Decode(n, k, raw)
  {
    NarrowFits(n, k, raw);
    hide Pow, Payload, ValidWord, HasZeroGroup, HasMultiGroup;
    PowPositive(16, n);
    PowPositive(2, k);
    var errs: set<CodecErr> := {};
    if raw / Pow(16, n) != 0 {
      errs := errs + {OutOfRange};
    }
    DivAtLeast(raw, Pow(16, n));
    ghost var above := errs;
    var masked := raw % Pow(16, n);
    assert above == if raw >= Pow(16, n) then {OutOfRange} else {};
    if masked == 0 {
      return Decoded(false, 0, false, errs + {Neutral});
    }
    var payload, valid, bad := DecodeGroups(n, masked);
    errs := errs + bad;
    PayloadBound(masked, n);
    SmallMod(payload, Pow(4, n));
    payload := payload % Pow(4, n) % TWO8;
    var isTail := valid && payload == Pow(4, n) - 1;
    if valid && !isTail && payload / Pow(2, k) != 0 {
      errs := errs + {PadBitSet};
    }
    r := Decoded(valid, payload, isTail, errs);
  }

  /** Eight bits hold the payloads of up to four groups. */
  lemma NarrowFits(n: nat, k: nat, raw: nat)
    ensures n <= 4 ==> Narrow(n, k, Decode(n, k, raw)) == Decode(n, k, raw)
  {
    PowPositive(16, n);
    PowPositive(2, k);
    PayloadBound(raw % Pow(16, n), n);
    FourGroups(n);
    hide Pow, Payload, ValidWord, HasZeroGroup, HasMultiGroup;
    var d := Decode(n, k, raw);
    if n <= 4 {
      SmallMod(d.payload, TWO8);
    }
  }

  lemma FourGroups(n: nat)
    ensures Pow(4, n) <= TWO8 <==> n <= 4
  {
    assert Pow(4, 2) == 16 && Pow(4, 3) == 64 && Pow(4, 4) == 256;
    if n <= 4 {
      PowGrows(4, n, 4);
    } else {
      assert Pow(4, 5) == 1024;
      PowGrows(4, 5, n);
    }
  }

  lemma {:induction false} PowGrows(b: nat, m: nat, n: nat)
    requires b > 0 && m <= n
    ensures Pow(b, m) <= Pow(b, n)
  {
    if m < n {
      PowGrows(b, m, n - 1);
      MulOrder(Pow(b, n - 1), 1, b);
    }
  }

  lemma DivAtLeast(a: nat, m: nat)
    requires m > 0
    ensures a / m != 0 <==> a >= m
  {
    assert a == m * (a / m) + a % m;
    if a < m {
      DivUnique(a, m, 0, a);
    }
  }

  /** The loop of the decoder over the groups of a masked word. */
  method DecodeGroups(n: nat, masked: nat) returns (payload: nat, valid: bool, errs: set<CodecErr>)
    ensures payload == Payload(masked, n)
    ensures valid <==> ValidWord(masked, n)
    ensures errs == (if HasZeroGroup(masked, n) then {ZeroHot} else {})
                    + (if HasMultiGroup(masked, n) then {MultiHot} else {})
  {
    hide Or, Pop, Group, PopCount4, Ctz4, And;
    payload, valid, errs := 0, true, {};
    for g := 0 to n
      invariant payload == Payload(masked, g)
      invariant valid <==> ValidWord(masked, g)
      invariant errs == (if HasZeroGroup(masked, g) then {ZeroHot} else {})
                        + (if HasMultiGroup(masked, g) then {MultiHot} else {})
    {
      var nib := Group(masked, g);
      OneMoreGroup(masked, g);
      if nib == 0 {
        errs := errs + {ZeroHot};
        valid := false;
        continue;
      }
      var pc := PopCount4(nib);
      OneHotIffOneLine(nib);
      if pc != 1 {
        errs := errs + {MultiHot};
        valid := false;
        continue;
      }
      var sym := Ctz4(nib) % 4;
      OrSymbol(masked, sym, g);
      payload := Or(payload, sym * Pow(4, g));
    }
  }

  method EncodePayload(n: nat, payload: nat) returns (ok: bool, raw: nat, errs: set<CodecErr>)
    ensures ok <==> payload < Pow(4, n)
    ensures raw == if ok then Encode(payload, n) else 0
    ensures errs == if ok then {} else {OutOfRange}
  {
    hide Pow, Encode;
    PowPositive(4, n);
    if payload > Pow(4, n) - 1 {
      return false, 0, {OutOfRange};
    }
    raw := EncodeGroups(n, payload);
    PowPositive(16, n);
    EncodeIsValid(payload, n);
    SmallMod(raw, Pow(16, n));
    raw := raw % Pow(16, n);
    return true, raw, {};
  }

  /** The loop of the encoder over the groups. */
  method EncodeGroups(n: nat, payload: nat) returns (raw: nat)
    ensures raw == Encode(payload, n)
  {
    hide Or;
    raw := 0;
    for g := 0 to n
      invariant raw == Encode(payload, g)
    {
      OneMoreSymbol(payload, g);
      var sym := SymbolAt(payload, g);
      OrLine(payload, Line(sym), g);
      raw := Or(raw, Line(sym) * Pow(16, g));
    }
  }

  // ---------------- Laws of the code ----------------

  lemma {:induction false} EncodeIsValid(p: nat, n: nat)
    ensures Encode(p, n) < Pow(16, n)
    ensures ValidWord(Encode(p, n), n)
    ensures p < Pow(4, n) ==> Payload(Encode(p, n), n) == p
  {
    if n > 0 {
      EncodeIsValid(p / 4, n - 1);
      assert Encode(p, n) % 16 == Line(p % 4) && Encode(p, n) / 16 == Encode(p / 4, n - 1);
    }
  }

  lemma {:induction false} ValidNoBadGroup(w: nat, n: nat)
    ensures ValidWord(w, n) <==> !HasZeroGroup(w, n) && !HasMultiGroup(w, n)
    ensures ValidWord(w, n) && n > 0 ==> w != 0
  {
    if n > 0 {
      ValidNoBadGroup(w / 16, n - 1);
    }
  }

  /** Decoding what the encoder put on the bus gives the payload back, with no error. */
  lemma EncodeThenDecode(n: nat, k: nat, p: nat)
    requires n > 0 && p < Pow(4, n)
    ensures var d := Decode(n, k, Encode(p, n));
      && d.ok && d.payload == p
      && (d.isTail <==> p == Pow(4, n) - 1)
      && d.errs <= {PadBitSet}
  {
    hide Pow, Payload, ValidWord, HasZeroGroup, HasMultiGroup, Encode;
    var w := Encode(p, n);
    EncodeIsValid(p, n);
    ValidNoBadGroup(w, n);
    SmallMod(w, Pow(16, n));
  }

  lemma SmallMod(a: nat, m: nat)
    requires a < m
    ensures a % m == a
  {
    DivUnique(a, m, 0, a);
  }

  /** Encoding the payload of an accepted word gives the lines of the word back, if the payload is kept
      whole; `NarrowRoundTripIff` says when the code does. */
  lemma DecodeThenEncode(n: nat, k: nat, raw: nat)
    requires Decode(n, k, raw).ok
    ensures Pow(16, n) > 0 && Encode(Decode(n, k, raw).payload, n) == raw % Pow(16, n)
  {
    PowPositive(16, n);
    EncodePayloadOf(raw % Pow(16, n), n);
  }

  /** With the code's eight-bit payload the law above holds for up to four groups only. */
  lemma NarrowRoundTripIff(n: nat, k: nat)
    requires n > 0
    ensures (forall raw: nat :: Decode(n, k, raw).ok ==>
               Encode(Narrow(n, k, Decode(n, k, raw)).payload, n) == LowLines(raw, n))
            <==> n <= 4
  {
    hide Pow, Payload, ValidWord, HasZeroGroup, HasMultiGroup, Encode, Narrow, Decode, LowLines;
    if n <= 4 {
      forall raw: nat | Decode(n, k, raw).ok
        ensures Encode(Narrow(n, k, Decode(n, k, raw)).payload, n) == LowLines(raw, n)
      {
        NarrowFits(n, k, raw);
        DecodeThenEncode(n, k, raw);
        LowLinesIs(raw, n);
      }
    } else {
      var raw := NarrowLoses(n, k);
      assert Encode(Narrow(n, k, Decode(n, k, raw)).payload, n) != LowLines(raw, n);
    }
  }

  /** And from five groups on, no word at all is read as a tail. */
  lemma NarrowTailIff(n: nat, k: nat)
    requires n > 0
    ensures (exists raw: nat :: Narrow(n, k, Decode(n, k, raw)).isTail) <==> n <= 4
  {
    hide Pow, Payload, ValidWord, HasZeroGroup, HasMultiGroup, Encode, Decode;
    FourGroups(n);
    PowPositive(4, n);
    if n <= 4 {
      var raw := Encode(Pow(4, n) - 1, n);
      EncodeThenDecode(n, k, Pow(4, n) - 1);
      NarrowFits(n, k, raw);
      assert Narrow(n, k, Decode(n, k, raw)).isTail;
    }
  }

  /** The lines of a word that are on the bus. */
  function LowLines(raw: nat, n: nat): nat {
    PowPositive(16, n);
    raw % Pow(16, n)
  }

  lemma LowLinesIs(raw: nat, n: nat)
    ensures Pow(16, n) > 0 && LowLines(raw, n) == raw % Pow(16, n)
  {
    PowPositive(16, n);
  }

  /** Payload 256 comes out as 0. */
  lemma NarrowLoses(n: nat, k: nat) returns (raw: nat)
    requires n > 4
    ensures Decode(n, k, raw).ok && Encode(Narrow(n, k, Decode(n, k, raw)).payload, n) != LowLines(raw, n)
  {
    hide Pow, Payload, ValidWord, HasZeroGroup, HasMultiGroup, Encode, Decode;
    FourGroups(n);
    raw := Encode(TWO8, n);
    EncodeThenDecode(n, k, TWO8);
    EncodeIsValid(TWO8, n);
    EncodeIsValid(0, n);
    PowPositive(16, n);
    SmallMod(raw, Pow(16, n));
    LowLinesIs(raw, n);
    assert Narrow(n, k, Decode(n, k, raw)).payload == 0;
  }

  lemma {:induction false} EncodePayloadOf(w: nat, n: nat)
    requires w < Pow(16, n) && ValidWord(w, n)
    ensures Encode(Payload(w, n), n) == w
  {
    if n > 0 {
      var p := Payload(w / 16, n - 1);
      EncodePayloadOf(w / 16, n - 1);
      assert Payload(w, n) == Symbol(w % 16) + 4 * p;
      hide Payload, ValidWord, Pow;
      LowSymbol(Symbol(w % 16), p);
    }
  }

  lemma LowSymbol(s: nat, p: nat)
    requires s < 4
    ensures (s + 4 * p) % 4 == s && (s + 4 * p) / 4 == p
  {
  }

  /** Group `g` of an encoded word has high exactly the line its symbol names. */
  lemma {:induction false} EncodedGroup(p: nat, n: nat, g: nat)
    requires g < n
    ensures Group(Encode(p, n), g) == Pow(2, SymbolAt(p, g))
  {
    hide Pow, Group, SymbolAt;
    var w := Encode(p, n);
    EncodeLow(p, n);
    hide Encode;
    if g == 0 {
      LowGroup(w);
      LowSymbolAt(p);
    } else {
      EncodedGroup(p / 4, n - 1, g - 1);
      GroupAbove(w, g - 1);
      SymbolAbove(p, g - 1);
    }
  }

  lemma EncodeLow(p: nat, n: nat)
    requires n > 0
    ensures Encode(p, n) % 16 == Pow(2, p % 4) && Encode(p, n) / 16 == Encode(p / 4, n - 1)
  {
    hide Pow;
  }

  lemma LowGroup(w: nat)
    ensures Group(w, 0) == w % 16
  {
  }

  lemma LowSymbolAt(p: nat)
    ensures SymbolAt(p, 0) == p % 4
  {
  }

  /** What each error flag says about the lines. */
  lemma FlagsMean(n: nat, k: nat, raw: nat)
    ensures Pow(16, n) > 0 && Pow(2, k) > 0
    ensures var d, lines := Decode(n, k, raw), raw % Pow(16, n);
      && (OutOfRange in d.errs <==> raw >= Pow(16, n))
      && (Neutral in d.errs <==> lines == 0)
      && (ZeroHot in d.errs <==> lines != 0 && exists g: nat :: g < n && Group(lines, g) == 0)
      && (MultiHot in d.errs <==> exists g: nat :: g < n && Pop(Group(lines, g)) > 1)
      && (PadBitSet in d.errs <==> d.ok && !d.isTail && d.payload >= Pow(2, k))
  {
    PowPositive(16, n);
    PowPositive(2, k);
    var lines := raw % Pow(16, n);
    BadGroups(lines, n);
    hide Pow, Payload, ValidWord, HasZeroGroup, HasMultiGroup, Group, Pop;
    DivAtLeast(Payload(lines, n), Pow(2, k));
    if lines == 0 {
      NoLines(n);
    }
  }

  lemma {:induction false} BadGroups(w: nat, n: nat)
    ensures HasZeroGroup(w, n) <==> exists g: nat :: g < n && Group(w, g) == 0
    ensures HasMultiGroup(w, n) <==> exists g: nat :: g < n && Pop(Group(w, g)) > 1
  {
    if n > 0 {
      BadGroups(w, n - 1);
      OneMoreGroup(w, n - 1);
      OneHotIffOneLine(Group(w, n - 1));
      PopZero(Group(w, n - 1));
      hide HasZeroGroup, HasMultiGroup, Group, Pop, IsOneHot;
      if HasZeroGroup(w, n - 1) {
        var g: nat :| g < n - 1 && Group(w, g) == 0;
        assert g < n && Group(w, g) == 0;
      }
      if HasMultiGroup(w, n - 1) {
        var g: nat :| g < n - 1 && Pop(Group(w, g)) > 1;
        assert g < n && Pop(Group(w, g)) > 1;
      }
      assert Group(w, n - 1) == 0 ==> exists g: nat :: g < n && Group(w, g) == 0;
      assert Pop(Group(w, n - 1)) > 1 ==> exists g: nat :: g < n && Pop(Group(w, g)) > 1;
    }
  }

  lemma NoLines(n: nat)
    ensures forall g: nat :: g < n ==> Pop(Group(0, g)) == 0
  {
    forall g: nat | g < n ensures Pop(Group(0, g)) == 0 {
      PowPositive(16, g);
      SmallMod(0, Pow(16, g));
      DivUnique(0, Pow(16, g), 0, 0);
      PopZero(0);
    }
  }

  /** A word is accepted exactly when every group has exactly one line high. */
  lemma AcceptedIffEveryGroupOneHot(n: nat, k: nat, raw: nat)
    requires n > 0
    ensures Decode(n, k, raw).ok <==> forall g: nat :: g < n ==> Pop(Group(raw, g)) == 1
  {
    PowPositive(16, n);
    ValidNoBadGroup(raw % Pow(16, n), n);
    ValidIgnoresAbove(raw, n);
    ValidEveryGroup(raw, n);
  }

  lemma {:induction false} ValidIgnoresAbove(raw: nat, n: nat)
    ensures Pow(16, n) > 0 && (ValidWord(raw % Pow(16, n), n) <==> ValidWord(raw, n))
  {
    PowPositive(16, n);
    if n > 0 {
      ValidIgnoresAbove(raw / 16, n - 1);
      ModGroup(raw, Pow(16, n - 1));
    }
  }

  lemma ModGroup(raw: nat, m: nat)
    requires m > 0
    ensures raw % (16 * m) % 16 == raw % 16
    ensures raw % (16 * m) / 16 == raw / 16 % m
  {
    var q, r := raw / 16 / m, raw / 16 % m;
    assert raw / 16 == m * q + r;
    assert 16 * (m * q) == (16 * m) * q;
    DivUnique(raw, 16 * m, q, 16 * r + raw % 16);
  }

  lemma {:induction false} ValidEveryGroup(raw: nat, n: nat)
    ensures ValidWord(raw, n) <==> forall g: nat :: g < n ==> Pop(Group(raw, g)) == 1
  {
    if n > 0 {
      ValidEveryGroup(raw, n - 1);
      OneMoreGroup(raw, n - 1);
      OneHotIffOneLine(Group(raw, n - 1));
    }
  }

  /** A valid word has exactly one high line per group. */
  lemma {:induction false} ValidPop(w: nat, n: nat)
    requires w < Pow(16, n) && ValidWord(w, n)
    ensures Pop(w) == n
  {
    if n > 0 {
      ValidPop(w / 16, n - 1);
      PopGroup(w);
      OneHotIffOneLine(w % 16);
    }
  }

  /** Delay insensitivity of the code: no valid word hides inside another. */
  lemma NoValidWordInsideAnother(a: nat, b: nat, n: nat)
    requires a < Pow(16, n) && ValidWord(a, n)
    requires b < Pow(16, n) && ValidWord(b, n)
    requires SubMask(a, b)
    ensures a == b
  {
    ValidPop(a, n);
    ValidPop(b, n);
    SubMaskPop(a, b);
  }

  /** Number of 2-bit symbols in which two payloads differ. */
  function DifferingSymbols(p: nat, q: nat, n: nat): nat {
    if n == 0 then 0
    else (if p % 4 == q % 4 then 0 else 1) + DifferingSymbols(p / 4, q / 4, n - 1)
  }

  /** Words for two payloads differ in exactly two lines per differing symbol. */
  lemma {:induction false} Distance(p: nat, q: nat, n: nat)
    ensures Pop(Xor(Encode(p, n), Encode(q, n))) == 2 * DifferingSymbols(p, q, n)
  {
    hide Pop, Xor;
    var a, b := Encode(p, n), Encode(q, n);
    if n == 0 {
      XorSelf(0);
      PopZero(0);
    } else {
      Distance(p / 4, q / 4, n - 1);
      XorGroup(a, b);
      PopGroup(Xor(a, b));
      LineDistance(p % 4, q % 4);
    }
  }

  lemma {:induction false} XorSelf(a: nat)
    ensures Xor(a, a) == 0
  {
    if a > 0 {
      XorSelf(a / 2);
    }
  }

  lemma LineDistance(s: nat, t: nat)
    requires s < 4 && t < 4
    ensures Pop(Xor(Line(s), Line(t))) == if s == t then 0 else 2
  {
    assert Xor(1, 2) == Xor(2, 1) == 3 && Xor(1, 4) == Xor(4, 1) == 5 && Xor(1, 8) == Xor(8, 1) == 9;
    assert Xor(2, 4) == Xor(4, 2) == 6 && Xor(2, 8) == Xor(8, 2) == 10 && Xor(4, 8) == Xor(8, 4) == 12;
    assert Pop(3) == Pop(5) == Pop(9) == Pop(6) == Pop(10) == Pop(12) == 2;
    if s == t {
      XorSelf(Line(s));
      PopZero(0);
    }
  }

  /** The low lines of an exclusive-or are that of the low lines. */
  lemma {:induction false} XorLow(a: nat, b: nat, n: nat)
    ensures LowLines(Xor(a, b), n) == Xor(LowLines(a, n), LowLines(b, n))
  {
    hide Xor;
    PowPositive(16, n);
    if n == 0 {
      XorSelf(0);
    } else {
      PowPositive(16, n - 1);
      var m, x := Pow(16, n - 1), Xor(a, b);
      XorLow(a / 16, b / 16, n - 1);
      XorGroup(a, b);
      ModGroup(a, m);
      ModGroup(b, m);
      ModGroup(x, m);
      XorGroup(LowLines(a, n), LowLines(b, n));
      var l, r := LowLines(x, n), Xor(LowLines(a, n), LowLines(b, n));
      assert l % 16 == r % 16 && l / 16 == r / 16;
      assert l == 16 * (l / 16) + l % 16 && r == 16 * (r / 16) + r % 16;
    }
  }

  /** A word is read by its lines on the bus; those above only raise a flag. */
  lemma OnlyLowLines(n: nat, k: nat, raw: nat)
    ensures Decode(n, k, raw) == var d := Decode(n, k, LowLines(raw, n));
                                 d.(errs := d.errs + if raw >= Pow(16, n) then {OutOfRange} else {})
  {
    hide Pow, Payload, ValidWord, HasZeroGroup, HasMultiGroup;
    PowPositive(16, n);
    PowPositive(2, k);
    SmallMod(LowLines(raw, n), Pow(16, n));
  }

  /** Flipping the lines of `mask` turns a valid word into an accepted one exactly if the mask is, on the
      bus, its difference from another valid word (or from itself), and then it reads as that word. */
  lemma FlipIsAcceptedIff(n: nat, k: nat, w: nat, mask: nat)
    requires n > 0 && Decode(n, k, w).ok && w < Pow(16, n)
    ensures var f := LowLines(Xor(w, mask), n);
      && (Decode(n, k, Xor(w, mask)).ok <==>
          exists v: nat :: v < Pow(16, n) && Decode(n, k, v).ok && LowLines(mask, n) == Xor(w, v))
      && (forall v: nat :: v < Pow(16, n) && LowLines(mask, n) == Xor(w, v) ==> v == f)
      && Decode(n, k, Xor(w, mask)).ok == Decode(n, k, f).ok
      && Decode(n, k, Xor(w, mask)).payload == Decode(n, k, f).payload
      && Decode(n, k, Xor(w, mask)).isTail == Decode(n, k, f).isTail
  {
    hide Pow, Payload, ValidWord, HasZeroGroup, HasMultiGroup, Xor, Decode;
    var f, m := LowLines(Xor(w, mask), n), LowLines(mask, n);
    PowPositive(16, n);
    SmallMod(w, Pow(16, n));
    XorLow(w, mask, n);
    OnlyLowLines(n, k, Xor(w, mask));
    XorTwice(w, m);
    assert f == Xor(w, m) && f < Pow(16, n);
    forall v: nat | m == Xor(w, v) ensures v == f {
      XorTwice(w, v);
    }
    assert m == Xor(w, f);
  }

  /** Flipping an odd number of lines of a valid word is always noticed. */
  lemma OddFlipIsRejected(n: nat, k: nat, w: nat, mask: nat)
    requires Decode(n, k, w).ok && w < Pow(16, n)
    requires mask < Pow(16, n) && Pop(mask) % 2 == 1
    ensures !Decode(n, k, Xor(w, mask)).ok
  {
    hide Pow, Pop, Xor, Payload, ValidWord;
    var flipped := Xor(w, mask);
    SmallMod(w, Pow(16, n));
    ValidPop(w, n);
    XorBelow(w, mask, n);
    XorParity(w, mask);
    SmallMod(flipped, Pow(16, n));
    if ValidWord(flipped, n) {
      ValidPop(flipped, n);
      OddEven(n, Pop(mask));
    }
  }

  lemma OddEven(a: nat, b: nat)
    requires b % 2 == 1
    ensures (a + b) % 2 != a % 2
  {
  }

  // ---------------- The 12-line bus of the firmware ----------------

  const BUS: nat := 4096

  lemma FirmwareSizes()
    ensures Pow(16, GROUPS) == BUS && Pow(4, GROUPS) == 64 && Pow(2, INDEX_BITS) == 32
  {
    assert Pow(16, 2) == 256 && Pow(4, 2) == 16 && Pow(2, 4) == 16;
  }

  /** The word that carries a payload on the 12-line bus. */
  function WordOf(p: nat): (w: U32)
    ensures w < BUS
  {
    FirmwareSizes();
    EncodeIsValid(p, GROUPS);
    Encode(p, GROUPS)
  }

  lemma WordOfDecodes(p: nat)
    requires p < 64
    ensures 0 < WordOf(p) < BUS
    ensures var d := DecodeRaw(WordOf(p)); d.ok && d.payload == p && (d.isTail <==> p == TAIL_PAYLOAD)
  {
    FirmwareSizes();
    EncodeIsValid(p, GROUPS);
    EncodeThenDecode(GROUPS, INDEX_BITS, p);
    ValidNoBadGroup(WordOf(p), GROUPS);
  }

  lemma DecodeRawBound(raw: nat)
    ensures DecodeRaw(raw).payload < 64
    ensures DecodeRaw(raw).isTail <==> DecodeRaw(raw).ok && DecodeRaw(raw).payload == TAIL_PAYLOAD
  {
    FirmwareSizes();
    PayloadBound(raw % BUS, GROUPS);
  }

  /** A part of a valid word that decodes at all is the whole word. */
  lemma PartThatDecodesIsWhole(part: nat, word: nat)
    requires word < BUS && DecodeRaw(word).ok
    requires SubMask(part, word) && DecodeRaw(part).ok
    ensures part == word
  {
    hide Pop, SubMask, ValidWord, Payload, HasZeroGroup, HasMultiGroup;
    FirmwareSizes();
    SubMaskPop(part, word);
    NoValidWordInsideAnother(part, word, GROUPS);
  }
}
