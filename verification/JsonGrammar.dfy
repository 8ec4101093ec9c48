/** The texts that are read, as syntax trees: those of RFC 8259 and what is accepted beyond it. A text is read exactly
    when it has a tree, and then as the value of that tree. */
module JsonGrammar {
  import opened Keys
  import opened JsonString
  import opened JsonText
  import opened JsonRoundTrip
  import opened JsonNotation

  // ---- Strings (section 7) ---------------------------------------------------------------------

  type Ordinary = c: byte | c >= ' ' as int && c != '\"' as int && c != '\\' as int witness 32
  type CodePoint = cp: nat | cp <= 0x10FFFF && !(0xD800 <= cp <= 0xDFFF)

  /** A byte as itself, a character by its letter, or a code point by hex digits, capitals where `caps` says so. */
  datatype Piece = Itself(c: Ordinary) | Named(k: nat) | Coded(cp: CodePoint, caps: nat -> bool)

  function HexChar(d: nat, cap: bool): (c: char)
    requires d < 16
    ensures c as int < 128
  {
    if cap then "0123456789ABCDEF"[d] else "0123456789abcdef"[d]
  }

  /** Four hex digits behind a backslash and a u. */
  function UnitText(u: nat, caps: nat -> bool, from: nat): (t: Bytes)
    requires u < 0x10000
    ensures |t| == 6
  {
    Ascii(['\\', 'u', HexChar(u / 4096, caps(from)), HexChar(u / 256 % 16, caps(from + 1)),
           HexChar(u / 16 % 16, caps(from + 2)), HexChar(u % 16, caps(from + 3))])
  }

  /** Above U+FFFF a code point is written as a surrogate pair. */
  function PieceText(p: Piece): (t: Bytes)
    ensures t != []
  {
    match p
    case Itself(c) => [c]
    case Named(k) => Ascii(['\\', LETTERS[k % 8]])
    case Coded(cp, caps) =>
      if cp < 0x10000 then UnitText(cp, caps, 0)
      else UnitText(0xD800 + (cp - 0x10000) / 0x400, caps, 0) + UnitText(0xDC00 + (cp - 0x10000) % 0x400, caps, 4)
  }

  function PieceBytes(p: Piece): Bytes {
    match p
    case Itself(c) => [c]
    case Named(k) => [NAMED[k % 8] as int]
    case Coded(cp, _) => Utf8(cp)
  }

  function PiecesText(ps: seq<Piece>): Bytes { if ps == [] then [] else PieceText(ps[0]) + PiecesText(ps[1..]) }

  function PiecesBytes(ps: seq<Piece>): Bytes { if ps == [] then [] else PieceBytes(ps[0]) + PiecesBytes(ps[1..]) }

  /** Bytes that can stand between two quotes: a quote or a backslash only behind a backslash. */
  predicate Closed(r: Bytes)
    decreases |r|
  {
    r == [] || if r[0] == BACKSLASH then |r| > 1 && Closed(r[2..]) else r[0] != QUOTE && Closed(r[1..])
  }

  /** What they stand for. */
  function Meaning(r: Bytes): Option<Bytes> { Unescape(r + [QUOTE], 0, |r|) }

  type Raw = r: Bytes | Closed(r) && Meaning(r).Some? witness []

  function StringText(r: Raw): Bytes { Ascii("\"") + (r + Ascii("\"")) }

  /** Behind a zero character nothing of a string is kept. */
  function StringValue(r: Raw): Bytes { CString(Meaning(r).value) }

  lemma HexCharRead(d: nat, cap: bool)
    requires d < 16
    ensures HexDigit(HexChar(d, cap) as int) == Some(d)
    ensures HexChar(d, cap) != '\"' && HexChar(d, cap) != '\\'
  {
    HexDigitRead(HexChar(d, cap) as int);
  }

  lemma UnitRead(buf: Bytes, i: nat, end: nat, u: nat, caps: nat -> bool, from: nat)
    requires u < 0x10000 && At(buf, i, UnitText(u, caps, from)) && i + 6 <= end <= |buf|
    ensures UnitAt(buf, i, end, u) && StringEnd(buf, i) == StringEnd(buf, i + 6)
  {
    hide HexDigit, HexChar, StringEnd, At, Hex4, HexDigits;
    var t := UnitText(u, caps, from);
    AtIndex(buf, i, t, 0);
    AtIndex(buf, i, t, 1);
    AtIndex(buf, i, t, 2);
    AtIndex(buf, i, t, 3);
    AtIndex(buf, i, t, 4);
    AtIndex(buf, i, t, 5);
    DigitsOf(u, caps, from);
    var s := buf[i+2..i+6];
    assert s == t[2..6];
    EscapedUnitEnd(buf, i);
  }

  lemma DigitsOf(u: nat, caps: nat -> bool, from: nat)
    requires u < 0x10000
    ensures var s := UnitText(u, caps, from)[2..6];
            HexDigits(s) && Hex4(s) == u && forall k :: 0 <= k < 4 ==> s[k] != QUOTE && s[k] != BACKSLASH
  {
    hide HexDigit, HexChar, HexDigits, Hex4;
    var a, b, c, d := u / 4096, u / 256 % 16, u / 16 % 16, u % 16;
    HexCharRead(a, caps(from));
    HexCharRead(b, caps(from + 1));
    HexCharRead(c, caps(from + 2));
    HexCharRead(d, caps(from + 3));
    FourDigits(UnitText(u, caps, from)[2..6], a, b, c, d);
    Sixteens(u);
  }

  lemma FourDigits(s: Bytes, a: nat, b: nat, c: nat, d: nat)
    requires |s| == 4 && HexDigit(s[0]) == Some(a) && HexDigit(s[1]) == Some(b) && HexDigit(s[2]) == Some(c)
    requires HexDigit(s[3]) == Some(d)
    ensures HexDigits(s) && Hex4(s) == ((a * 16 + b) * 16 + c) * 16 + d
  {
    hide HexDigit;
  }

  lemma Sixteens(u: nat)
    ensures ((u / 4096 * 16 + u / 256 % 16) * 16 + u / 16 % 16) * 16 + u % 16 == u
  {
    var a, b, c := u / 16, u / 256, u / 4096;
    assert u == a * 16 + u % 16 && a == b * 16 + a % 16 && b == c * 16 + b % 16 by {
      assert a / 16 == b && b / 16 == c;
    }
  }

  lemma CodedRead(buf: Bytes, i: nat, end: nat, cp: CodePoint, caps: nat -> bool)
    requires var t := PieceText(Coded(cp, caps)); At(buf, i, t) && i + |t| <= end < |buf|
    ensures var n := |PieceText(Coded(cp, caps))|;
            Utf16Literal(buf, i, end) == Some(Literal(cp, n)) && buf[i] == BACKSLASH && buf[i+1] == LETTER_U
            && StringEnd(buf, i) == StringEnd(buf, i + n)
  {
    hide UnitText, StringEnd, Utf16Literal, At, Hex4, HexDigits;
    if cp < 0x10000 {
      UnitRead(buf, i, end, cp, caps, 0);
      OneUnit(buf, i, end, cp);
    } else {
      var u, v := 0xD800 + (cp - 0x10000) / 0x400, 0xDC00 + (cp - 0x10000) % 0x400;
      AtParts(buf, i, UnitText(u, caps, 0), UnitText(v, caps, 4));
      UnitRead(buf, i, end, u, caps, 0);
      UnitRead(buf, i + 6, end, v, caps, 4);
      TwoUnits(buf, i, end, u, v);
    }
    LiteralReads(buf, i, end, cp);
  }

  lemma PieceRead(buf: Bytes, i: nat, end: nat, p: Piece)
    requires At(buf, i, PieceText(p)) && i + |PieceText(p)| <= end < |buf|
    ensures Unescape(buf, i, end) == Prepend(PieceBytes(p), Unescape(buf, i + |PieceText(p)|, end))
    ensures StringEnd(buf, i) == StringEnd(buf, i + |PieceText(p)|)
  {
    hide StringEnd, Utf16Literal, At, UnitText, Utf8, Unescaped;
    var t := PieceText(p);
    AtIndex(buf, i, t, 0);
    match p
    case Itself(c) => PlainByte(buf, i, end, c);
    case Named(k) =>
      AtIndex(buf, i, t, 1);
      var letter := LETTERS[k % 8] as int;
      LetterRead(letter);
      LetterNotU(k % 8);
      EscapedLetter(buf, i, end, letter, NAMED[k % 8] as int);
    case Coded(cp, caps) => CodedRead(buf, i, end, cp, caps);
  }

  lemma LetterNotU(k: nat)
    requires k < 8
    ensures LETTERS[k] as int != LETTER_U
  {
  }

  lemma {:induction false} PiecesRead(buf: Bytes, i: nat, ps: seq<Piece>)
    requires At(buf, i, PiecesText(ps) + [QUOTE])
    ensures var end := i + |PiecesText(ps)|;
            StringEnd(buf, i) == Some(end) && Unescape(buf, i, end) == Some(PiecesBytes(ps))
    decreases |ps|
  {
    hide PieceText, PieceBytes, Unescape, StringEnd, At;
    var end := i + |PiecesText(ps)|;
    AtParts(buf, i, PiecesText(ps), [QUOTE]);
    AtIndex(buf, end, [QUOTE], 0);
    if ps == [] {
      AtQuote(buf, i);
    } else {
      var t, rest := PieceText(ps[0]), PiecesText(ps[1..]);
      assert (t + rest) + [QUOTE] == t + (rest + [QUOTE]);
      AtParts(buf, i, t, rest + [QUOTE]);
      PiecesRead(buf, i + |t|, ps[1..]);
      PieceRead(buf, i, end, ps[0]);
    }
  }

  lemma {:induction false} ClosedEnds(buf: Bytes, i: nat, r: Bytes)
    requires At(buf, i, r + [QUOTE])
    ensures Closed(r) <==> StringEnd(buf, i) == Some(i + |r|)
    decreases |r|
  {
    hide At;
    AtParts(buf, i, r, [QUOTE]);
    AtIndex(buf, i + |r|, [QUOTE], 0);
    if r != [] {
      AtIndex(buf, i, r, 0);
      if r[0] != BACKSLASH {
        ClosedRest(buf, i, r, 1);
        ClosedEnds(buf, i + 1, r[1..]);
      } else if |r| > 1 {
        ClosedRest(buf, i, r, 2);
        ClosedEnds(buf, i + 2, r[2..]);
      }
    }
  }

  lemma ClosedRest(buf: Bytes, i: nat, r: Bytes, k: nat)
    requires At(buf, i, r + [QUOTE]) && k <= |r|
    ensures At(buf, i + k, r[k..] + [QUOTE])
  {
    hide At;
    assert r + [QUOTE] == r[..k] + (r[k..] + [QUOTE]);
    AtParts(buf, i, r[..k], r[k..] + [QUOTE]);
  }

  lemma {:induction false} UnescapeMoved(buf: Bytes, i: nat, end: nat, c: Bytes, j: nat, end2: nat)
    requires end < |buf| && end2 < |c| && end - i == end2 - j
    requires forall k :: i <= k <= end ==> buf[k] == c[j + (k - i)]
    ensures Unescape(buf, i, end) == Unescape(c, j, end2)
    decreases if i < end then end - i else 0
  {
    hide Hex4, Utf8, Unescaped, HighSurrogate, LowSurrogate;
    if i < end {
      assert buf[i] == c[j] && buf[i+1] == c[j + 1];
      if buf[i] != BACKSLASH {
        UnescapeMoved(buf, i + 1, end, c, j + 1, end2);
      } else if buf[i+1] == LETTER_U {
        SameLiteral(buf, i, end, c, j, end2);
        var l := Utf16Literal(buf, i, end);
        if l.Some? { UnescapeMoved(buf, i + l.value.len, end, c, j + l.value.len, end2); }
      } else {
        UnescapeMoved(buf, i + 2, end, c, j + 2, end2);
      }
    }
  }

  lemma SameLiteral(buf: Bytes, i: nat, end: nat, c: Bytes, j: nat, end2: nat)
    requires i <= end < |buf| && j <= end2 < |c| && end - i == end2 - j
    requires forall k :: i <= k <= end ==> buf[k] == c[j + (k - i)]
    ensures Utf16Literal(buf, i, end) == Utf16Literal(c, j, end2)
  {
    hide Hex4, HighSurrogate, LowSurrogate;
    if end - i >= 6 {
      assert buf[i+2..i+6] == c[j+2..j+6];
      if end - i >= 12 {
        assert buf[i+8..i+12] == c[j+8..j+12];
        assert buf[i+6] == c[j+6] && buf[i+7] == c[j+7];
      }
    }
  }

  lemma MeaningAt(buf: Bytes, i: nat, r: Bytes)
    requires At(buf, i, r + [QUOTE])
    ensures Unescape(buf, i, i + |r|) == Meaning(r)
  {
    hide At, Unescape;
    var c := r + [QUOTE];
    AtIndex(buf, i, c, |r|);
    forall k | i <= k <= i + |r| ensures buf[k] == c[0 + (k - i)] { AtIndex(buf, i, c, k - i); }
    UnescapeMoved(buf, i, i + |r|, c, 0, |r|);
  }

  /** The strings of section 7 are among them, and mean the characters they are written with. */
  lemma PiecesMean(ps: seq<Piece>)
    ensures var r := PiecesText(ps); Closed(r) && Meaning(r) == Some(PiecesBytes(ps))
  {
    hide PiecesText, PiecesBytes, Unescape, StringEnd, Closed;
    var r := PiecesText(ps);
    WholeAt(r + [QUOTE]);
    PiecesRead(r + [QUOTE], 0, ps);
    ClosedEnds(r + [QUOTE], 0, r);
  }

  /** A string is read up to its closing quote. */
  lemma StringRead(buf: Bytes, i: nat, r: Raw)
    requires At(buf, i, StringText(r))
    ensures Shows(buf, i, QUOTE) && StringAt(buf, i) == Some(Parsed(StringValue(r), i + |StringText(r)|))
  {
    hide Unescape, StringEnd, CString, At, Closed, Meaning;
    assert Ascii("\"") == [QUOTE];
    AtParts(buf, i, [QUOTE], r + [QUOTE]);
    AtIndex(buf, i, [QUOTE], 0);
    ClosedEnds(buf, i + 1, r);
    MeaningAt(buf, i + 1, r);
  }

  // ---- Numbers (section 6) ---------------------------------------------------------------------

  type Digit = d: nat | d < 10

  /** An exponent with an e or E, a sign or none, and at least one digit. */
  datatype Exponent = NoExponent | Exponent(cap: bool, sign: Sign, first: Digit, more: seq<Digit>)
  datatype Sign = NoSign | Plus | Minus

  /** Digits, a point or none with digits behind it, and an exponent. */
  datatype Num = Num(minus: bool, whole: seq<Digit>, point: bool, part: seq<Digit>, exponent: Exponent)

  function DigitsText(ds: seq<Digit>): (t: Bytes)
    ensures |t| == |ds| && forall i :: 0 <= i < |ds| ==> t[i] == '0' as int + ds[i]
  {
    seq(|ds|, i requires 0 <= i < |ds| => '0' as int + ds[i])
  }

  function PartText(point: bool, ds: seq<Digit>): Bytes { if point then Ascii(".") + DigitsText(ds) else [] }

  function SignText(s: Sign): Bytes {
    match s
    case NoSign => []
    case Plus => Ascii("+")
    case Minus => Ascii("-")
  }

  function ExponentText(e: Exponent): Bytes {
    match e
    case NoExponent => []
    case Exponent(cap, sign, first, more) =>
      Ascii(if cap then "E" else "e") + (SignText(sign) + DigitsText([first] + more))
  }

  function NumText(n: Num): Bytes {
    (if n.minus then Ascii("-") else []) + (DigitsText(n.whole) + (PartText(n.point, n.part) + ExponentText(n.exponent)))
  }

  /** There are digits, in front of the point if there is no minus sign; section 6 asks for them on both sides, and
      for no zero in front of others. */
  predicate IsNum(n: Num) {
    (n.minus ==> n.whole != [] || n.part != []) && (!n.minus ==> n.whole != []) && (n.part != [] ==> n.point)
  }

  function Positional(ds: seq<Digit>): nat {
    if ds == [] then 0 else 10 * Positional(ds[..|ds|-1]) + ds[|ds|-1]
  }

  function PowerOfTen(k: int): real
    decreases if k < 0 then -k else k
  {
    if k == 0 then 1.0 else if k > 0 then 10.0 * PowerOfTen(k - 1) else PowerOfTen(k + 1) / 10.0
  }

  /** The digits behind the point count tenths, hundredths and so on. */
  function Part(ds: seq<Digit>): real {
    if ds == [] then 0.0 else Part(ds[..|ds|-1]) + ds[|ds|-1] as real * PowerOfTen(-|ds|)
  }

  function Power(e: Exponent): int {
    match e
    case NoExponent => 0
    case Exponent(_, sign, first, more) =>
      var n: int := Positional([first] + more);
      if sign.Minus? then -n else n
  }

  function NumValue(n: Num): real {
    var x := (Positional(n.whole) as real + Part(n.part)) * PowerOfTen(Power(n.exponent));
    if n.minus then -x else x
  }

  /** What is copied out for conversion has at most 63 bytes. */
  type ShortNum = n: Num | IsNum(n) && |NumText(n)| <= 63 witness Num(false, [0], false, [], NoExponent)

  lemma {:induction false} PowerUp(k: int)
    ensures PowerOfTen(k + 1) == 10.0 * PowerOfTen(k)
  {
  }

  lemma {:induction false} ScaledPower(x: real, k: int)
    ensures Scaled(x, k) == x * PowerOfTen(k)
    decreases if k < 0 then -k else k
  {
    if k > 0 {
      ScaledPower(x * 10.0, k - 1);
      PowerUp(k - 1);
      Moved(x, 10.0, PowerOfTen(k - 1));
    } else if k < 0 {
      ScaledPower(x / 10.0, k + 1);
      PowerUp(k);
      Moved(x / 10.0, 10.0, PowerOfTen(k));
    }
  }

  lemma PowerZero()
    ensures PowerOfTen(0) == 1.0
  {
  }

  lemma Moved(x: real, y: real, z: real)
    ensures (x * y) * z == x * (y * z)
  {
  }

  lemma {:induction false} PowerShift(a: int, n: nat)
    ensures PowerOfTen(n) * PowerOfTen(a - n) == PowerOfTen(a)
    decreases n
  {
    if n > 0 {
      PowerShift(a, n - 1);
      PowerUp(n - 1);
      PowerUp(a - n);
      Swap(PowerOfTen(n - 1), PowerOfTen(a - n));
    }
  }

  lemma Swap(x: real, y: real)
    ensures (10.0 * x) * y == x * (10.0 * y)
  {
  }

  /** Digits before and behind the point in one run, counted in units of the last one. */
  lemma {:induction false} AllDigits(whole: seq<Digit>, part: seq<Digit>)
    ensures Positional(whole + part) as real == (Positional(whole) as real + Part(part)) * PowerOfTen(|part|)
    decreases |part|
  {
    hide PowerOfTen, Positional, Part;
    if part == [] {
      NoPart(whole);
    } else {
      var n := |part|;
      var front, last := part[..n-1], part[n-1] as real;
      AllDigits(whole, front);
      LastOf(whole, part);
      PowerUp(n - 1);
      PowerShift(0, n);
      PowerZero();
      LastDigit(Positional(whole) as real + Part(front), last, PowerOfTen(n - 1), PowerOfTen(-n));
    }
  }

  lemma NoPart(whole: seq<Digit>)
    ensures Positional(whole + []) as real == (Positional(whole) as real + Part([])) * PowerOfTen(0)
  {
    assert whole + [] == whole;
  }

  lemma LastOf(whole: seq<Digit>, part: seq<Digit>)
    requires part != []
    ensures var front, last := part[..|part|-1], part[|part|-1];
            && Positional(whole + part) == 10 * Positional(whole + front) + last
            && Part(part) == Part(front) + last as real * PowerOfTen(-|part|)
  {
    assert (whole + part)[..|whole + part|-1] == whole + part[..|part|-1];
  }

  lemma LastDigit(x: real, d: real, p: real, q: real)
    requires (10.0 * p) * q == 1.0
    ensures 10.0 * (x * p) + d == (x + d * q) * (10.0 * p)
  {
    calc {
      (x + d * q) * (10.0 * p);
      x * (10.0 * p) + (d * q) * (10.0 * p);
      { Moved(d, q, 10.0 * p); }
      x * (10.0 * p) + d * (q * (10.0 * p));
      { assert q * (10.0 * p) == 1.0; }
      x * (10.0 * p) + d;
    }
  }

  lemma {:induction false} DigitsCounted(ds: seq<Digit>)
    ensures DigitsValue(DigitsText(ds)) == Positional(ds)
  {
    if ds != [] {
      DigitsCounted(ds[..|ds|-1]);
      assert DigitsText(ds)[..|ds|-1] == DigitsText(ds[..|ds|-1]);
    }
  }

  lemma {:induction false} RunEnds(s: Bytes, i: nat, n: nat)
    requires i + n <= |s| && (forall j :: i <= j < i + n ==> IsDigit(s[j])) && (i + n < |s| ==> !IsDigit(s[i + n]))
    ensures DigitRun(s, i) == n
    decreases n
  {
    if n > 0 { RunEnds(s, i + 1, n - 1); }
  }

  /** The digits that stand at `i` are the run there. */
  lemma RunRead(s: Bytes, i: nat, ds: seq<Digit>)
    requires At(s, i, DigitsText(ds)) && (i + |ds| < |s| ==> !IsDigit(s[i + |ds|]))
    ensures DigitRun(s, i) == |ds| && s[i..i + |ds|] == DigitsText(ds)
    ensures forall k :: 0 <= k < |ds| ==> s[i + k] == '0' as int + ds[k]
  {
    forall k | 0 <= k < |ds| ensures s[i + k] == '0' as int + ds[k] { AtIndex(s, i, DigitsText(ds), k); }
    forall j | i <= j < i + |ds| ensures IsDigit(s[j]) { assert s[i + (j - i)] == '0' as int + ds[j - i]; }
    RunEnds(s, i, |ds|);
  }

  /** The exponent at the end of a number. */
  lemma ExponentRead(s: Bytes, k: nat, e: Exponent)
    requires At(s, k, ExponentText(e)) && k + |ExponentText(e)| == |s|
    ensures ExponentAt(s, k) == Parsed(Power(e), |s| - k)
    ensures k < |s| ==> s[k] != '.' as int && !IsDigit(s[k])
  {
    hide At, DigitRun, Positional, DigitsValue, DigitsText, ExponentAt, SignAt, SignText;
    if e.Exponent? {
      var head, sign, ds := Ascii(if e.cap then "E" else "e"), SignText(e.sign), [e.first] + e.more;
      AtParts(s, k, head, sign + DigitsText(ds));
      AtIndex(s, k, head, 0);
      SignRead(s, k + 1, e.sign, ds);
      RunRead(s, k + 1 + |sign|, ds);
      DigitsCounted(ds);
      ExponentFrom(s, k, |sign|, |ds|, Positional(ds));
    } else {
      ExponentNone(s);
    }
  }

  lemma SignRead(s: Bytes, i: nat, sign: Sign, ds: seq<Digit>)
    requires At(s, i, SignText(sign) + DigitsText(ds)) && ds != []
    ensures i < |s| && SignAt(s, i) == |SignText(sign)| && (s[i] == MINUS <==> sign.Minus?)
    ensures At(s, i + |SignText(sign)|, DigitsText(ds))
  {
    hide At, DigitsText;
    AtParts(s, i, SignText(sign), DigitsText(ds));
    FirstDigit(ds);
    if sign.NoSign? {
      AtIndex(s, i, DigitsText(ds), 0);
    } else {
      AtIndex(s, i, SignText(sign), 0);
    }
  }

  lemma ExponentNone(s: Bytes)
    ensures ExponentAt(s, |s|) == Parsed(0, 0)
  {
  }

  lemma ExponentFrom(s: Bytes, k: nat, sign: nat, n: nat, m: int)
    requires k + 1 + sign + n == |s| && n > 0 && IsExponent(s[k]) && SignAt(s, k + 1) == sign
    requires DigitRun(s, k + 1 + sign) == n && DigitsValue(s[k + 1 + sign..|s|]) == m
    ensures ExponentAt(s, k) == Parsed(if s[k+1] == MINUS then -m else m, |s| - k)
  {
    hide DigitRun, DigitsValue, SignAt;
  }

  /** The point with the digits behind it, which end at `k`. */
  lemma PartRead(s: Bytes, j: nat, point: bool, ds: seq<Digit>, k: nat)
    requires At(s, j, PartText(point, ds)) && k == j + |PartText(point, ds)|
    requires k < |s| ==> s[k] != '.' as int && !IsDigit(s[k])
    ensures (j < |s| && s[j] == 46) <==> point
    ensures j < |s| ==> !IsDigit(s[j])
    ensures point ==> k == j + 1 + |ds| && DigitRun(s, j + 1) == |ds| && s[j+1..k] == DigitsText(ds)
  {
    hide At, DigitRun, DigitsText;
    if point {
      AtParts(s, j, Ascii("."), DigitsText(ds));
      AtIndex(s, j, Ascii("."), 0);
      RunRead(s, j + 1, ds);
    }
  }

  /** The run of all digits, scaled by the exponent and the length of the part behind the point. */
  lemma NumScaled(n: Num)
    ensures var m: int := Positional(n.whole + n.part);
            Scaled((if n.minus then -m else m) as real, Power(n.exponent) - |n.part|) == NumValue(n)
  {
    hide Positional, Part, PowerOfTen, Power, Scaled;
    var e, f := Power(n.exponent), |n.part|;
    var m: int := Positional(n.whole + n.part);
    var x := Positional(n.whole) as real + Part(n.part);
    ScaledPower((if n.minus then -m else m) as real, e - f);
    AllDigits(n.whole, n.part);
    PowerShift(e, f);
    Moved(x, PowerOfTen(f), PowerOfTen(e - f));
    Negated(m as real, PowerOfTen(e - f));
  }

  lemma Negated(x: real, y: real)
    ensures (-x) * y == -(x * y)
  {
  }

  lemma DigitsJoined(a: seq<Digit>, b: seq<Digit>)
    ensures DigitsText(a) + DigitsText(b) == DigitsText(a + b)
  {
  }

  lemma FirstDigit(ds: seq<Digit>)
    requires ds != []
    ensures IsDigit(DigitsText(ds)[0]) && !IsSign(DigitsText(ds)[0])
  {
  }

  /** Conversion from the places of sign, digits, point and exponent. */
  lemma ConvertedFrom(s: Bytes, i: nat, whole: nat, point: bool, part: nat, m: int, e: Parsed<int>)
    requires s != [] && SignAt(s, 0) == i && i + whole <= |s| && whole + part > 0 && DigitRun(s, i) == whole
    requires var j := i + whole; var k := if point then j + 1 + part else j;
             && (point <==> j < |s| && s[j] == 46)
             && (if point then DigitRun(s, j + 1) == part else part == 0)
             && k <= |s| && ExponentAt(s, k) == e
             && DigitsValue(s[i..j] + (if point then s[j+1..k] else [])) == m
    ensures var k := i + whole + (if point then 1 + part else 0);
            Converted(s) == Some(Parsed(Scaled((if s[0] == MINUS then -m else m) as real, e.value - part), k + e.off))
  {
    hide DigitRun, ExponentAt, DigitsValue, Scaled, SignAt;
  }

  /** Converting the text of a number gives what it stands for, and uses all of it. */
  lemma NumRead(n: Num)
    requires IsNum(n)
    ensures Converted(NumText(n)) == Some(Parsed(NumValue(n), |NumText(n)|))
  {
    hide At, DigitRun, DigitsText, ExponentText, ExponentAt, Positional, Part, PartText, PowerOfTen, Power, Scaled,
         DigitsValue, NumValue, Converted, NumText;
    var s, ds := NumText(n), n.whole;
    var i := if n.minus then 1 else 0;
    var j := i + |ds|;
    NumParts(n);
    DigitsJoined(ds, n.part);
    DigitsCounted(ds + n.part);
    NumScaled(n);
    assert n.part == [] ==> ds + n.part == ds;
    assert s[i..j] + [] == s[i..j];
    ConvertedFrom(s, i, |ds|, n.point, |n.part|, Positional(ds + n.part), ExponentAt(s, |s| - |ExponentText(n.exponent)|));
  }

  /** Where the parts of a number stand in its text. */
  lemma NumParts(n: Num)
    requires IsNum(n)
    ensures var s, ds := NumText(n), n.whole;
            var i := if n.minus then 1 else 0;
            var j, k := i + |ds|, |s| - |ExponentText(n.exponent)|;
            && k == j + (if n.point then 1 + |n.part| else 0) <= |s| && s != [] && SignAt(s, 0) == i
            && (s[0] == MINUS <==> n.minus)
            && DigitRun(s, i) == |ds| && s[i..j] == DigitsText(ds) && (j < |s| && s[j] == 46 <==> n.point)
            && (n.point ==> DigitRun(s, j + 1) == |n.part| && s[j+1..k] == DigitsText(n.part))
            && ExponentAt(s, k) == Parsed(Power(n.exponent), |s| - k)
  {
    hide At, DigitRun, DigitsText, ExponentText, ExponentAt, Power, PartText, NumText, IsSign, IsDigit;
    var s, ds, part := NumText(n), n.whole, PartText(n.point, n.part);
    var i := if n.minus then 1 else 0;
    var j, k := i + |ds|, i + |ds| + |part|;
    NumPlaces(n);
    ExponentRead(s, k, n.exponent);
    PartRead(s, j, n.point, n.part, k);
    PartLength(n.point, n.part);
    RunRead(s, i, ds);
    if n.minus {
      AtIndex(s, 0, Ascii("-"), 0);
    } else {
      AtIndex(s, i, DigitsText(ds), 0);
      FirstDigit(ds);
    }
    SignHere(s, n.minus);
  }

  lemma SignHere(s: Bytes, minus: bool)
    requires s != [] && if minus then s[0] == '-' as int else !IsSign(s[0])
    ensures SignAt(s, 0) == (if minus then 1 else 0) && (s[0] == MINUS <==> minus)
  {
  }

  lemma NumPlaces(n: Num)
    ensures var s, ds, part, tail := NumText(n), n.whole, PartText(n.point, n.part), ExponentText(n.exponent);
            var i := if n.minus then 1 else 0;
            && (n.minus ==> At(s, 0, Ascii("-"))) && At(s, i, DigitsText(ds)) && At(s, i + |ds|, part)
            && At(s, i + |ds| + |part|, tail) && |s| == i + |ds| + |part| + |tail|
  {
    hide At, DigitsText, ExponentText, PartText;
    var s, ds, part, tail := NumText(n), n.whole, PartText(n.point, n.part), ExponentText(n.exponent);
    var sign := if n.minus then Ascii("-") else [];
    WholeAt(s);
    AtParts(s, 0, sign, DigitsText(ds) + (part + tail));
    AtParts(s, |sign|, DigitsText(ds), part + tail);
    AtParts(s, |sign| + |ds|, part, tail);
  }

  lemma PartLength(point: bool, ds: seq<Digit>)
    ensures |PartText(point, ds)| == if point then 1 + |ds| else 0
  {
  }

  lemma WholeAt(s: Bytes)
    ensures At(s, 0, s)
  {
  }

  lemma NumBytes(n: Num)
    requires IsNum(n)
    ensures var s := NumText(n);
            s != [] && (s[0] == MINUS || IsDigit(s[0])) && forall k :: 0 <= k < |s| ==> IsNumberByte(s[k])
  {
    hide DigitsText;
    ManyDigits(n.whole);
    ManyDigits(n.part);
    if n.exponent.Exponent? { ManyDigits([n.exponent.first] + n.exponent.more); }
  }

  lemma ManyDigits(ds: seq<Digit>)
    ensures |DigitsText(ds)| == |ds| && forall k :: 0 <= k < |ds| ==> IsDigit(DigitsText(ds)[k])
  {
  }

  lemma NumberDocRead(buf: Bytes, i: nat, depth: nat, n: ShortNum)
    requires At(buf, i, NumText(n)) && depth <= NESTING_LIMIT
    requires var e := i + |NumText(n)|; e < |buf| && !IsNumberByte(buf[e])
    ensures ValueAt(buf, i, depth) == Some(Parsed(Number(NumValue(n)), i + |NumText(n)|))
  {
    hide ArrayAt, ObjectAt, StringAt, NumText, NumValue, Converted, NumberSpan, IsNumberByte;
    var t := NumText(n);
    NumBytes(n);
    NumRead(n);
    AtIndex(buf, i, t, 0);
    NumberSpanWhole(buf, i, t, 63);
    NotWords(buf, i);
  }

  // ---- Values (sections 2 to 5) ----------------------------------------------------------------

  /** Whitespace: section 2 has four characters, here all up to the blank are. */
  type White = c: byte | c <= ' ' as int witness 32

  /** A text: arrays and objects with whitespace around every token. `gap` is what stands between the brackets of an
      empty one. */
  datatype Doc =
    | NullDoc | FalseDoc | TrueDoc | NumDoc(num: ShortNum) | StrDoc(raw: Raw)
    | ArrDoc(slots: seq<Slot>, gap: seq<White>) | ObjDoc(entries: seq<Entry>, gap: seq<White>)
  datatype Slot = Slot(before: seq<White>, doc: Doc, after: seq<White>)
  datatype Entry = Entry(
    before: seq<White>, name: Raw, behind: seq<White>, ahead: seq<White>, doc: Doc, after: seq<White>)

  function DocText(doc: Doc): Bytes
    decreases doc, 0
  {
    match doc
    case NullDoc => Ascii("null")
    case FalseDoc => Ascii("false")
    case TrueDoc => Ascii("true")
    case NumDoc(n) => NumText(n)
    case StrDoc(r) => StringText(r)
    case ArrDoc(slots, gap) =>
      Ascii("[") + (if slots == [] then gap + Ascii("]") else slots[0].before + SlotsText(slots))
    case ObjDoc(entries, gap) =>
      Ascii("{") + (if entries == [] then gap + Ascii("}") else entries[0].before + EntriesText(entries))
  }

  /** The items from the first one on, with commas between them and the bracket behind them. */
  function SlotsText(slots: seq<Slot>): Bytes
    decreases slots, 1
  {
    if slots == [] then []
    else
      DocText(slots[0].doc) + (slots[0].after
      + (if |slots| == 1 then Ascii("]") else Ascii(",") + (slots[1].before + SlotsText(slots[1..]))))
  }

  /** The members from the first name on. */
  function EntriesText(entries: seq<Entry>): Bytes
    decreases entries, 1
  {
    if entries == [] then []
    else
      StringText(entries[0].name) + (entries[0].behind + (Ascii(":") + (entries[0].ahead
      + (DocText(entries[0].doc) + (entries[0].after
      + (if |entries| == 1 then Ascii("}") else Ascii(",") + (entries[1].before + EntriesText(entries[1..]))))))))
  }

  function DocValue(doc: Doc): Json
    decreases doc, 0
  {
    match doc
    case NullDoc => Null
    case FalseDoc => False
    case TrueDoc => True
    case NumDoc(n) => Number(NumValue(n))
    case StrDoc(r) => Text(StringValue(r))
    case ArrDoc(slots, _) => Array(SlotValues(slots))
    case ObjDoc(entries, _) => Object(EntryMembers(entries))
  }

  function SlotValues(slots: seq<Slot>): seq<Json>
    decreases slots, 1
  {
    if slots == [] then [] else [DocValue(slots[0].doc)] + SlotValues(slots[1..])
  }

  function EntryMembers(entries: seq<Entry>): seq<Member>
    decreases entries, 1
  {
    if entries == [] then []
    else [Member(StringValue(entries[0].name), DocValue(entries[0].doc))] + EntryMembers(entries[1..])
  }

  /** Blanks in front of a byte that is none. */
  lemma BlanksSkipped(buf: Bytes, i: nat, bs: seq<White>)
    requires At(buf, i, bs) && i + |bs| < |buf| && buf[i + |bs|] > 32
    ensures Skip(buf, i) == i + |bs|
    ensures bs != [] ==> buf[i] <= 32
  {
    if bs != [] { AtIndex(buf, i, bs, 0); }
    SkipBlank(buf, i, bs);
  }

  // ---- Reading a text --------------------------------------------------------------------------

  /** The first character of a text is no blank and none of the characters between values. */
  lemma DocOpens(doc: Doc)
    ensures DocText(doc) != [] && Opens(DocText(doc)[0]) && DocText(doc)[0] < 0x80
  {
    hide SlotsText, EntriesText, NumText;
    match doc
    case NumDoc(n) => NumBytes(n);
    case _ =>
  }

  lemma WordRead(buf: Bytes, i: nat, depth: nat, doc: Doc)
    requires doc.NullDoc? || doc.FalseDoc? || doc.TrueDoc?
    requires At(buf, i, DocText(doc)) && depth <= NESTING_LIMIT
    ensures ValueAt(buf, i, depth) == Some(Parsed(DocValue(doc), i + |DocText(doc)|))
  {
    hide ValueAt;
    var v := DocValue(doc);
    assert DocText(doc) == Printed(v, false, 0);
    WordBack(buf, i, depth, v);
  }

  lemma StringDocRead(buf: Bytes, i: nat, depth: nat, r: Raw)
    requires At(buf, i, StringText(r)) && depth <= NESTING_LIMIT
    ensures ValueAt(buf, i, depth) == Some(Parsed(Text(StringValue(r)), i + |StringText(r)|))
  {
    hide ArrayAt, ObjectAt, StringAt, NumberAt, StringText, ShowsText, StringValue;
    StringRead(buf, i, r);
    NotWords(buf, i);
  }

  /** A text nested within the limit is read as its value, wherever it stands before a byte that cannot go on with a
      number. */
  lemma {:induction false} DocRead(buf: Bytes, i: nat, depth: nat, doc: Doc)
    requires depth + Nesting(DocValue(doc)) <= NESTING_LIMIT && At(buf, i, DocText(doc))
    requires var e := i + |DocText(doc)|; e < |buf| && !IsNumberByte(buf[e])
    ensures ValueAt(buf, i, depth) == Some(Parsed(DocValue(doc), i + |DocText(doc)|))
    decreases doc, 0
  {
    hide ValueAt, At, IsNumberByte, Nesting, NumText, StringText, NumValue, StringValue, Ascii;
    match doc
    case NumDoc(n) => NumberDocRead(buf, i, depth, n);
    case StrDoc(r) => StringDocRead(buf, i, depth, r);
    case ArrDoc(slots, gap) => ArrDocRead(buf, i, depth, slots, gap);
    case ObjDoc(entries, gap) => ObjDocRead(buf, i, depth, entries, gap);
    case _ => WordRead(buf, i, depth, doc);
  }

  /** A token, blanks, and then something that is no blank. */
  lemma TokenRead(buf: Bytes, i: nat, c: byte, before: seq<White>, rest: Bytes)
    requires At(buf, i, [c] + (before + rest)) && rest != [] && rest[0] > 32
    ensures var k := i + 1 + |before|; Shows(buf, i, c) && k < |buf| && Skip(buf, i + 1) == Skip(buf, k) == k && At(buf, k, rest)
  {
    hide At, Skip;
    AtParts(buf, i, [c], before + rest);
    AtParts(buf, i + 1, before, rest);
    AtIndex(buf, i, [c], 0);
    AtIndex(buf, i + 1 + |before|, rest, 0);
    BlanksSkipped(buf, i + 1, before);
    SkipNone(buf, i + 1 + |before|);
  }

  /** Blanks and then a token. */
  lemma TokenAfter(buf: Bytes, i: nat, blanks: seq<White>, c: byte)
    requires At(buf, i, blanks + [c])
    ensures At(buf, i, blanks) && Shows(buf, i + |blanks|, c)
  {
    hide At;
    AtParts(buf, i, blanks, [c]);
    AtIndex(buf, i + |blanks|, [c], 0);
  }

  /** Behind an item or a member: blanks, and the closing token or a comma with the rest behind it. */
  function Tail(after: seq<White>, close: byte, last: bool, before: seq<White>, rest: Bytes): Bytes {
    after + if last then [close] else [COMMA] + (before + rest)
  }

  lemma TailRead(buf: Bytes, e: nat, after: seq<White>, close: byte, last: bool, before: seq<White>, rest: Bytes)
    requires At(buf, e, Tail(after, close, last, before, rest)) && (!last ==> rest != [] && rest[0] > 32)
    ensures var j := e + |after|; var k := j + 1 + |before|;
            && At(buf, e, after) && j < |buf| && buf[j] == (if last then close else COMMA)
            && (!last ==> Skip(buf, j + 1) == k && At(buf, k, rest))
            && e + |Tail(after, close, last, before, rest)| == if last then j + 1 else k + |rest|
  {
    hide At, Skip;
    if last {
      TokenAfter(buf, e, after, close);
    } else {
      AtParts(buf, e, after, [COMMA] + (before + rest));
      TokenRead(buf, e + |after|, COMMA, before, rest);
    }
  }

  /** Behind a value: blanks, and then a comma or a closing bracket or brace at `j`. */
  lemma AfterValue(buf: Bytes, e: nat, after: seq<White>, j: nat)
    requires At(buf, e, after) && j == e + |after| < |buf|
    requires buf[j] == COMMA || buf[j] == CLOSE_ARRAY || buf[j] == CLOSE_OBJECT
    ensures Skip(buf, e) == j && !IsNumberByte(buf[e])
  {
    hide At, Skip, IsNumberByte;
    BlanksSkipped(buf, e, after);
    NotNumber(buf, e);
  }

  // ---- Arrays (section 5) ----------------------------------------------------------------------

  lemma {:induction false} ArrDocRead(buf: Bytes, i: nat, depth: nat, slots: seq<Slot>, gap: seq<White>)
    requires var doc := ArrDoc(slots, gap);
             depth + Nesting(DocValue(doc)) <= NESTING_LIMIT && At(buf, i, DocText(doc))
    ensures var doc := ArrDoc(slots, gap); ValueAt(buf, i, depth) == Some(Parsed(DocValue(doc), i + |DocText(doc)|))
    decreases slots, 2
  {
    hide ValueAt, ItemsAt, SlotsText, SlotValues, At, NestingItems, Skip, DocText, DocValue;
    ArrParts(slots, gap);
    if slots == [] {
      TokenRead(buf, i, OPEN_ARRAY, gap, [CLOSE_ARRAY]);
      AtIndex(buf, i + 1 + |gap|, [CLOSE_ARRAY], 0);
    } else {
      var j := i + 1 + |slots[0].before|;
      SlotsOpen(slots);
      OpensHigh(SlotsText(slots)[0]);
      TokenRead(buf, i, OPEN_ARRAY, slots[0].before, SlotsText(slots));
      AtIndex(buf, j, SlotsText(slots), 0);
      SlotsRead(buf, j - 1, j, depth + 1, slots);
    }
    ArrayStarts(buf, i, depth);
  }

  lemma ArrParts(slots: seq<Slot>, gap: seq<White>)
    ensures DocText(ArrDoc(slots, gap))
            == [OPEN_ARRAY] + if slots == [] then gap + [CLOSE_ARRAY] else slots[0].before + SlotsText(slots)
    ensures DocValue(ArrDoc(slots, gap)) == Array(SlotValues(slots)) && (slots == [] ==> SlotValues(slots) == [])
  {
    hide SlotsText;
    assert Ascii("[") == [OPEN_ARRAY] && Ascii("]") == [CLOSE_ARRAY];
  }

  lemma SlotsOpen(slots: seq<Slot>)
    requires slots != []
    ensures SlotsText(slots) != [] && Opens(SlotsText(slots)[0])
  {
    hide DocText;
    DocOpens(slots[0].doc);
  }

  lemma SlotsNested(slots: seq<Slot>)
    requires slots != []
    ensures SlotValues(slots) == [DocValue(slots[0].doc)] + SlotValues(slots[1..])
    ensures var n := NestingItems(SlotValues(slots));
            Nesting(DocValue(slots[0].doc)) <= n && NestingItems(SlotValues(slots[1..])) <= n
    ensures |slots| == 1 ==> slots[1..] == [] && SlotValues(slots) == [DocValue(slots[0].doc)]
  {
    hide DocValue;
    assert SlotValues(slots)[1..] == SlotValues(slots[1..]);
  }

  /** Items from `i` on, with `p` the bracket or comma before the blanks in front of them. */
  lemma {:induction false} SlotsRead(buf: Bytes, p: nat, i: nat, depth: nat, slots: seq<Slot>)
    requires slots != [] && depth + NestingItems(SlotValues(slots)) <= NESTING_LIMIT
    requires p < |buf| && Skip(buf, p + 1) == i && At(buf, i, SlotsText(slots))
    ensures ItemsAt(buf, p, depth) == Some(Parsed(SlotValues(slots), i + |SlotsText(slots)|))
    decreases slots, 1
  {
    hide ValueAt, ItemsAt, SlotValues, SlotsText, DocText, DocValue, At, NestingItems, Nesting, Skip,
         IsNumberByte, Opens, Ascii;
    var slot := slots[0];
    var e := i + |DocText(slot.doc)|;
    var j := e + |slot.after|;
    SlotsNested(slots);
    SlotPlaces(buf, i, slots);
    AfterValue(buf, e, slot.after, j);
    DocRead(buf, i, depth, slot.doc);
    if |slots| == 1 {
      LastItem(buf, p, depth, DocValue(slot.doc), e, j);
    } else {
      var k := j + 1 + |slots[1].before|;
      SlotsRead(buf, j, k, depth, slots[1..]);
      AnotherItem(buf, p, depth, DocValue(slot.doc), e, j, SlotValues(slots[1..]), k + |SlotsText(slots[1..])|);
    }
  }

  /** Where the first item, what follows it and the further items stand. */
  lemma SlotPlaces(buf: Bytes, i: nat, slots: seq<Slot>)
    requires slots != [] && At(buf, i, SlotsText(slots))
    ensures var e := i + |DocText(slots[0].doc)|;
            var j := e + |slots[0].after|;
            && At(buf, i, DocText(slots[0].doc)) && At(buf, e, slots[0].after) && j < |buf|
            && if |slots| == 1 then buf[j] == CLOSE_ARRAY && i + |SlotsText(slots)| == j + 1
               else
                 var k := j + 1 + |slots[1].before|;
                 && buf[j] == COMMA && Skip(buf, j + 1) == k && At(buf, k, SlotsText(slots[1..]))
                 && i + |SlotsText(slots)| == k + |SlotsText(slots[1..])|
  {
    hide DocText, At, Skip, SlotsText, SlotTail, Opens, Tail;
    var e := i + |DocText(slots[0].doc)|;
    SlotsCons(slots);
    AtParts(buf, i, DocText(slots[0].doc), SlotTail(slots));
    SlotTailIs(slots);
    if |slots| > 1 {
      SlotsOpen(slots[1..]);
      OpensHigh(SlotsText(slots[1..])[0]);
      TailRead(buf, e, slots[0].after, CLOSE_ARRAY, false, slots[1].before, SlotsText(slots[1..]));
    } else {
      TailRead(buf, e, slots[0].after, CLOSE_ARRAY, true, [], []);
    }
  }

  /** What follows the first item. */
  function SlotTail(slots: seq<Slot>): Bytes
    requires slots != []
  {
    if |slots| == 1 then Tail(slots[0].after, CLOSE_ARRAY, true, [], [])
    else Tail(slots[0].after, CLOSE_ARRAY, false, slots[1].before, SlotsText(slots[1..]))
  }

  lemma SlotTailIs(slots: seq<Slot>)
    requires slots != []
    ensures |slots| == 1 ==> SlotTail(slots) == Tail(slots[0].after, CLOSE_ARRAY, true, [], [])
    ensures |slots| > 1 ==> SlotTail(slots) == Tail(slots[0].after, CLOSE_ARRAY, false, slots[1].before, SlotsText(slots[1..]))
  {
  }

  lemma SlotsCons(slots: seq<Slot>)
    requires slots != []
    ensures SlotsText(slots) == DocText(slots[0].doc) + SlotTail(slots)
  {
    hide DocText;
    assert Ascii("]") == [CLOSE_ARRAY] && Ascii(",") == [COMMA];
  }

  // ---- Objects (section 4) ---------------------------------------------------------------------

  lemma {:induction false} ObjDocRead(buf: Bytes, i: nat, depth: nat, entries: seq<Entry>, gap: seq<White>)
    requires var doc := ObjDoc(entries, gap);
             depth + Nesting(DocValue(doc)) <= NESTING_LIMIT && At(buf, i, DocText(doc))
    ensures var doc := ObjDoc(entries, gap); ValueAt(buf, i, depth) == Some(Parsed(DocValue(doc), i + |DocText(doc)|))
    decreases entries, 2
  {
    hide ValueAt, MembersAt, EntriesText, EntryMembers, At, NestingMembers, Skip, DocText, DocValue, ObjectAt;
    ObjParts(entries, gap);
    if entries == [] {
      TokenRead(buf, i, OPEN_OBJECT, gap, [CLOSE_OBJECT]);
      AtIndex(buf, i + 1 + |gap|, [CLOSE_OBJECT], 0);
      EmptyObject(buf, i, depth, i + 1 + |gap|);
    } else {
      var j := i + 1 + |entries[0].before|;
      EntriesOpen(entries);
      TokenRead(buf, i, OPEN_OBJECT, entries[0].before, EntriesText(entries));
      AtIndex(buf, j, EntriesText(entries), 0);
      EntriesRead(buf, j - 1, j, depth + 1, entries);
      FullObject(buf, i, depth, j, EntryMembers(entries), j + |EntriesText(entries)|);
    }
    ObjectHere(buf, i, depth);
  }

  lemma ObjParts(entries: seq<Entry>, gap: seq<White>)
    ensures DocText(ObjDoc(entries, gap))
            == [OPEN_OBJECT]
               + if entries == [] then gap + [CLOSE_OBJECT] else entries[0].before + EntriesText(entries)
    ensures DocValue(ObjDoc(entries, gap)) == Object(EntryMembers(entries)) && (entries == [] ==> EntryMembers(entries) == [])
  {
    hide EntriesText;
    assert Ascii("{") == [OPEN_OBJECT] && Ascii("}") == [CLOSE_OBJECT];
  }

  lemma ObjectHere(buf: Bytes, i: nat, depth: nat)
    requires Shows(buf, i, OPEN_OBJECT) && depth <= NESTING_LIMIT
    ensures ValueAt(buf, i, depth) == ObjectAt(buf, i, depth)
  {
    NotWords(buf, i);
  }

  lemma EntriesOpen(entries: seq<Entry>)
    requires entries != []
    ensures EntriesText(entries) != [] && EntriesText(entries)[0] == QUOTE
  {
    hide DocText;
  }

  lemma EntriesNested(entries: seq<Entry>)
    requires entries != []
    ensures var m := Member(StringValue(entries[0].name), DocValue(entries[0].doc));
            EntryMembers(entries) == [m] + EntryMembers(entries[1..])
            && (|entries| == 1 ==> entries[1..] == [] && EntryMembers(entries) == [m])
    ensures var n := NestingMembers(EntryMembers(entries));
            Nesting(DocValue(entries[0].doc)) <= n && NestingMembers(EntryMembers(entries[1..])) <= n
  {
    hide DocValue, StringValue;
    assert EntryMembers(entries)[1..] == EntryMembers(entries[1..]);
  }

  /** Members from the first name at `i` on, with `p` the brace or comma before the blanks in front of it. */
  lemma {:induction false} EntriesRead(buf: Bytes, p: nat, i: nat, depth: nat, entries: seq<Entry>)
    requires entries != [] && depth + NestingMembers(EntryMembers(entries)) <= NESTING_LIMIT
    requires p < |buf| && Skip(buf, p + 1) == i && At(buf, i, EntriesText(entries))
    ensures MembersAt(buf, p, depth) == Some(Parsed(EntryMembers(entries), i + |EntriesText(entries)|))
    decreases entries, 1
  {
    hide ValueAt, MembersAt, StringAt, EntryMembers, EntriesText, StringText, DocText, DocValue, At,
         NestingMembers, Nesting, Skip, IsNumberByte, Opens, Ascii, StringValue;
    var entry := entries[0];
    var name := StringValue(entry.name);
    var o, n, c, e, j := EntryPlaces(buf, i, entries);
    EntriesNested(entries);
    AfterValue(buf, e, entry.after, j);
    DocRead(buf, c, depth, entry.doc);
    if |entries| == 1 {
      LastMember(buf, p, depth, name, o, n, c, DocValue(entry.doc), e, j);
    } else {
      var k := j + 1 + |entries[1].before|;
      EntriesRead(buf, j, k, depth, entries[1..]);
      AnotherMember(buf, p, depth, name, o, n, c, DocValue(entry.doc), e, j, EntryMembers(entries[1..]),
                    k + |EntriesText(entries[1..])|);
    }
  }

  /** The first name is read up to `o`; its colon stands at `n`, its value from `c` to `e`, and what follows at `j`. */
  lemma EntryPlaces(buf: Bytes, i: nat, entries: seq<Entry>) returns (o: nat, n: nat, c: nat, e: nat, j: nat)
    requires entries != [] && At(buf, i, EntriesText(entries))
    ensures var entry := entries[0];
            && StringAt(buf, i) == Some(Parsed(StringValue(entry.name), o)) && o <= |buf|
            && Skip(buf, o) == n && Shows(buf, n, COLON) && Skip(buf, n + 1) == c
            && At(buf, c, DocText(entry.doc)) && e == c + |DocText(entry.doc)|
            && At(buf, e, entry.after) && j == e + |entry.after| < |buf|
            && if |entries| == 1 then buf[j] == CLOSE_OBJECT && i + |EntriesText(entries)| == j + 1
               else
                 var k := j + 1 + |entries[1].before|;
                 && buf[j] == COMMA && Skip(buf, j + 1) == k && At(buf, k, EntriesText(entries[1..]))
                 && i + |EntriesText(entries)| == k + |EntriesText(entries[1..])|
  {
    hide DocText, At, Skip, Opens, StringText, StringAt, StringValue, EntriesText, EntryTail, Tail;
    var entry := entries[0];
    var text, tail := DocText(entry.doc), EntryTail(entries);
    EntriesCons(entries);
    o := i + |StringText(entry.name)|;
    n := o + |entry.behind|;
    c := n + 1 + |entry.ahead|;
    e := c + |text|;
    j := e + |entry.after|;
    DocOpens(entry.doc);
    OpensHigh(text[0]);
    NameRead(buf, i, entry.name, entry.behind, entry.ahead, text + tail);
    AtParts(buf, c, text, tail);
    EntryTailIs(entries);
    if |entries| > 1 {
      EntriesOpen(entries[1..]);
      TailRead(buf, e, entry.after, CLOSE_OBJECT, false, entries[1].before, EntriesText(entries[1..]));
    } else {
      TailRead(buf, e, entry.after, CLOSE_OBJECT, true, [], []);
    }
  }

  /** A name with its colon, in front of something that is no blank. */
  lemma NameRead(buf: Bytes, i: nat, name: Raw, behind: seq<White>, ahead: seq<White>, rest: Bytes)
    requires At(buf, i, StringText(name) + (behind + ([COLON] + (ahead + rest)))) && rest != [] && rest[0] > 32
    ensures var o := i + |StringText(name)|; var n := o + |behind|; var c := n + 1 + |ahead|;
            && StringAt(buf, i) == Some(Parsed(StringValue(name), o)) && c < |buf|
            && Skip(buf, o) == n && Shows(buf, n, COLON) && Skip(buf, n + 1) == c && At(buf, c, rest)
  {
    hide At, Skip, StringText, StringAt, StringValue;
    var o := i + |StringText(name)|;
    AtParts(buf, i, StringText(name), behind + ([COLON] + (ahead + rest)));
    AtParts(buf, o, behind, [COLON] + (ahead + rest));
    StringRead(buf, i, name);
    TokenRead(buf, o + |behind|, COLON, ahead, rest);
    BlanksSkipped(buf, o, behind);
  }

  /** What follows the value of the first member. */
  function EntryTail(entries: seq<Entry>): Bytes
    requires entries != []
  {
    if |entries| == 1 then Tail(entries[0].after, CLOSE_OBJECT, true, [], [])
    else Tail(entries[0].after, CLOSE_OBJECT, false, entries[1].before, EntriesText(entries[1..]))
  }

  lemma EntryTailIs(entries: seq<Entry>)
    requires entries != []
    ensures |entries| == 1 ==> EntryTail(entries) == Tail(entries[0].after, CLOSE_OBJECT, true, [], [])
    ensures |entries| > 1 ==>
              EntryTail(entries) == Tail(entries[0].after, CLOSE_OBJECT, false, entries[1].before, EntriesText(entries[1..]))
  {
  }

  lemma EntriesCons(entries: seq<Entry>)
    requires entries != []
    ensures EntriesText(entries)
            == StringText(entries[0].name) + (entries[0].behind + ([COLON] + (entries[0].ahead
               + (DocText(entries[0].doc) + EntryTail(entries)))))
  {
    hide StringText, DocText;
    assert Ascii("}") == [CLOSE_OBJECT] && Ascii(",") == [COMMA] && Ascii(":") == [COLON];
  }

  // ---- Whole texts -----------------------------------------------------------------------------

  const MARK: Bytes := [0xEF, 0xBB, 0xBF]

  function WholeText(doc: Doc, mark: bool, before: seq<White>, after: seq<White>): Bytes {
    (if mark then MARK else []) + (before + (DocText(doc) + after))
  }

  /** Every text nested at most 1000 deep, with blanks around it and behind a byte order mark or none, is read as the
      value it stands for; deeper ones are refused. */
  lemma TextRead(doc: Doc, mark: bool, before: seq<White>, after: seq<White>, whole: bool)
    ensures ParseText(WholeText(doc, mark, before, after), whole) == Some(DocValue(doc)) <==> Nesting(DocValue(doc)) <= 1000
  {
    hide ValueAt, DocText, DocValue, Nesting, Skip, At, IsNumberByte, AfterBom, ParseText, WholeText;
    var text := WholeText(doc, mark, before, after);
    if Nesting(DocValue(doc)) <= 1000 {
      var i := TextPlace(doc, mark, before, after);
      DocRead(text + [0], i, 0, doc);
      TextParsed(text, whole, i, DocValue(doc), i + |DocText(doc)|);
    } else {
      ParsedShallow(text, whole);
    }
  }

  /** Where the value stands, and what follows it. */
  lemma TextPlace(doc: Doc, mark: bool, before: seq<White>, after: seq<White>) returns (i: nat)
    ensures var buf := WholeText(doc, mark, before, after) + [0]; var e := i + |DocText(doc)|;
            && Skip(buf, AfterBom(buf)) == i && At(buf, i, DocText(doc))
            && e < |buf| && !IsNumberByte(buf[e]) && Shows(buf, Skip(buf, e), 0)
  {
    hide DocText, Skip, At, IsNumberByte, AfterBom, WholeText;
    i := (if mark then 3 else 0) + |before|;
    TextPlaces(doc, mark, before, after);
    MarkSkipped(doc, mark, before, after);
    TextStarts(doc, mark, before, after);
    EndSkipped(WholeText(doc, mark, before, after) + [0], i + |DocText(doc)|, after);
  }

  lemma TextStarts(doc: Doc, mark: bool, before: seq<White>, after: seq<White>)
    ensures var m := if mark then 3 else 0; Skip(WholeText(doc, mark, before, after) + [0], m) == m + |before|
  {
    hide DocText, Skip, At, Opens, WholeText;
    var buf := WholeText(doc, mark, before, after) + [0];
    var m := if mark then 3 else 0;
    TextPlaces(doc, mark, before, after);
    DocOpens(doc);
    OpensHigh(DocText(doc)[0]);
    AtIndex(buf, m + |before|, DocText(doc), 0);
    BlanksSkipped(buf, m, before);
  }

  lemma TextParsed(text: Bytes, whole: bool, i: nat, v: Json, e: nat)
    requires var buf := text + [0];
             Skip(buf, AfterBom(buf)) == i && ValueAt(buf, i, 0) == Some(Parsed(v, e)) && Shows(buf, Skip(buf, e), 0)
    ensures ParseText(text, whole) == Some(v)
  {
    hide ValueAt, Skip, AfterBom;
  }

  lemma TextPlaces(doc: Doc, mark: bool, before: seq<White>, after: seq<White>)
    ensures var buf, text := WholeText(doc, mark, before, after) + [0], DocText(doc);
            var m := if mark then 3 else 0;
            && At(buf, m, before) && At(buf, m + |before|, text) && At(buf, m + |before| + |text|, after + [0])
            && |buf| == m + |before| + |text| + |after| + 1
  {
    hide DocText, At;
    var head, text := if mark then MARK else [], DocText(doc);
    var buf := WholeText(doc, mark, before, after) + [0];
    WithZero(head, before, text, after);
    WholeAt(buf);
    AtParts(buf, 0, head, before + (text + (after + [0])));
    AtParts(buf, |head|, before, text + (after + [0]));
    AtParts(buf, |head| + |before|, text, after + [0]);
  }

  lemma WithZero(a: Bytes, b: Bytes, c: Bytes, d: Bytes)
    ensures a + (b + (c + d)) + [0] == a + (b + (c + (d + [0])))
  {
  }

  lemma MarkSkipped(doc: Doc, mark: bool, before: seq<White>, after: seq<White>)
    ensures AfterBom(WholeText(doc, mark, before, after) + [0]) == if mark then 3 else 0
  {
    hide DocText;
    DocOpens(doc);
    var buf := WholeText(doc, mark, before, after) + [0];
    if mark {
      assert buf[..3] == MARK;
    } else {
      assert buf[0] < 0x80;
      assert |buf| > 4 ==> buf[..3][0] == buf[0];
    }
  }

  /** Behind the value nothing but blanks is left, up to the zero byte. */
  lemma EndSkipped(buf: Bytes, e: nat, after: seq<White>)
    requires At(buf, e, after + [0]) && e + |after| + 1 == |buf|
    ensures Skip(buf, e) == |buf| - 1 && Shows(buf, |buf| - 1, 0) && !IsNumberByte(buf[e])
  {
    hide SkipAll;
    AtParts(buf, e, after, [0]);
    AtIndex(buf, |buf| - 1, [0], 0);
    forall k | e <= k < |buf| ensures buf[k] <= 32 { AtIndex(buf, e, after + [0], k - e); }
    AllSkipped(buf, e);
  }

  lemma {:induction false} AllSkipped(buf: Bytes, i: nat)
    requires i <= |buf| && forall k :: i <= k < |buf| ==> buf[k] <= 32
    ensures SkipAll(buf, i) == |buf|
    decreases |buf| - i
  {
    if i < |buf| { AllSkipped(buf, i + 1); }
  }
}
