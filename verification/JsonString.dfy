/** JSON string literals: escaping, unescaping and UTF-16 literals to UTF-8 (cJSON.c). */
module JsonString {
  import opened Keys

  type Bytes = seq<byte>

  const QUOTE: byte := 34
  const BACKSLASH: byte := 92
  const LETTER_U: byte := 117

  predicate IsAscii(s: string) { forall i :: 0 <= i < |s| ==> s[i] as int < 128 }

  /** The bytes of a text. */
  function Ascii(s: string): (b: Bytes)
    requires IsAscii(s)
    ensures |b| == |s| && forall i :: 0 <= i < |s| ==> b[i] == s[i] as int
  {
    seq(|s|, i requires 0 <= i < |s| => s[i] as int)
  }

  /** The letter after a backslash and the byte it stands for. */
  function Unescaped(letter: byte): Option<byte> {
    match letter
    case 98 => Some(8)
    case 102 => Some(12)
    case 110 => Some(10)
    case 114 => Some(13)
    case 116 => Some(9)
    case 34 => Some(34)
    case 92 => Some(92)
    case 47 => Some(47)
    case _ => None
  }

  // ---- Code points (RFC 2781 section 2.2, RFC 3629 section 3) ------------------------------

  function HexDigit(c: byte): Option<nat> {
    if 48 <= c <= 57 then Some(c - 48)
    else if 65 <= c <= 70 then Some(10 + c - 65)
    else if 97 <= c <= 102 then Some(10 + c - 97)
    else None
  }

  /** Value of four hex digits; 0 as soon as one of them is none. */
  function Hex4(s: Bytes): (h: nat)
    requires |s| == 4
    ensures h < 0x10000
  {
    var a, b, c, d := HexDigit(s[0]), HexDigit(s[1]), HexDigit(s[2]), HexDigit(s[3]);
    if a.Some? && b.Some? && c.Some? && d.Some? then ((a.value * 16 + b.value) * 16 + c.value) * 16 + d.value else 0
  }

  predicate HighSurrogate(u: nat) { 0xD800 <= u <= 0xDBFF }
  predicate LowSurrogate(u: nat) { 0xDC00 <= u <= 0xDFFF }

  /** The code points UTF-8 may carry. */
  predicate Scalar(cp: nat) { cp <= 0x10FFFF && !(0xD800 <= cp <= 0xDFFF) }

  function Utf8(cp: nat): (s: Bytes)
    requires cp <= 0x10FFFF
    ensures 1 <= |s| <= 4
  {
    if cp < 0x80 then [cp]
    else if cp < 0x800 then [0xC0 + cp / 64, 0x80 + cp % 64]
    else if cp < 0x10000 then [0xE0 + cp / 4096, 0x80 + cp / 64 % 64, 0x80 + cp % 64]
    else [0xF0 + cp / 262144, 0x80 + cp / 4096 % 64, 0x80 + cp / 64 % 64, 0x80 + cp % 64]
  }

  predicate Continuation(c: byte) { 0x80 <= c < 0xC0 }

  /** Reading UTF-8 by its byte patterns alone: any form, shortest or not. */
  function Utf8Value(s: Bytes): Option<nat> {
    if |s| == 1 && s[0] < 0x80 then Some(s[0])
    else if |s| == 2 && 0xC0 <= s[0] < 0xE0 && Continuation(s[1]) then Some((s[0] as int - 0xC0) * 64 + (s[1] - 0x80))
    else if |s| == 3 && 0xE0 <= s[0] < 0xF0 && Continuation(s[1]) && Continuation(s[2]) then
      Some((s[0] as int - 0xE0) * 4096 + (s[1] as int - 0x80) * 64 + (s[2] - 0x80))
    else if |s| == 4 && 0xF0 <= s[0] < 0xF8 && Continuation(s[1]) && Continuation(s[2]) && Continuation(s[3]) then
      Some((s[0] as int - 0xF0) * 262144 + (s[1] as int - 0x80) * 4096 + (s[2] as int - 0x80) * 64 + (s[3] - 0x80))
    else None
  }

  /** The encoding reads back as its code point, and no shorter byte string does. */
  lemma Utf8Shortest(cp: nat)
    requires cp <= 0x10FFFF
    ensures Utf8Value(Utf8(cp)) == Some(cp)
    ensures forall s :: Utf8Value(s) == Some(cp) ==> |Utf8(cp)| <= |s|
  {
    hide Utf8Value, Utf8;
    Utf8Reads(cp);
    forall s | Utf8Value(s) == Some(cp) ensures |Utf8(cp)| <= |s| { Utf8Holds(s, cp); }
  }

  lemma Utf8Reads(cp: nat)
    requires cp <= 0x10FFFF
    ensures Utf8Value(Utf8(cp)) == Some(cp)
  {
    var a, b, c := cp / 64, cp / 4096, cp / 262144;
    assert cp == a * 64 + cp % 64 && a == b * 64 + a % 64 && b == c * 64 + b % 64;
    assert a / 64 == b && b / 64 == c;
  }

  lemma Utf8Holds(s: Bytes, cp: nat)
    requires cp <= 0x10FFFF && Utf8Value(s) == Some(cp)
    ensures |Utf8(cp)| <= |s|
  {
  }

  /** A code point and how many input bytes its literal took. */
  datatype Literal = Literal(cp: nat, len: nat)

  /** \uXXXX, or a surrogate pair \uXXXX\uXXXX, starting at `i` and ending before `end`. */
  function Utf16Literal(buf: Bytes, i: nat, end: nat): (r: Option<Literal>)
    requires i <= end <= |buf|
    ensures r.Some? ==> r.value.cp <= 0x10FFFF && (r.value.len == 6 || r.value.len == 12) && i + r.value.len <= end
  {
    if end - i < 6 then None
    else
      var first := Hex4(buf[i+2..i+6]);
      if LowSurrogate(first) then None
      else if !HighSurrogate(first) then Some(Literal(first, 6))
      else if end - i < 12 || buf[i+6] != BACKSLASH || buf[i+7] != LETTER_U then None
      else
        var second := Hex4(buf[i+8..i+12]);
        if !LowSurrogate(second) then None
        else Some(Literal(0x10000 + first % 1024 * 1024 + second % 1024, 12))
  }

  /** UTF-16 by RFC 2781: one unit, or a pair above U+FFFF. */
  function Utf16Units(cp: nat): seq<nat> {
    if cp < 0x10000 then [cp] else [0xD800 + (cp - 0x10000) / 1024, 0xDC00 + (cp - 0x10000) % 1024]
  }

  lemma PairUnits(first: nat, second: nat)
    ensures HighSurrogate(first) && LowSurrogate(second) ==>
              var cp := 0x10000 + first % 1024 * 1024 + second % 1024;
              0x10000 <= cp <= 0x10FFFF && Utf16Units(cp) == [first, second]
  {
  }

  /** The units a scalar value takes determine it; they are a unit outside the surrogates or a pair of them. */
  lemma UnitsOf(cp: nat)
    requires Scalar(cp)
    ensures var us := Utf16Units(cp);
            if |us| == 1 then us[0] == cp && !HighSurrogate(cp) && !LowSurrogate(cp)
            else |us| == 2 && HighSurrogate(us[0]) && LowSurrogate(us[1])
                 && cp == 0x10000 + us[0] % 1024 * 1024 + us[1] % 1024
  {
  }

  predicate HexDigits(s: Bytes) {
    |s| == 4 && forall k :: 0 <= k < 4 ==> HexDigit(s[k]).Some?
  }

  /** Four hex digits behind a backslash and a u, standing for the unit. */
  predicate UnitAt(buf: Bytes, i: nat, end: nat, u: nat) {
    && i + 6 <= end <= |buf| && buf[i] == BACKSLASH && buf[i+1] == LETTER_U
    && HexDigits(buf[i+2..i+6]) && Hex4(buf[i+2..i+6]) == u
  }

  /** A backslash and a u were read; four hex digits follow unless the string ends before. */
  predicate LiteralAt(buf: Bytes, i: nat, end: nat) {
    i <= end <= |buf| && (i + 6 <= end ==> UnitAt(buf, i, end, Hex4(buf[i+2..i+6])))
  }

  predicate UnitsAt(buf: Bytes, i: nat, end: nat, us: seq<nat>) {
    forall k :: 0 <= k < |us| ==> UnitAt(buf, i + 6 * k, end, us[k])
  }

  lemma OneUnit(buf: Bytes, i: nat, end: nat, u: nat)
    ensures UnitsAt(buf, i, end, [u]) <==> UnitAt(buf, i, end, u)
  {
    if UnitsAt(buf, i, end, [u]) { assert UnitAt(buf, i + 6 * 0, end, [u][0]); }
  }

  lemma TwoUnits(buf: Bytes, i: nat, end: nat, u: nat, v: nat)
    ensures UnitsAt(buf, i, end, [u, v]) <==> UnitAt(buf, i, end, u) && UnitAt(buf, i + 6, end, v)
  {
    if UnitsAt(buf, i, end, [u, v]) {
      assert UnitAt(buf, i + 6 * 0, end, [u, v][0]);
      assert UnitAt(buf, i + 6 * 1, end, [u, v][1]);
    }
  }

  lemma HexIsValid(s: Bytes)
    requires |s| == 4 && Hex4(s) != 0
    ensures HexDigits(s)
  {
  }

  lemma TooShort(buf: Bytes, i: nat, end: nat, cp: nat)
    requires Scalar(cp) && end < i + 6
    ensures !UnitsAt(buf, i, end, Utf16Units(cp))
  {
    assert !UnitAt(buf, i + 6 * 0, end, Utf16Units(cp)[0]);
  }

  /** The code point read, with its length, is the one whose UTF-16 is written there. */
  lemma LiteralReads(buf: Bytes, i: nat, end: nat, cp: nat)
    requires LiteralAt(buf, i, end) && Scalar(cp)
    ensures UnitsAt(buf, i, end, Utf16Units(cp))
            <==> Utf16Literal(buf, i, end) == Some(Literal(cp, 6 * |Utf16Units(cp)|))
  {
    hide Hex4, UnitsAt, HexDigits;
    UnitsOf(cp);
    if end - i < 6 {
      TooShort(buf, i, end, cp);
    } else if |Utf16Units(cp)| == 1 {
      OneUnit(buf, i, end, cp);
    } else {
      var us := Utf16Units(cp);
      TwoUnits(buf, i, end, us[0], us[1]);
      if end - i >= 12 {
        PairUnits(Hex4(buf[i+2..i+6]), Hex4(buf[i+8..i+12]));
        if Hex4(buf[i+8..i+12]) != 0 { HexIsValid(buf[i+8..i+12]); }
      }
    }
  }

  /** A literal whose first four digits are hex is accepted exactly when its units are the UTF-16 of a scalar value,
      and then it stands for that value. */
  lemma LiteralIsUtf16(buf: Bytes, i: nat, end: nat)
    requires LiteralAt(buf, i, end)
    ensures Utf16Literal(buf, i, end).Some? <==> exists cp :: Scalar(cp) && UnitsAt(buf, i, end, Utf16Units(cp))
    ensures forall cp :: Scalar(cp) && UnitsAt(buf, i, end, Utf16Units(cp))
              <==> Utf16Literal(buf, i, end) == Some(Literal(cp, 6 * |Utf16Units(cp)|))
  {
    hide Hex4, UnitsAt, UnitAt, HexDigits;
    forall cp ensures Scalar(cp) && UnitsAt(buf, i, end, Utf16Units(cp))
                <==> Utf16Literal(buf, i, end) == Some(Literal(cp, 6 * |Utf16Units(cp)|)) {
      LiteralScalar(buf, i, end);
      if Scalar(cp) { LiteralReads(buf, i, end, cp); }
    }
    LiteralScalar(buf, i, end);
  }

  lemma LiteralScalar(buf: Bytes, i: nat, end: nat)
    requires LiteralAt(buf, i, end)
    ensures var r := Utf16Literal(buf, i, end);
            r.Some? ==> Scalar(r.value.cp) && r.value.len == 6 * |Utf16Units(r.value.cp)|
  {
    hide Hex4, HexDigits;
    if end - i >= 12 { PairUnits(Hex4(buf[i+2..i+6]), Hex4(buf[i+8..i+12])); }
  }

  /** When one of the first four digits is not hex, the literal always reads as the zero code point. */
  lemma BadDigitsReadAsZero(buf: Bytes, i: nat, end: nat)
    requires i + 6 <= end <= |buf| && !HexDigits(buf[i+2..i+6])
    ensures Utf16Literal(buf, i, end) == Some(Literal(0, 6))
  {
    var s := buf[i+2..i+6];
    var k :| 0 <= k < 4 && HexDigit(s[k]).None?;
  }

  // ---- Unescaping --------------------------------------------------------------------------

  function Prepend(a: Bytes, b: Option<Bytes>): Option<Bytes> {
    if b.Some? then Some(a + b.value) else None
  }

  /** The bytes a literal stands for, read from `i` up to its closing quote at `end`. */
  function Unescape(buf: Bytes, i: nat, end: nat): Option<Bytes>
    requires end < |buf|
    decreases if i < end then end - i else 0
  {
    if i >= end then Some([])
    else if buf[i] != BACKSLASH then Prepend([buf[i]], Unescape(buf, i + 1, end))
    else if buf[i+1] == LETTER_U then
      match Utf16Literal(buf, i, end)
      case None => None
      case Some(l) => Prepend(Utf8(l.cp), Unescape(buf, i + l.len, end))
    else
      match Unescaped(buf[i+1])
      case None => None
      case Some(c) => Prepend([c], Unescape(buf, i + 2, end))
  }

  /** Where the literal that is being read at `i` has its closing quote. */
  function StringEnd(buf: Bytes, i: nat): (e: Option<nat>)
    requires i <= |buf|
    ensures e.Some? ==> i <= e.value < |buf| && buf[e.value] == QUOTE
    decreases |buf| - i
  {
    if i == |buf| then None
    else if buf[i] == QUOTE then Some(i)
    else if buf[i] == BACKSLASH then if i + 1 >= |buf| then None else StringEnd(buf, i + 2)
    else StringEnd(buf, i + 1)
  }

  /** A C string ends at its first zero byte. */
  function CString(s: Bytes): Bytes {
    if s == [] || s[0] == 0 then [] else [s[0]] + CString(s[1..])
  }

  lemma {:induction false} CStringWhole(s: Bytes)
    requires 0 !in s
    ensures CString(s) == s
  {
    if s != [] { CStringWhole(s[1..]); }
  }

  // ---- Escaping ----------------------------------------------------------------------------

  function HexLetter(d: nat): byte
    requires d < 16
  {
    if d < 10 then 48 + d else 87 + d
  }

  function EscapeByte(c: byte): Bytes {
    if c == QUOTE || c == BACKSLASH then [BACKSLASH, c]
    else if c == 8 then [BACKSLASH, 98]
    else if c == 12 then [BACKSLASH, 102]
    else if c == 10 then [BACKSLASH, 110]
    else if c == 13 then [BACKSLASH, 114]
    else if c == 9 then [BACKSLASH, 116]
    else if c < 32 then [BACKSLASH, LETTER_U, 48, 48, HexLetter(c / 16), HexLetter(c % 16)]
    else [c]
  }

  function Escape(s: Bytes): Bytes {
    if s == [] then [] else EscapeByte(s[0]) + Escape(s[1..])
  }

  /** Bytes the escapes add, as counted before the output is allocated. */
  function ExtraByte(c: byte): nat {
    if c == QUOTE || c == BACKSLASH || c == 8 || c == 12 || c == 10 || c == 13 || c == 9 then 1
    else if c < 32 then 5 else 0
  }

  function Extra(s: Bytes): nat {
    if s == [] then 0 else ExtraByte(s[0]) + Extra(s[1..])
  }

  lemma {:induction false} EscapedLength(s: Bytes)
    ensures |Escape(s)| == |s| + Extra(s)
  {
    if s != [] { EscapedLength(s[1..]); }
  }

  lemma {:induction false} NothingToEscape(s: Bytes)
    ensures Extra(s) == 0 ==> Escape(s) == s
  {
    if s != [] { NothingToEscape(s[1..]); }
  }

  lemma {:induction false} EscapeAppend(a: Bytes, b: Bytes)
    ensures Escape(a + b) == Escape(a) + Escape(b) && Extra(a + b) == Extra(a) + Extra(b)
  {
    if a == [] {
      assert a + b == b;
    } else {
      assert (a + b)[1..] == a[1..] + b;
      EscapeAppend(a[1..], b);
    }
  }

  // ---- Round trip --------------------------------------------------------------------------

  /** `text` stands in the buffer at `i`. */
  predicate At(buf: Bytes, i: nat, text: Bytes) {
    i + |text| <= |buf| && buf[i..i + |text|] == text
  }

  lemma AtParts(buf: Bytes, i: nat, a: Bytes, b: Bytes)
    requires At(buf, i, a + b)
    ensures At(buf, i, a) && At(buf, i + |a|, b)
  {
    assert buf[i..i + |a + b|][..|a|] == a && buf[i..i + |a + b|][|a|..] == b;
  }

  lemma AtIndex(buf: Bytes, i: nat, text: Bytes, k: nat)
    requires At(buf, i, text) && k < |text|
    ensures i + k < |buf| && buf[i + k] == text[k]
  {
    assert buf[i..i + |text|][k] == buf[i + k];
  }

  /** A control byte written with four hex digits is read back. */
  lemma EscapedUnit(buf: Bytes, i: nat, end: nat, c: byte)
    requires c < 32 && i + 6 <= end < |buf| && buf[i] == BACKSLASH && buf[i+1] == LETTER_U
    requires buf[i+2] == 48 && buf[i+3] == 48 && buf[i+4] == HexLetter(c / 16) && buf[i+5] == HexLetter(c % 16)
    ensures Unescape(buf, i, end) == Prepend([c], Unescape(buf, i + 6, end))
  {
    hide Utf16Units, Unescaped;
    assert buf[i+2..i+6] == [48, 48, HexLetter(c / 16), HexLetter(c % 16)];
    assert Hex4(buf[i+2..i+6]) == c;
    assert Utf16Literal(buf, i, end) == Some(Literal(c, 6)) && Utf8(c) == [c];
  }

  lemma EscapedUnitEnd(buf: Bytes, i: nat)
    requires i + 6 <= |buf| && buf[i] == BACKSLASH
    requires forall k :: i + 2 <= k < i + 6 ==> buf[k] != QUOTE && buf[k] != BACKSLASH
    ensures StringEnd(buf, i) == StringEnd(buf, i + 6)
  {
    assert StringEnd(buf, i + 2) == StringEnd(buf, i + 3) == StringEnd(buf, i + 4);
    assert StringEnd(buf, i + 4) == StringEnd(buf, i + 5) == StringEnd(buf, i + 6);
  }

  lemma PlainByte(buf: Bytes, i: nat, end: nat, c: byte)
    requires i < end < |buf| && buf[i] == c && c != BACKSLASH && c != QUOTE
    ensures Unescape(buf, i, end) == Prepend([c], Unescape(buf, i + 1, end))
    ensures StringEnd(buf, i) == StringEnd(buf, i + 1)
  {
  }

  lemma EscapedLetter(buf: Bytes, i: nat, end: nat, letter: byte, c: byte)
    requires i + 2 <= end < |buf| && buf[i] == BACKSLASH && buf[i+1] == letter != LETTER_U && Unescaped(letter) == Some(c)
    ensures Unescape(buf, i, end) == Prepend([c], Unescape(buf, i + 2, end))
    ensures StringEnd(buf, i) == StringEnd(buf, i + 2)
  {
    hide Utf16Literal, Unescaped;
  }

  /** One escaped byte is read back as that byte. */
  lemma EscapedByte(buf: Bytes, i: nat, end: nat, c: byte)
    requires c != 0 && At(buf, i, EscapeByte(c)) && i + |EscapeByte(c)| <= end < |buf|
    ensures Unescape(buf, i, end) == Prepend([c], Unescape(buf, i + |EscapeByte(c)|, end))
    ensures StringEnd(buf, i) == StringEnd(buf, i + |EscapeByte(c)|)
  {
    hide Unescape, StringEnd, At;
    var e := EscapeByte(c);
    AtIndex(buf, i, e, 0);
    if |e| == 1 {
      PlainByte(buf, i, end, c);
    } else {
      AtIndex(buf, i, e, 1);
      if |e| == 2 {
        EscapedLetter(buf, i, end, e[1], c);
      } else {
        AtIndex(buf, i, e, 2);
        AtIndex(buf, i, e, 3);
        AtIndex(buf, i, e, 4);
        AtIndex(buf, i, e, 5);
        EscapedUnit(buf, i, end, c);
        EscapedUnitEnd(buf, i);
      }
    }
  }

  lemma AtQuote(buf: Bytes, i: nat)
    requires i < |buf| && buf[i] == QUOTE
    ensures StringEnd(buf, i) == Some(i) && Unescape(buf, i, i) == Some([])
  {
  }

  /** An escaped string is read back whole, up to the quote after it. */
  lemma {:induction false} EscapeRoundTrip(buf: Bytes, i: nat, s: Bytes)
    requires 0 !in s && At(buf, i, Escape(s) + [QUOTE])
    ensures var end := i + |Escape(s)|;
            StringEnd(buf, i) == Some(end) && Unescape(buf, i, end) == Some(s)
    decreases |s|
  {
    hide EscapeByte, Unescape, StringEnd;
    var end := i + |Escape(s)|;
    AtParts(buf, i, Escape(s), [QUOTE]);
    AtIndex(buf, end, [QUOTE], 0);
    if s == [] {
      AtQuote(buf, i);
    } else {
      var e := EscapeByte(s[0]);
      assert Escape(s) + [QUOTE] == e + (Escape(s[1..]) + [QUOTE]);
      AtParts(buf, i, e, Escape(s[1..]) + [QUOTE]);
      EscapedByte(buf, i, end, s[0]);
      EscapeRoundTrip(buf, i + |e|, s[1..]);
      assert s == [s[0]] + s[1..];
    }
  }
}
