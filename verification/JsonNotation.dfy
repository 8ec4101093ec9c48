/** The notation of RFC 8259 in characters: tokens, escapes, digits and the layout of what is printed. */
module JsonNotation {
  import opened Keys
  import opened JsonString
  import opened JsonText

  // ---- Tokens (section 2) ----------------------------------------------------------------------

  lemma Tokens()
    ensures [OPEN_ARRAY, CLOSE_ARRAY, OPEN_OBJECT, CLOSE_OBJECT, COLON, COMMA, QUOTE, BACKSLASH] == Ascii("[]{}:,\"\\")
    ensures NULL_TEXT == Ascii("null") && FALSE_TEXT == Ascii("false") && TRUE_TEXT == Ascii("true")
    ensures [SPACE, TAB, NEWLINE] == Ascii(" \t\n") && [MINUS, LETTER_U] == Ascii("-u")
  {
  }

  // ---- Strings (section 7) ---------------------------------------------------------------------

  /** The characters that have an escape with a letter, and their letters. */
  const NAMED := "\"\\/\U{8}\U{C}\n\r\t"
  const LETTERS := "\"\\/bfnrt"

  /** A backslash and a letter of the table are read as its character, and no other letter is read. */
  lemma LetterRead(letter: byte)
    ensures forall k :: 0 <= k < 8 && LETTERS[k] as int == letter ==> Unescaped(letter) == Some(NAMED[k] as int)
    ensures Unescaped(letter).Some? ==> exists k :: 0 <= k < 8 && LETTERS[k] as int == letter
  {
    if Unescaped(letter).Some? {
      var k := if letter == 34 then 0 else if letter == 92 then 1 else if letter == 47 then 2 else if letter == 98 then 3
               else if letter == 102 then 4 else if letter == 110 then 5 else if letter == 114 then 6 else 7;
      assert LETTERS[k] as int == letter;
    }
  }

  /** Characters with a letter are written by it, but for the slash; other control characters by their number in four
      digits; and all others as they are. */
  lemma ByteWritten(c: byte)
    ensures forall k :: 0 <= k < 8 && k != 2 && NAMED[k] as int == c ==> EscapeByte(c) == Ascii(['\\', LETTERS[k]])
    ensures c < ' ' as int && (forall k :: 0 <= k < 8 ==> NAMED[k] as int != c) ==>
              EscapeByte(c) == Ascii(['\\', 'u', '0', '0', "0123456789abcdef"[c / 16], "0123456789abcdef"[c % 16]])
    ensures c >= ' ' as int && c != '\"' as int && c != '\\' as int ==> EscapeByte(c) == [c]
  {
    HexLetters(c / 16);
    HexLetters(c % 16);
    assert NAMED[0] as int == 34 && NAMED[1] as int == 92 && NAMED[3] as int == 8 && NAMED[4] as int == 12;
    assert NAMED[5] as int == 10 && NAMED[6] as int == 13 && NAMED[7] as int == 9;
  }

  lemma HexLetters(d: nat)
    requires d < 16
    ensures HexLetter(d) == "0123456789abcdef"[d] as int
  {
  }

  /** Hex digits of either case, and nothing else. */
  lemma HexDigitRead(c: byte)
    ensures forall d :: 0 <= d < 16 && ("0123456789abcdef"[d] as int == c || "0123456789ABCDEF"[d] as int == c) ==>
              HexDigit(c) == Some(d)
    ensures HexDigit(c).Some? ==>
              var d := HexDigit(c).value; d < 16 && ("0123456789abcdef"[d] as int == c || "0123456789ABCDEF"[d] as int == c)
  {
  }

  /** A literal of one character that has a letter is read as that character, and it is printed that way. */
  lemma NamedText(k: nat, format: bool, d: nat)
    requires k < 8
    ensures ParseText(Ascii(['\"', '\\', LETTERS[k], '\"']), true) == Some(Text([NAMED[k] as int]))
    ensures k != 2 ==> Printed(Text([NAMED[k] as int]), format, d) == Ascii(['\"', '\\', LETTERS[k], '\"'])
  {
    hide ValueAt, Skip, EscapeByte;
    var c := NAMED[k] as int;
    NamedRead(k);
    ByteWritten(c);
    assert [c][1..] == [];
    assert Escape([c]) == EscapeByte(c) + [];
  }

  lemma NamedRead(k: nat)
    requires k < 8
    ensures ParseText(Ascii(['\"', '\\', LETTERS[k], '\"']), true) == Some(Text([NAMED[k] as int]))
  {
    hide Unescaped;
    var c := NAMED[k] as int;
    var buf := Ascii(['\"', '\\', LETTERS[k], '\"']) + [0];
    LetterRead(LETTERS[k] as int);
    NamedUnescaped(buf, k);
    assert SkipAll(buf, 5) == 5 && SkipAll(buf, 4) == 5;
    assert [c][1..] == [] && CString([c]) == [c];
  }

  lemma NamedUnescaped(buf: Bytes, k: nat)
    requires k < 8 && buf == Ascii(['\"', '\\', LETTERS[k], '\"']) + [0]
    ensures StringEnd(buf, 1) == Some(3) && Unescape(buf, 1, 3) == Some([NAMED[k] as int])
  {
    LetterRead(LETTERS[k] as int);
    assert LETTERS[k] != 'u';
    assert StringEnd(buf, 3) == Some(3);
    assert Unescape(buf, 3, 3) == Some([]);
    assert [NAMED[k] as int] + [] == [NAMED[k] as int];
  }

  // ---- Numbers (section 6) ---------------------------------------------------------------------

  /** The number that a run of decimal digits stands for. */
  function Positional(s: string): nat
    requires forall i :: 0 <= i < |s| ==> '0' <= s[i] <= '9'
  {
    if s == [] then 0 else 10 * Positional(s[..|s|-1]) + (s[|s|-1] - '0') as int
  }

  /** An integer is printed as its digits, without a leading zero, behind a minus sign when it is negative. */
  lemma {:induction false} DigitsPrinted(n: nat) returns (s: string)
    ensures s != [] && (forall i :: 0 <= i < |s| ==> '0' <= s[i] <= '9') && (n > 0 ==> s[0] != '0')
    ensures Digits(n) == Ascii(s) && Positional(s) == n
    decreases n
  {
    var last := '0' + (n % 10) as char;
    if n < 10 {
      s := [last];
      assert s[..0] == [];
    } else {
      var front := DigitsPrinted(n / 10);
      s := front + [last];
      assert s[..|s|-1] == front;
      assert Ascii(s) == Ascii(front) + [last as int];
    }
  }

  lemma DecimalPrinted(n: int) returns (s: string)
    ensures s != [] && (forall i :: 0 <= i < |s| ==> '0' <= s[i] <= '9') && (n != 0 ==> s[0] != '0')
    ensures Decimal(n) == if n < 0 then Ascii("-") + Ascii(s) else Ascii(s)
    ensures Positional(s) == if n < 0 then -n else n
  {
    s := DigitsPrinted(if n < 0 then -n else n);
  }

  /** The integer beside a number is the number without what is behind its point, held within 32 bits. */
  lemma IntegerHeld(r: real)
    ensures r >= 2147483647.0 ==> ValueInt(r) == 2147483647
    ensures r <= -2147483648.0 ==> ValueInt(r) == -2147483648
    ensures 0.0 <= r < 2147483647.0 ==> 0 <= ValueInt(r) && ValueInt(r) as real <= r < ValueInt(r) as real + 1.0
    ensures -2147483648.0 < r < 0.0 ==> ValueInt(r) <= 0 && ValueInt(r) as real - 1.0 < r <= ValueInt(r) as real
  {
  }

  // ---- Layout ----------------------------------------------------------------------------------

  /** Pieces with a separator between them. */
  function Joined(parts: seq<Bytes>, sep: Bytes): Bytes {
    if parts == [] then [] else if |parts| == 1 then parts[0] else parts[0] + (sep + Joined(parts[1..], sep))
  }

  function ItemTexts(items: seq<Json>, format: bool, d: nat): (parts: seq<Bytes>)
    ensures |parts| == |items| && forall i :: 0 <= i < |items| ==> parts[i] == Printed(items[i], format, d)
  {
    seq(|items|, i requires 0 <= i < |items| => Printed(items[i], format, d))
  }

  /** An array is its items between brackets, with a comma, and a blank when formatted, between them. */
  lemma ArrayPrinted(items: seq<Json>, format: bool, d: nat)
    ensures Printed(Array(items), format, d)
            == Ascii("[") + Joined(ItemTexts(items, format, d + 1), Ascii(if format then ", " else ",")) + Ascii("]")
  {
    hide Printed, PrintedItems;
    PrintedParts(Array(items), format, d);
    ItemsJoined(items, format, d + 1);
    Tokens();
    assert [OPEN_ARRAY] == Ascii("[") && [CLOSE_ARRAY] == Ascii("]");
  }

  lemma {:induction false} ItemsJoined(items: seq<Json>, format: bool, d: nat)
    ensures PrintedItems(items, format, d) == Joined(ItemTexts(items, format, d), Ascii(if format then ", " else ","))
  {
    hide Printed;
    assert Separator(format) == Ascii(if format then ", " else ",");
    if |items| > 1 {
      ItemsJoined(items[1..], format, d);
      assert ItemTexts(items, format, d)[1..] == ItemTexts(items[1..], format, d);
    }
  }

  /** One member: its name, a colon (and a tab when formatted), and its value; indented by as many tabs as it is deep. */
  function MemberText(m: Member, format: bool, d: nat): Bytes {
    (if format then Ascii(seq(d, _ => '\t')) else []) + Quoted(m.name) + Ascii(if format then ":\t" else ":")
    + Printed(m.value, format, d)
  }

  function MemberTexts(members: seq<Member>, format: bool, d: nat): (parts: seq<Bytes>)
    ensures |parts| == |members| && forall i :: 0 <= i < |members| ==> parts[i] == MemberText(members[i], format, d)
  {
    seq(|members|, i requires 0 <= i < |members| => MemberText(members[i], format, d))
  }

  /** An object is its members between braces with commas between them; formatted, each on a line of its own, with the
      closing brace as far in as the object. */
  lemma ObjectPrinted(members: seq<Member>, format: bool, d: nat)
    ensures Printed(Object(members), format, d)
            == if format then
                 Ascii("{\n") + (Joined(MemberTexts(members, true, d + 1), Ascii(",\n")) + LastLine(members))
                 + (Ascii(seq(d, _ => '\t')) + Ascii("}"))
               else Ascii("{") + Joined(MemberTexts(members, false, d + 1), Ascii(",")) + Ascii("}")
  {
    hide Printed, PrintedMembers, MemberTexts, Joined, Tabs, ObjectStart, ObjectEnd, Ascii, LastLine;
    PrintedParts(Object(members), format, d);
    MembersJoined(members, format, d + 1);
    Braces(format, d);
    if !format {
      var all := Joined(MemberTexts(members, false, d + 1), Ascii(","));
      assert all + [] == all;
    }
  }

  /** The line of the last member ends. */
  function LastLine(members: seq<Member>): Bytes { if members == [] then [] else Ascii("\n") }

  lemma Braces(format: bool, d: nat)
    ensures ObjectStart(format) == if format then Ascii("{\n") else Ascii("{")
    ensures ObjectEnd(format, d) == if format then Ascii(seq(d, _ => '\t')) + Ascii("}") else Ascii("}")
  {
    assert Tabs(d) == Ascii(seq(d, _ => '\t')) && [CLOSE_OBJECT] == Ascii("}");
  }

  lemma LineEnds(format: bool)
    ensures MemberEnd(format, true) == if format then Ascii("\n") else []
    ensures MemberEnd(format, false) == Ascii(if format then ",\n" else ",")
  {
  }

  lemma Regrouped(a: Bytes, b: Bytes, c: Bytes, d: Bytes)
    ensures a + (b + (c + d)) == (a + (b + c)) + d
  {
  }

  lemma {:induction false} MembersJoined(members: seq<Member>, format: bool, d: nat)
    ensures PrintedMembers(members, format, d)
            == Joined(MemberTexts(members, format, d), Ascii(if format then ",\n" else ","))
               + (if format then LastLine(members) else [])
  {
    hide PrintedMembers, MemberText, MemberEnd, Ascii;
    MembersEmpty(format, d);
    if members != [] {
      var sep, nl := Ascii(if format then ",\n" else ","), if format then LastLine(members) else [];
      var first, rest := MemberText(members[0], format, d), MemberTexts(members[1..], format, d);
      MembersJoined(members[1..], format, d);
      assert MemberTexts(members, format, d)[1..] == rest;
      MemberPrinted(members, format, d);
      LineEnds(format);
      if |members| > 1 {
        Regrouped(first, sep, Joined(rest, sep), nl);
      } else {
        assert members[1..] == [] && first + (nl + []) == first + nl;
      }
    }
  }

  lemma MembersEmpty(format: bool, d: nat)
    ensures PrintedMembers([], format, d) == []
  {
  }

  lemma MemberPrinted(members: seq<Member>, format: bool, d: nat)
    requires members != []
    ensures PrintedMembers(members, format, d)
            == MemberText(members[0], format, d)
               + (MemberEnd(format, |members| == 1) + PrintedMembers(members[1..], format, d))
  {
    hide Printed, Quoted;
    assert Indent(format, d) == if format then Ascii(seq(d, _ => '\t')) else [];
    assert ColonText(format) == Ascii(if format then ":\t" else ":");
  }
}
