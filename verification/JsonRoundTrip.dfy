/** Parsing what was printed gives back the value, at every nesting depth and in both formats. */
module JsonRoundTrip {
  import opened Keys
  import opened JsonString
  import opened JsonText

  // ---- Numbers -----------------------------------------------------------------------------

  lemma {:induction false} DigitsRead(n: nat)
    ensures var s := Digits(n);
            s != [] && (forall i :: 0 <= i < |s| ==> IsDigit(s[i])) && DigitsValue(s) == n
  {
    if n >= 10 {
      DigitsRead(n / 10);
      var d := Digits(n / 10);
      assert Digits(n)[..|Digits(n)|-1] == d;
    } else {
      assert Digits(n)[..0] == [];
    }
  }

  function TenTo(k: nat): nat { if k == 0 then 1 else 10 * TenTo(k - 1) }

  lemma {:induction false} DigitsShort(n: nat, k: nat)
    requires k > 0 && n < TenTo(k)
    ensures |Digits(n)| <= k
  {
    if n >= 10 { DigitsShort(n / 10, k - 1); }
  }

  lemma WholeDigitsShort(n: nat)
    requires n < 1000000000000000
    ensures |Digits(n)| <= 15
  {
    assert TenTo(5) == 100000;
    assert TenTo(10) == 10000000000;
    assert TenTo(15) == 1000000000000000;
    DigitsShort(n, 15);
  }

  lemma {:induction false} DigitRunWhole(s: Bytes, i: nat)
    requires i <= |s| && forall j :: i <= j < |s| ==> IsDigit(s[j])
    ensures DigitRun(s, i) == |s| - i
    decreases |s| - i
  {
    if i < |s| { DigitRunWhole(s, i + 1); }
  }

  lemma DecimalRead(n: int)
    requires -1000000000000000 < n < 1000000000000000
    ensures var s := Decimal(n);
            && s != [] && (s[0] == MINUS || IsDigit(s[0])) && |s| <= 16
            && (forall i :: 0 <= i < |s| ==> IsNumberByte(s[i]))
            && Converted(s) == Some(Parsed(n as real, |s|))
  {
    hide Digits, DigitsValue;
    var s := Decimal(n);
    var m := if n < 0 then -n else n;
    var d := Digits(m);
    DigitsRead(m);
    WholeDigitsShort(m);
    var i := SignAt(s, 0);
    assert s[i..] == d;
    DigitRunWhole(s, i);
    assert s[i..|s|] + [] == d;
  }

  lemma {:induction false} NumberSpanWhole(buf: Bytes, i: nat, text: Bytes, room: nat)
    requires At(buf, i, text) && |text| <= room && i + |text| < |buf| && !IsNumberByte(buf[i + |text|])
    requires forall k :: 0 <= k < |text| ==> IsNumberByte(text[k])
    ensures NumberSpan(buf, i, room) == |text|
    decreases |text|
  {
    if text != [] {
      AtIndex(buf, i, text, 0);
      assert text == [text[0]] + text[1..];
      AtParts(buf, i, [text[0]], text[1..]);
      NumberSpanWhole(buf, i + 1, text[1..], room - 1);
    }
  }

  // ---- Whitespace --------------------------------------------------------------------------

  /** Nothing to skip. */
  lemma SkipNone(buf: Bytes, i: nat)
    requires i < |buf| && buf[i] > 32
    ensures Skip(buf, i) == i
  {
  }

  lemma {:induction false} SkipRun(buf: Bytes, i: nat, k: nat)
    requires i + k < |buf| && buf[i + k] > 32 && forall j :: i <= j < i + k ==> buf[j] <= 32
    ensures SkipAll(buf, i) == Skip(buf, i) == i + k
    decreases k
  {
    if k > 0 { SkipRun(buf, i + 1, k - 1); }
  }

  predicate Blank(s: Bytes) { forall i :: 0 <= i < |s| ==> s[i] <= 32 }

  /** Blanks in front of something that is not blank are skipped. */
  lemma SkipBlank(buf: Bytes, i: nat, s: Bytes)
    requires At(buf, i, s) && Blank(s) && i + |s| < |buf| && buf[i + |s|] > 32
    ensures Skip(buf, i) == i + |s|
  {
    forall j | i <= j < i + |s| ensures buf[j] <= 32 { AtIndex(buf, i, s, j - i); }
    SkipRun(buf, i, |s|);
  }

  // ---- Values ------------------------------------------------------------------------------

  /** What the text of a value can start with. */
  predicate Opens(c: byte) { c > 32 && c != CLOSE_ARRAY && c != CLOSE_OBJECT && c != COMMA && c != COLON }

  lemma PrintedOpens(v: Json, format: bool, depth: nat)
    requires Plain(v)
    ensures Printed(v, format, depth) != [] && Opens(Printed(v, format, depth)[0])
  {
    if v.Number? { DecimalRead(v.value.Floor); }
  }

  lemma NumberBack(buf: Bytes, i: nat, depth: nat, r: real)
    requires IsWhole(r) && At(buf, i, Decimal(r.Floor)) && depth <= NESTING_LIMIT
    requires var e := i + |Decimal(r.Floor)|; e < |buf| && !IsNumberByte(buf[e])
    ensures ValueAt(buf, i, depth) == Some(Parsed(Number(r), i + |Decimal(r.Floor)|))
  {
    hide ArrayAt, ObjectAt, StringAt, Decimal, Converted, NumberSpan;
    var text := Decimal(r.Floor);
    DecimalRead(r.Floor);
    AtIndex(buf, i, text, 0);
    NumberSpanWhole(buf, i, text, 63);
    NotWords(buf, i);
  }

  /** None of the three words starts here. */
  lemma NotWords(buf: Bytes, i: nat)
    requires i < |buf| && buf[i] != 110 && buf[i] != 102 && buf[i] != 116
    ensures !ShowsText(buf, i, NULL_TEXT) && !ShowsText(buf, i, FALSE_TEXT) && !ShowsText(buf, i, TRUE_TEXT)
  {
    assert i + 4 <= |buf| ==> buf[i..i+4][0] == buf[i];
    assert i + 5 <= |buf| ==> buf[i..i+5][0] == buf[i];
  }

  lemma WordBack(buf: Bytes, i: nat, depth: nat, v: Json)
    requires v.Null? || v.False? || v.True?
    requires At(buf, i, Printed(v, false, 0)) && depth <= NESTING_LIMIT
    ensures ValueAt(buf, i, depth) == Some(Parsed(v, i + |Printed(v, false, 0)|))
  {
    AtIndex(buf, i, Printed(v, false, 0), 0);
    assert i + 4 <= |buf| ==> buf[i..i+4][0] == buf[i];
    assert i + 5 <= |buf| ==> buf[i..i+5][0] == buf[i];
  }

  lemma StringBack(buf: Bytes, i: nat, s: Bytes)
    requires 0 !in s && At(buf, i, Quoted(s))
    ensures Shows(buf, i, QUOTE) && StringAt(buf, i) == Some(Parsed(s, i + |Quoted(s)|))
  {
    hide Escape, Unescape, StringEnd, CString;
    AtParts(buf, i, [QUOTE], Escape(s) + [QUOTE]);
    AtIndex(buf, i, [QUOTE], 0);
    EscapeRoundTrip(buf, i + 1, s);
    CStringWhole(s);
  }

  lemma {:induction false} ValueRoundTrip(buf: Bytes, i: nat, depth: nat, v: Json, format: bool, d: nat)
    requires Plain(v) && depth + Nesting(v) <= NESTING_LIMIT && At(buf, i, Printed(v, format, d))
    requires var e := i + |Printed(v, format, d)|; e < |buf| && !IsNumberByte(buf[e])
    ensures ValueAt(buf, i, depth) == Some(Parsed(v, i + |Printed(v, format, d)|))
    decreases v, 0
  {
    hide ValueAt, Printed;
    match v
    case Number(r) =>
      assert Printed(v, format, d) == Decimal(r.Floor) by { PrintedParts(v, format, d); }
      NumberBack(buf, i, depth, r);
    case Text(s) => TextBack(buf, i, depth, s, format, d);
    case Array(items) => ArrayBack(buf, i, depth, items, format, d);
    case Object(members) => ObjectBack(buf, i, depth, members, format, d);
    case _ => PrintedParts(v, format, d); PrintedParts(v, false, 0); WordBack(buf, i, depth, v);
  }

  lemma TextBack(buf: Bytes, i: nat, depth: nat, s: Bytes, format: bool, d: nat)
    requires 0 !in s && At(buf, i, Printed(Text(s), format, d)) && depth <= NESTING_LIMIT
    ensures ValueAt(buf, i, depth) == Some(Parsed(Text(s), i + |Printed(Text(s), format, d)|))
  {
    hide ArrayAt, ObjectAt, StringAt, NumberAt, Quoted, ShowsText;
    StringBack(buf, i, s);
    NotWords(buf, i);
  }

  // ---- Arrays ------------------------------------------------------------------------------

  lemma {:induction false} ArrayBack(buf: Bytes, i: nat, depth: nat, items: seq<Json>, format: bool, d: nat)
    requires var v := Array(items);
             && PlainItems(items) && depth + 1 + NestingItems(items) <= NESTING_LIMIT && At(buf, i, Printed(v, format, d))
    ensures ValueAt(buf, i, depth) == Some(Parsed(Array(items), i + |Printed(Array(items), format, d)|))
    decreases items, 2
  {
    hide ValueAt, ItemsAt, PrintedItems, Printed;
    var body := PrintedItems(items, format, d + 1);
    PrintedParts(Array(items), format, d);
    AtParts(buf, i, [OPEN_ARRAY], body + [CLOSE_ARRAY]);
    AtIndex(buf, i, [OPEN_ARRAY], 0);
    AtParts(buf, i + 1, body, [CLOSE_ARRAY]);
    AtIndex(buf, i + 1 + |body|, [CLOSE_ARRAY], 0);
    ArrayStarts(buf, i, depth);
    if items == [] {
      EmptyItems(format, d + 1);
      SkipNone(buf, i + 1);
    } else {
      ItemsOpen(items, format, d + 1);
      AtIndex(buf, i + 1, body, 0);
      SkipNone(buf, i + 1);
      ItemsRoundTrip(buf, i, i + 1, depth + 1, items, format, d + 1);
    }
  }

  lemma ArrayStarts(buf: Bytes, i: nat, depth: nat)
    requires Shows(buf, i, OPEN_ARRAY) && depth <= NESTING_LIMIT
    ensures ValueAt(buf, i, depth) == ArrayAt(buf, i, depth)
  {
    NotWords(buf, i);
  }

  lemma EmptyItems(format: bool, d: nat)
    ensures PrintedItems([], format, d) == [] && PrintedMembers([], format, d) == []
  {
  }

  lemma ItemsOpen(items: seq<Json>, format: bool, d: nat)
    requires items != [] && PlainItems(items)
    ensures var t := PrintedItems(items, format, d); t != [] && Opens(t[0])
  {
    PrintedOpens(items[0], format, d);
  }

  lemma HeadItem(items: seq<Json>)
    requires items != [] && PlainItems(items)
    ensures Plain(items[0]) && PlainItems(items[1..])
    ensures Nesting(items[0]) <= NestingItems(items) && NestingItems(items[1..]) <= NestingItems(items)
  {
  }

  lemma HeadMember(members: seq<Member>)
    requires members != [] && PlainMembers(members)
    ensures 0 !in members[0].name && Plain(members[0].value) && PlainMembers(members[1..])
    ensures Nesting(members[0].value) <= NestingMembers(members) && NestingMembers(members[1..]) <= NestingMembers(members)
  {
  }

  /** One item has been read up to `e`, and behind blanks a bracket or a comma stands at `j`. */
  lemma LastItem(buf: Bytes, p: nat, depth: nat, v: Json, e: nat, j: nat)
    requires p < |buf| && depth <= NESTING_LIMIT && ValueAt(buf, Skip(buf, p + 1), depth) == Some(Parsed(v, e))
    requires Skip(buf, e) == j && Shows(buf, j, CLOSE_ARRAY)
    ensures ItemsAt(buf, p, depth) == Some(Parsed([v], j + 1))
  {
    hide ValueAt, Skip;
  }

  lemma AnotherItem(buf: Bytes, p: nat, depth: nat, v: Json, e: nat, j: nat, rest: seq<Json>, end: nat)
    requires p < |buf| && depth <= NESTING_LIMIT && ValueAt(buf, Skip(buf, p + 1), depth) == Some(Parsed(v, e))
    requires Skip(buf, e) == j && Shows(buf, j, COMMA) && ItemsAt(buf, j, depth) == Some(Parsed(rest, end))
    ensures ItemsAt(buf, p, depth) == Some(Parsed([v] + rest, end))
  {
    hide ValueAt, Skip;
  }

  /** Items printed from `i` on, with `p` the bracket or comma in front of them. */
  lemma {:induction false} ItemsRoundTrip(buf: Bytes, p: nat, i: nat, depth: nat, items: seq<Json>, format: bool, d: nat)
    requires items != [] && PlainItems(items) && depth + NestingItems(items) <= NESTING_LIMIT
    requires p < i < |buf| && Skip(buf, p + 1) == i && At(buf, i, PrintedItems(items, format, d) + [CLOSE_ARRAY])
    ensures ItemsAt(buf, p, depth) == Some(Parsed(items, i + |PrintedItems(items, format, d)| + 1))
    decreases items, 1
  {
    hide ValueAt, ItemsAt, Printed, PrintedItems, IsNumberByte, Plain, Nesting, Skip, Opens, At, PlainItems,
         NestingItems, Separator;
    HeadItem(items);
    var e := i + |Printed(items[0], format, d)|;
    ItemParts(buf, i, items, format, d);
    ConsItems(items);
    if |items| == 1 {
      AfterItems(buf, e);
      ValueRoundTrip(buf, i, depth, items[0], format, d);
      LastItem(buf, p, depth, items[0], e, e);
    } else {
      var sep := Separator(format);
      AfterSeparator(buf, e, format);
      ValueRoundTrip(buf, i, depth, items[0], format, d);
      ItemsRoundTrip(buf, e, e + |sep|, depth, items[1..], format, d);
      AnotherItem(buf, p, depth, items[0], e, e, items[1..], e + |sep| + |PrintedItems(items[1..], format, d)| + 1);
    }
  }

  /** Where the first item stands, and what follows it. */
  lemma ItemParts(buf: Bytes, i: nat, items: seq<Json>, format: bool, d: nat)
    requires items != [] && PlainItems(items) && At(buf, i, PrintedItems(items, format, d) + [CLOSE_ARRAY])
    ensures var first, sep, rest := Printed(items[0], format, d), Separator(format), PrintedItems(items[1..], format, d);
            var e := i + |first|;
            && At(buf, i, first)
            && (if |items| == 1 then At(buf, e, [CLOSE_ARRAY]) && |PrintedItems(items, format, d)| == |first|
                else
                  && At(buf, e, sep) && At(buf, e + |sep|, rest + [CLOSE_ARRAY]) && sep != []
                  && |PrintedItems(items, format, d)| == |first| + |sep| + |rest|
                  && e + |sep| < |buf| && buf[e + |sep|] > 32)
  {
    hide Printed, PrintedItems, At, PlainItems, Opens, Separator, Plain, NestingItems, Nesting;
    var first := Printed(items[0], format, d);
    ItemsCases(items, format, d);
    if |items| == 1 {
      AtParts(buf, i, first, [CLOSE_ARRAY]);
    } else {
      MoreItemParts(buf, i, first, items, format, d);
    }
  }

  lemma MoreItemParts(buf: Bytes, i: nat, first: Bytes, items: seq<Json>, format: bool, d: nat)
    requires |items| > 1 && PlainItems(items)
    requires At(buf, i, (first + (Separator(format) + PrintedItems(items[1..], format, d))) + [CLOSE_ARRAY])
    ensures var sep, rest := Separator(format), PrintedItems(items[1..], format, d);
            var e := i + |first|;
            && At(buf, i, first) && At(buf, e, sep) && At(buf, e + |sep|, rest + [CLOSE_ARRAY]) && sep != []
            && e + |sep| < |buf| && buf[e + |sep|] > 32
  {
    hide PrintedItems, At, PlainItems, Opens, Separator, Plain;
    var sep, rest := Separator(format), PrintedItems(items[1..], format, d);
    var e, tail := i + |first|, rest + [CLOSE_ARRAY];
    SeparatorSome(format);
    HeadItem(items);
    Regroup(first, sep, rest, [CLOSE_ARRAY]);
    AtParts(buf, i, first, sep + tail);
    AtParts(buf, e, sep, tail);
    ItemsOpen(items[1..], format, d);
    OpensHigh(rest[0]);
    AtIndex(buf, e + |sep|, tail, 0);
  }

  lemma SeparatorSome(format: bool)
    ensures Separator(format) != []
  {
  }

  lemma ConsItems<T>(items: seq<T>)
    requires items != []
    ensures items == [items[0]] + items[1..] && (|items| == 1 ==> items == [items[0]])
  {
  }

  lemma Regroup(a: Bytes, b: Bytes, c: Bytes, d: Bytes)
    ensures (a + (b + c)) + d == a + (b + (c + d))
  {
  }

  lemma AfterItems(buf: Bytes, e: nat)
    requires At(buf, e, [CLOSE_ARRAY])
    ensures Shows(buf, e, CLOSE_ARRAY) && !IsNumberByte(buf[e]) && Skip(buf, e) == e
  {
    AtIndex(buf, e, [CLOSE_ARRAY], 0);
  }

  lemma ItemsCases(items: seq<Json>, format: bool, d: nat)
    requires items != []
    ensures PrintedItems(items, format, d) ==
            if |items| == 1 then Printed(items[0], format, d)
            else Printed(items[0], format, d) + (Separator(format) + PrintedItems(items[1..], format, d))
    ensures |items| == 1 ==> items[1..] == []
  {
  }

  lemma NotNumber(buf: Bytes, e: nat)
    requires e < |buf| && (buf[e] == COMMA || buf[e] == CLOSE_ARRAY || buf[e] == CLOSE_OBJECT || buf[e] <= 32)
    ensures !IsNumberByte(buf[e])
  {
  }

  lemma AfterSeparator(buf: Bytes, e: nat, format: bool)
    requires At(buf, e, Separator(format)) && e + |Separator(format)| < |buf| && buf[e + |Separator(format)|] > 32
    ensures Shows(buf, e, COMMA) && !IsNumberByte(buf[e]) && Skip(buf, e) == e < e + |Separator(format)|
    ensures Skip(buf, e + 1) == e + |Separator(format)|
  {
    AtIndex(buf, e, Separator(format), 0);
    if format { AtIndex(buf, e, Separator(format), 1); }
    SkipRun(buf, e + 1, |Separator(format)| - 1);
  }

  // ---- Objects -----------------------------------------------------------------------------

  lemma EmptyBack(buf: Bytes, i: nat, depth: nat, format: bool, d: nat)
    requires depth < NESTING_LIMIT && At(buf, i, ObjectStart(format))
    requires At(buf, i + |ObjectStart(format)|, ObjectEnd(format, d))
    ensures ValueAt(buf, i, depth) == Some(Parsed(Object([]), i + |ObjectStart(format)| + |ObjectEnd(format, d)|))
  {
    hide ValueAt, ObjectAt, Skip, Indent, ObjectEnd, ObjectStart, At, Blank;
    var open := ObjectStart(format);
    ObjectStarts(buf, i, depth, format);
    AtEnd(buf, i + |open|, format, d);
    BlankIndent(format, d);
    AfterOpen(buf, i, format, Indent(format, d));
    EmptyObject(buf, i, depth, i + |open| + |Indent(format, d)|);
    CloseLength(format, d);
  }

  lemma {:induction false} ObjectBack(buf: Bytes, i: nat, depth: nat, members: seq<Member>, format: bool, d: nat)
    requires var v := Object(members);
             && PlainMembers(members) && depth + 1 + NestingMembers(members) <= NESTING_LIMIT && At(buf, i, Printed(v, format, d))
    ensures ValueAt(buf, i, depth) == Some(Parsed(Object(members), i + |Printed(Object(members), format, d)|))
    decreases members, 2
  {
    hide ValueAt, MembersAt, PrintedMembers, Printed, ObjectAt, Skip, Indent, ObjectEnd, ObjectStart, At, PlainMembers,
         NestingMembers, Blank;
    var body := PrintedMembers(members, format, d + 1);
    var open, close := ObjectStart(format), ObjectEnd(format, d);
    PrintedParts(Object(members), format, d);
    AtParts(buf, i, open, body + close);
    if members == [] {
      EmptyItems(format, d + 1);
      assert body + close == close;
      EmptyBack(buf, i, depth, format, d);
    } else {
      ObjectStarts(buf, i, depth, format);
      MembersOpen(buf, i + |open|, members, format, d + 1, close);
      AfterOpen(buf, i, format, Indent(format, d + 1));
      var j := i + |open| + |Indent(format, d + 1)|;
      SkipNone(buf, j);
      MembersRoundTrip(buf, j - 1, i + |open|, depth + 1, members, format, d + 1);
      FullObject(buf, i, depth, j, members, i + |open| + |body| + |close|);
    }
  }

  lemma BlankIndent(format: bool, d: nat)
    ensures Blank(Indent(format, d))
  {
  }

  lemma EmptyObject(buf: Bytes, i: nat, depth: nat, j: nat)
    requires i < |buf| && depth < NESTING_LIMIT && Skip(buf, i + 1) == j && Shows(buf, j, CLOSE_OBJECT)
    ensures ObjectAt(buf, i, depth) == Some(Parsed(Object([]), j + 1))
  {
    hide Skip, MembersAt;
  }

  lemma FullObject(buf: Bytes, i: nat, depth: nat, j: nat, members: seq<Member>, end: nat)
    requires i < |buf| && depth < NESTING_LIMIT && 0 < j && Skip(buf, i + 1) == j && Shows(buf, j, QUOTE)
    requires MembersAt(buf, j - 1, depth + 1) == Some(Parsed(members, end))
    ensures ObjectAt(buf, i, depth) == Some(Parsed(Object(members), end))
  {
    hide Skip, MembersAt;
  }

  lemma ObjectStarts(buf: Bytes, i: nat, depth: nat, format: bool)
    requires At(buf, i, ObjectStart(format)) && depth <= NESTING_LIMIT
    ensures Shows(buf, i, OPEN_OBJECT) && ValueAt(buf, i, depth) == ObjectAt(buf, i, depth)
    ensures |ObjectStart(format)| > 0
  {
    AtIndex(buf, i, ObjectStart(format), 0);
    NotWords(buf, i);
  }

  lemma AtEnd(buf: Bytes, i: nat, format: bool, d: nat)
    requires At(buf, i, ObjectEnd(format, d))
    ensures var k := i + |Indent(format, d)|; k < |buf| && buf[k] == CLOSE_OBJECT && At(buf, i, Indent(format, d))
  {
    AtParts(buf, i, Indent(format, d), [CLOSE_OBJECT]);
    AtIndex(buf, i + |Indent(format, d)|, [CLOSE_OBJECT], 0);
  }

  /** Newline and indentation after the opening brace are skipped. */
  lemma AfterOpen(buf: Bytes, i: nat, format: bool, indent: Bytes)
    requires At(buf, i, ObjectStart(format)) && At(buf, i + |ObjectStart(format)|, indent) && Blank(indent)
    requires var k := i + |ObjectStart(format)| + |indent|; k < |buf| && buf[k] > 32
    ensures Skip(buf, i + 1) == i + |ObjectStart(format)| + |indent|
  {
    if format { AtIndex(buf, i, ObjectStart(format), 1); }
    var k := |ObjectStart(format)| - 1 + |indent|;
    forall j | i + 1 <= j < i + 1 + k ensures buf[j] <= 32 {
      if j >= i + |ObjectStart(format)| { AtIndex(buf, i + |ObjectStart(format)|, indent, j - i - |ObjectStart(format)|); }
    }
    SkipRun(buf, i + 1, k);
  }

  /** The text of members starts with the indentation and the quote of the first name. */
  lemma MembersOpen(buf: Bytes, i: nat, members: seq<Member>, format: bool, d: nat, tail: Bytes)
    requires members != [] && At(buf, i, PrintedMembers(members, format, d) + tail)
    ensures var indent := Indent(format, d); At(buf, i, indent) && Blank(indent) && Shows(buf, i + |indent|, QUOTE)
  {
    hide Printed;
    var indent := Indent(format, d);
    var text := PrintedMembers(members, format, d);
    AtParts(buf, i, text, tail);
    MembersCases(members, format, d);
    AtParts(buf, i, indent, text[|indent|..]);
    AtIndex(buf, i, text, |indent|);
  }

  lemma MembersCases(members: seq<Member>, format: bool, d: nat)
    requires members != []
    ensures PrintedMembers(members, format, d) ==
            Indent(format, d) + (Quoted(members[0].name) + (ColonText(format) + (Printed(members[0].value, format, d)
            + (MemberEnd(format, |members| == 1) + PrintedMembers(members[1..], format, d)))))
    ensures var t := PrintedMembers(members, format, d); var k := |Indent(format, d)|;
            k < |t| && t[..k] == Indent(format, d) && t[k] == QUOTE && t == Indent(format, d) + t[k..]
    ensures |members| == 1 ==> members[1..] == [] && PrintedMembers(members[1..], format, d) == []
  {
  }

  /** Where the parts of a member stand. */
  lemma MemberParts(buf: Bytes, i: nat, indent: Bytes, name: Bytes, colon: Bytes, val: Bytes, tail: Bytes)
    requires At(buf, i, indent + (name + (colon + (val + tail))))
    ensures var q := i + |indent|; var n := q + |name|; var c := n + |colon|; var e := c + |val|;
            At(buf, q, name) && At(buf, n, colon) && At(buf, c, val) && At(buf, e, tail)
  {
    AtParts(buf, i, indent, name + (colon + (val + tail)));
    AtParts(buf, i + |indent|, name, colon + (val + tail));
    AtParts(buf, i + |indent| + |name|, colon, val + tail);
    AtParts(buf, i + |indent| + |name| + |colon|, val, tail);
  }

  lemma Reassociate(a: Bytes, b: Bytes, c: Bytes, d: Bytes, e: Bytes, f: Bytes, g: Bytes)
    ensures (a + (b + (c + (d + (e + f))))) + g == a + (b + (c + (d + (e + (f + g)))))
  {
  }

  lemma AfterColon(buf: Bytes, n: nat, format: bool)
    requires At(buf, n, ColonText(format)) && n + |ColonText(format)| < |buf| && buf[n + |ColonText(format)|] > 32
    ensures Shows(buf, n, COLON) && Skip(buf, n) == n && Skip(buf, n + 1) == n + |ColonText(format)|
  {
    AtIndex(buf, n, ColonText(format), 0);
    if format { AtIndex(buf, n, ColonText(format), 1); }
    SkipNone(buf, n);
    SkipRun(buf, n + 1, |ColonText(format)| - 1);
  }

  /** After the last member: newline and indentation, then the closing brace. */
  lemma AfterLast(buf: Bytes, e: nat, format: bool, d: nat)
    requires At(buf, e, MemberEnd(format, true) + ObjectEnd(format, d))
    ensures var k := e + |MemberEnd(format, true)| + |Indent(format, d)|;
            Skip(buf, e) == k && Shows(buf, k, CLOSE_OBJECT) && !IsNumberByte(buf[e])
  {
    hide Skip, Indent, At, IsNumberByte;
    BlankIndent(format, d);
    var end := MemberEnd(format, true);
    AtParts(buf, e, end, ObjectEnd(format, d));
    AtEnd(buf, e + |end|, format, d);
    var blank := end + Indent(format, d);
    assert end + ObjectEnd(format, d) == blank + [CLOSE_OBJECT];
    AtParts(buf, e, blank, [CLOSE_OBJECT]);
    SkipBlank(buf, e, blank);
    AtIndex(buf, e, blank + [CLOSE_OBJECT], 0);
    NotNumber(buf, e);
  }

  /** After another member: the comma, then newline and indentation up to the next name. */
  lemma AfterComma(buf: Bytes, e: nat, format: bool, indent: Bytes)
    requires At(buf, e, MemberEnd(format, false)) && Blank(indent) && At(buf, e + |MemberEnd(format, false)|, indent)
    requires Shows(buf, e + |MemberEnd(format, false)| + |indent|, QUOTE)
    ensures Shows(buf, e, COMMA) && !IsNumberByte(buf[e]) && Skip(buf, e) == e
    ensures Skip(buf, e + 1) == e + |MemberEnd(format, false)| + |indent|
  {
    var end := MemberEnd(format, false);
    AtIndex(buf, e, end, 0);
    if format { AtIndex(buf, e, end, 1); }
    SkipNone(buf, e);
    var k := |end| - 1 + |indent|;
    forall j | e + 1 <= j < e + 1 + k ensures buf[j] <= 32 {
      if j >= e + |end| { AtIndex(buf, e + |end|, indent, j - e - |end|); }
    }
    SkipRun(buf, e + 1, k);
  }

  /** One member has been read up to `e`; `k` is where the closing brace or a comma stands. */
  lemma LastMember(buf: Bytes, p: nat, depth: nat, name: Bytes, o: nat, n: nat, c: nat, v: Json, e: nat, k: nat)
    requires p < |buf| && depth <= NESTING_LIMIT && StringAt(buf, Skip(buf, p + 1)) == Some(Parsed(name, o))
    requires Skip(buf, o) == n && Shows(buf, n, COLON) && Skip(buf, n + 1) == c
    requires ValueAt(buf, c, depth) == Some(Parsed(v, e)) && Skip(buf, e) == k && Shows(buf, k, CLOSE_OBJECT)
    ensures MembersAt(buf, p, depth) == Some(Parsed([Member(name, v)], k + 1))
  {
    hide ValueAt, Skip, StringAt;
  }

  lemma AnotherMember(buf: Bytes, p: nat, depth: nat, name: Bytes, o: nat, n: nat, c: nat, v: Json, e: nat, k: nat,
      rest: seq<Member>, end: nat)
    requires p < |buf| && depth <= NESTING_LIMIT && StringAt(buf, Skip(buf, p + 1)) == Some(Parsed(name, o))
    requires Skip(buf, o) == n && Shows(buf, n, COLON) && Skip(buf, n + 1) == c
    requires ValueAt(buf, c, depth) == Some(Parsed(v, e)) && Skip(buf, e) == k && Shows(buf, k, COMMA)
    requires MembersAt(buf, k, depth) == Some(Parsed(rest, end))
    ensures MembersAt(buf, p, depth) == Some(Parsed([Member(name, v)] + rest, end))
  {
    hide ValueAt, Skip, StringAt;
  }

  /** Members printed from `i` on, with `p` in front of the blanks before their first name. */
  lemma {:induction false} MembersRoundTrip(buf: Bytes, p: nat, i: nat, depth: nat, members: seq<Member>, format: bool, d: nat)
    requires members != [] && PlainMembers(members) && depth + NestingMembers(members) <= NESTING_LIMIT && d > 0
    requires p < |buf| && Skip(buf, p + 1) == i + |Indent(format, d)|
    requires At(buf, i, PrintedMembers(members, format, d) + ObjectEnd(format, d - 1))
    ensures MembersAt(buf, p, depth)
            == Some(Parsed(members, i + |PrintedMembers(members, format, d)| + |ObjectEnd(format, d - 1)|))
    decreases members, 1
  {
    hide ValueAt, MembersAt, StringAt, Printed, PrintedMembers, Quoted, ColonText, MemberEnd, IsNumberByte, Plain,
         Nesting, Skip, Indent, Opens, ObjectEnd, At, PlainMembers, NestingMembers;
    HeadMember(members);
    BlankIndent(format, d);
    ConsItems(members);
    var m := members[0];
    var end, rest, close := MemberEnd(format, |members| == 1), PrintedMembers(members[1..], format, d), ObjectEnd(format, d - 1);
    var n, c := MemberStarts(buf, i, members, format, d, close);
    var e := c + |Printed(m.value, format, d)|;
    if |members| == 1 {
      assert end + (rest + close) == end + close by { EmptyItems(format, d); }
      AfterLast(buf, e, format, d - 1);
      ValueRoundTrip(buf, c, depth, m.value, format, d);
      CloseLength(format, d - 1);
      LastMember(buf, p, depth, m.name, n, n, c, m.value, e, e + |end| + |Indent(format, d - 1)|);
    } else {
      AtParts(buf, e, end, rest + close);
      MembersOpen(buf, e + |end|, members[1..], format, d, close);
      AfterComma(buf, e, format, Indent(format, d));
      ValueRoundTrip(buf, c, depth, m.value, format, d);
      MembersRoundTrip(buf, e, e + |end|, depth, members[1..], format, d);
      AnotherMember(buf, p, depth, m.name, n, n, c, m.value, e, e, members[1..], e + |end| + |rest| + |close|);
    }
  }

  /** The first name is read back; `n` is where the colon stands and `c` where the value starts. */
  lemma MemberStarts(buf: Bytes, i: nat, members: seq<Member>, format: bool, d: nat, close: Bytes) returns (n: nat, c: nat)
    requires members != [] && 0 !in members[0].name && Plain(members[0].value)
    requires At(buf, i, PrintedMembers(members, format, d) + close)
    ensures var m := members[0]; var val := Printed(m.value, format, d);
            var end, rest := MemberEnd(format, |members| == 1), PrintedMembers(members[1..], format, d);
            && StringAt(buf, i + |Indent(format, d)|) == Some(Parsed(m.name, n))
            && Shows(buf, n, COLON) && Skip(buf, n) == n && Skip(buf, n + 1) == c
            && At(buf, c, val) && At(buf, c + |val|, end + (rest + close))
            && i + |PrintedMembers(members, format, d)| == c + |val| + |end| + |rest|
  {
    hide StringAt, Printed, PrintedMembers, Quoted, ColonText, MemberEnd, Plain, Skip, Indent, Opens, At;
    var m := members[0];
    var indent, name, colon, val := Indent(format, d), Quoted(m.name), ColonText(format), Printed(m.value, format, d);
    var end, rest := MemberEnd(format, |members| == 1), PrintedMembers(members[1..], format, d);
    n := i + |indent| + |name|;
    c := n + |colon|;
    MembersCases(members, format, d);
    Reassociate(indent, name, colon, val, end, rest, close);
    MemberParts(buf, i, indent, name, colon, val, end + (rest + close));
    StringBack(buf, i + |indent|, m.name);
    PrintedOpens(m.value, format, d);
    AtIndex(buf, c, val, 0);
    OpensHigh(val[0]);
    AfterColon(buf, n, format);
  }

  lemma OpensHigh(c: byte)
    requires Opens(c)
    ensures c > 32
  {
  }

  lemma CloseLength(format: bool, d: nat)
    ensures |ObjectEnd(format, d)| == |Indent(format, d)| + 1
  {
  }

  // ---- Whole texts -------------------------------------------------------------------------

  /** Parsing the formatted or the unformatted text of a value gives back the same value. */
  lemma ParsePrinted(v: Json, format: bool, whole: bool)
    requires Plain(v) && Nesting(v) <= NESTING_LIMIT
    ensures ParseText(Printed(v, format, 0), whole) == Some(v)
  {
    hide ValueAt, Printed, Plain, Nesting;
    var text := Printed(v, format, 0);
    var buf := text + [0];
    assert At(buf, 0, text);
    PrintedOpens(v, format, 0);
    NoMark(v, format);
    SkipNone(buf, 0);
    assert buf[|text|] == 0;
    NotNumber(buf, |text|);
    ValueRoundTrip(buf, 0, 0, v, format, 0);
    assert SkipAll(buf, |text|) == |buf|;
  }

  lemma NoMark(v: Json, format: bool)
    requires Plain(v)
    ensures AfterBom(Printed(v, format, 0) + [0]) == 0
  {
    hide Decimal;
    var buf := Printed(v, format, 0) + [0];
    if v.Number? { DecimalRead(v.value.Floor); }
    assert |buf| > 4 ==> buf[..3][0] == buf[0];
  }

  // ---- The nesting limit -------------------------------------------------------------------

  /** Nothing nested deeper than the limit is ever read. */
  lemma {:induction false} ReadWithinLimit(buf: Bytes, i: nat, depth: nat)
    requires i <= |buf| && depth <= NESTING_LIMIT
    ensures var r := ValueAt(buf, i, depth); r.Some? ==> depth + Nesting(r.value.value) <= NESTING_LIMIT
    decreases NESTING_LIMIT - depth, |buf| - i, 1
  {
    hide ItemsAt, MembersAt, StringAt, Converted, NumberSpan;
    if i < |buf| && depth < NESTING_LIMIT {
      var j := Skip(buf, i + 1);
      if j < |buf| {
        ItemsWithinLimit(buf, j - 1, depth + 1);
        MembersWithinLimit(buf, j - 1, depth + 1);
      }
    }
  }

  lemma {:induction false} ItemsWithinLimit(buf: Bytes, i: nat, depth: nat)
    requires i < |buf| && depth <= NESTING_LIMIT
    ensures var r := ItemsAt(buf, i, depth); r.Some? ==> depth + NestingItems(r.value.value) <= NESTING_LIMIT
    decreases NESTING_LIMIT - depth, |buf| - i, 0
  {
    hide ValueAt, Skip;
    var p := ValueAt(buf, Skip(buf, i + 1), depth);
    ReadWithinLimit(buf, Skip(buf, i + 1), depth);
    if p.Some? {
      var v := p.value.value;
      assert NestingItems([v]) == Nesting(v) by { assert [v][1..] == []; }
      var j := Skip(buf, p.value.off);
      if j < |buf| {
        ItemsWithinLimit(buf, j, depth);
        var rest := ItemsAt(buf, j, depth);
        assert rest.Some? ==> ([v] + rest.value.value)[1..] == rest.value.value;
      }
    }
  }

  lemma {:induction false} MembersWithinLimit(buf: Bytes, i: nat, depth: nat)
    requires i < |buf| && depth <= NESTING_LIMIT
    ensures var r := MembersAt(buf, i, depth); r.Some? ==> depth + NestingMembers(r.value.value) <= NESTING_LIMIT
    decreases NESTING_LIMIT - depth, |buf| - i, 0
  {
    hide ValueAt, Skip, StringAt;
    var name := StringAt(buf, Skip(buf, i + 1));
    if name.Some? {
      var c := Skip(buf, name.value.off);
      if c < |buf| {
        var p := ValueAt(buf, Skip(buf, c + 1), depth);
        ReadWithinLimit(buf, Skip(buf, c + 1), depth);
        if p.Some? {
          var m := Member(name.value.value, p.value.value);
          assert NestingMembers([m]) == Nesting(m.value) by { assert [m][1..] == []; }
          var j := Skip(buf, p.value.off);
          if j < |buf| {
            MembersWithinLimit(buf, j, depth);
            var rest := MembersAt(buf, j, depth);
            assert rest.Some? ==> ([m] + rest.value.value)[1..] == rest.value.value;
          }
        }
      }
    }
  }

  lemma ParsedShallow(text: Bytes, whole: bool)
    ensures var r := ParseText(text, whole); r.Some? ==> Nesting(r.value) <= 1000
  {
    hide ValueAt, Skip, Nesting;
    var buf := text + [0];
    ReadWithinLimit(buf, Skip(buf, AfterBom(buf)), 0);
  }

  /** A value comes back from its text exactly when it is nested at most 1000 deep. */
  lemma RoundTripExact(v: Json, format: bool, whole: bool)
    requires Plain(v)
    ensures ParseText(Printed(v, format, 0), whole) == Some(v) <==> Nesting(v) <= 1000
  {
    hide ParseText, Printed, Plain, Nesting;
    if Nesting(v) <= 1000 {
      ParsePrinted(v, format, whole);
    } else {
      ParsedShallow(Printed(v, format, 0), whole);
    }
  }
}
