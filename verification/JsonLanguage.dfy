/** Whatever is read is a text of the grammar, so that parsing reads exactly these texts. */
module JsonLanguage {
  import opened Keys
  import opened JsonString
  import opened JsonText
  import opened JsonRoundTrip
  import opened JsonGrammar

  lemma Pieced(buf: Bytes, a: nat, b: nat, c: nat)
    requires a <= b <= c <= |buf|
    ensures buf[a..c] == buf[a..b] + buf[b..c]
  {
  }

  // ---- Strings and numbers -------------------------------------------------------------------

  /** Whatever is read as a string is one. */
  lemma StringIs(buf: Bytes, i: nat) returns (r: Raw)
    requires StringAt(buf, i).Some?
    ensures var p := StringAt(buf, i).value; buf[i..p.off] == StringText(r) && p.value == StringValue(r)
  {
    hide Unescape, StringEnd, CString, Closed, Meaning;
    var end := StringAt(buf, i).value.off - 1;
    var raw := buf[i+1..end];
    assert buf[i+1..end+1] == raw + [QUOTE];
    ClosedEnds(buf, i + 1, raw);
    MeaningAt(buf, i + 1, raw);
    r := raw;
    assert Ascii("\"") == [QUOTE];
    assert buf[i..end+1] == [QUOTE] + (raw + [QUOTE]);
  }

  lemma DigitsAt(b: Bytes) returns (ds: seq<Digit>)
    requires forall k :: 0 <= k < |b| ==> IsDigit(b[k])
    ensures DigitsText(ds) == b
  {
    ds := seq(|b|, k requires 0 <= k < |b| => assert IsDigit(b[k]); b[k] - 48);
  }

  lemma ExponentIs(s: Bytes, k: nat) returns (e: Exponent)
    requires k <= |s|
    ensures var x := ExponentAt(s, k); Power(e) == x.value && ExponentText(e) == s[k..k + x.off]
  {
    hide DigitsText, Positional, DigitsValue, ExponentAt, SignText;
    e := NoExponent;
    ExponentZero(s, k);
    if ExponentAt(s, k).off > 0 {
      var sign, run := ExponentHere(s, k);
      var j := k + 1 + |SignText(sign)|;
      var ds := DigitsAt(run);
      DigitsCounted(ds);
      DigitsLong(ds);
      e := Exponent(s[k] == 69, sign, ds[0], ds[1..]);
      assert ds == [ds[0]] + ds[1..];
      ExponentJoined(e, s, k, j);
    }
  }

  lemma ExponentJoined(e: Exponent, s: Bytes, k: nat, j: nat)
    requires e.Exponent? && k < j && j + 1 + |e.more| <= |s| && s[k] == if e.cap then 69 else 101
    requires s[k + 1..j] == SignText(e.sign) && s[j..j + 1 + |e.more|] == DigitsText([e.first] + e.more)
    ensures ExponentText(e) == s[k..j + 1 + |e.more|]
  {
    hide DigitsText, SignText;
    var end := j + 1 + |e.more|;
    assert s[k..k + 1] == Ascii(if e.cap then "E" else "e");
    Pieced(s, k, k + 1, end);
    Pieced(s, k + 1, j, end);
  }

  lemma ExponentZero(s: Bytes, k: nat)
    requires k <= |s|
    ensures ExponentAt(s, k).off == 0 ==> ExponentAt(s, k).value == 0 && s[k..k] == []
  {
  }

  lemma ExponentHere(s: Bytes, k: nat) returns (sign: Sign, run: Bytes)
    requires k <= |s| && ExponentAt(s, k).off > 0
    ensures k < |s| && IsExponent(s[k]) && run != [] && forall x :: 0 <= x < |run| ==> IsDigit(run[x])
    ensures var j := k + 1 + |SignText(sign)|; var m: int := DigitsValue(run);
            && j + |run| <= |s| && s[k + 1..j] == SignText(sign) && s[j..j + |run|] == run
            && ExponentAt(s, k) == Parsed(if sign.Minus? then -m else m, j + |run| - k)
  {
    hide DigitsValue, DigitRun;
    var j := k + 1 + SignAt(s, k + 1);
    sign := if j == k + 1 then NoSign else if s[k + 1] == MINUS then Minus else Plus;
    run := RunHere(s, j);
    assert s[k + 1..j] == SignText(sign);
    if run != [] { assert run[0] == s[j]; }
  }

  lemma RunHere(s: Bytes, j: nat) returns (run: Bytes)
    requires j <= |s|
    ensures |run| == DigitRun(s, j) && j + |run| <= |s| && run == s[j..j + |run|]
    ensures forall k :: 0 <= k < |run| ==> IsDigit(run[k])
  {
    run := s[j..j + DigitRun(s, j)];
  }

  lemma DigitsLong(ds: seq<Digit>)
    ensures |DigitsText(ds)| == |ds|
  {
  }

  /** What is converted is the text of a number. */
  lemma NumIs(s: Bytes) returns (n: Num)
    requires Converted(s).Some? && (s[0] == MINUS || IsDigit(s[0]))
    ensures var p := Converted(s).value; IsNum(n) && NumText(n) == s[..p.off] && NumValue(n) == p.value
  {
    hide DigitsText, Positional, DigitsValue, DigitRun, ExponentAt, ExponentText, Power, NumValue, Scaled, NumText, Converted;
    var i := SignAt(s, 0);
    var whole := RunHere(s, i);
    var j := i + |whole|;
    FirstWhole(s, i, |whole|);
    var point, part, k := PartHere(s, j);
    SomeDigits(s, i, |whole|, point, |part|);
    var ds := DigitsAt(whole);
    DigitsLong(ds);
    var fs := DigitsAt(part);
    DigitsLong(fs);
    var e := ExponentIs(s, k);
    var off := ExponentBounds(s, k);
    n := Num(i == 1, ds, point, fs, e);
    NumScaled(n);
    DigitsJoined(ds, fs);
    DigitsCounted(ds + fs);
    NumJoined(n, s, i, j, k, off);
    assert s[i..j] + [] == s[i..j] && (part == [] ==> ds + fs == ds);
    ConvertedFrom(s, i, |whole|, point, |part|, Positional(ds + fs), ExponentAt(s, k));
  }

  lemma ExponentBounds(s: Bytes, k: nat) returns (off: nat)
    requires k <= |s|
    ensures off == k + ExponentAt(s, k).off && off <= |s|
  {
    off := k + ExponentAt(s, k).off;
  }

  lemma PartHere(s: Bytes, j: nat) returns (point: bool, part: Bytes, k: nat)
    requires j <= |s|
    ensures (point <==> j < |s| && s[j] == 46) && j <= k <= |s| && forall x :: 0 <= x < |part| ==> IsDigit(part[x])
    ensures if point then k == j + 1 + |part| && |part| == DigitRun(s, j + 1) && part == s[j + 1..k] else part == [] && k == j
  {
    point, part, k := j < |s| && s[j] == 46, [], j;
    if point {
      part := RunHere(s, j + 1);
      k := j + 1 + |part|;
    }
  }

  lemma SomeDigits(s: Bytes, i: nat, whole: nat, point: bool, part: nat)
    requires Converted(s).Some? && i == SignAt(s, 0) && i + whole <= |s| && whole == DigitRun(s, i)
    requires (point <==> i + whole < |s| && s[i + whole] == 46) && part == if point then DigitRun(s, i + whole + 1) else 0
    ensures whole + part > 0
  {
    hide DigitRun, ExponentAt, DigitsValue, Scaled, SignAt;
  }

  lemma FirstWhole(s: Bytes, i: nat, whole: nat)
    requires s != [] && i == SignAt(s, 0) && (s[0] == MINUS || IsDigit(s[0])) && whole == DigitRun(s, i)
    ensures i == (if s[0] == MINUS then 1 else 0) && (i == 0 ==> whole > 0)
  {
  }

  lemma NumJoined(n: Num, s: Bytes, i: nat, j: nat, k: nat, off: nat)
    requires i <= j <= k <= off <= |s| && i == (if n.minus then 1 else 0) && (n.minus ==> s[0] == MINUS)
    requires DigitsText(n.whole) == s[i..j] && ExponentText(n.exponent) == s[k..off]
    requires if n.point then j < k && s[j] == 46 && DigitsText(n.part) == s[j + 1..k] else j == k
    ensures NumText(n) == s[..off]
  {
    hide DigitsText, ExponentText;
    assert Ascii("-") == [MINUS] && Ascii(".") == [46];
    assert n.point ==> s[j..k] == [46] + s[j + 1..k];
    assert PartText(n.point, n.part) == s[j..k];
    Pieced(s, 0, i, off);
    Pieced(s, i, j, off);
    Pieced(s, j, k, off);
    assert s[..off] == s[0..off] && s[0..i] == if n.minus then Ascii("-") else [];
  }

  lemma NumberIs(buf: Bytes, i: nat) returns (n: ShortNum)
    requires i < |buf| && (buf[i] == MINUS || IsDigit(buf[i])) && NumberAt(buf, i).Some?
    ensures var p := NumberAt(buf, i).value; NumText(n) == buf[i..p.off] && p.value == Number(NumValue(n))
  {
    hide Converted, NumText, NumValue, NumberSpan, IsNum;
    var s := CopiedOut(buf, i);
    var m := NumIs(s);
    assert s[..Converted(s).value.off] == buf[i..i + Converted(s).value.off];
    n := m;
  }

  lemma CopiedOut(buf: Bytes, i: nat) returns (s: Bytes)
    requires i < |buf| && NumberAt(buf, i).Some?
    ensures |s| <= 63 && i + |s| <= |buf| && s == buf[i..i + |s|] && Converted(s).Some? && 0 < Converted(s).value.off <= |s|
    ensures NumberAt(buf, i) == Some(Parsed(Number(Converted(s).value.value), i + Converted(s).value.off))
  {
    hide Converted;
    s := buf[i..i + NumberSpan(buf, i, 63)];
    assert Converted(s).Some?;
    ConvertedLength(s);
  }

  lemma ConvertedLength(s: Bytes)
    ensures Converted(s).Some? ==> 0 < Converted(s).value.off <= |s|
  {
  }

  // ---- Values ----------------------------------------------------------------------------------

  /** What is skipped are blanks. */
  lemma BlanksAre(buf: Bytes, i: nat) returns (bs: seq<White>)
    requires i <= |buf|
    ensures bs == buf[i..Skip(buf, i)]
  {
    SkippedLow(buf, i);
    var e := Skip(buf, i);
    bs := seq(e - i, k requires 0 <= k < e - i => assert buf[i + k] <= 32; buf[i + k]);
  }

  lemma {:induction false} SkippedLow(buf: Bytes, i: nat)
    requires i <= |buf|
    ensures forall k :: i <= k < SkipAll(buf, i) ==> buf[k] <= 32
    decreases |buf| - i
  {
    if i < |buf| && buf[i] <= 32 { SkippedLow(buf, i + 1); }
  }

  /** Whatever is read as a value is the text of one, and stands for that value. */
  lemma {:induction false} ValueIs(buf: Bytes, i: nat, depth: nat) returns (doc: Doc)
    requires i <= |buf| && depth <= NESTING_LIMIT && ValueAt(buf, i, depth).Some?
    ensures var p := ValueAt(buf, i, depth).value; DocText(doc) == buf[i..p.off] && DocValue(doc) == p.value
    decreases NESTING_LIMIT - depth, |buf| - i, 1
  {
    hide StringAt, NumberAt, ArrayAt, ObjectAt, NumText, StringText, SlotsText, EntriesText, SlotValues, EntryMembers,
         NumValue, StringValue;
    WordsSpelled();
    if ShowsText(buf, i, NULL_TEXT) {
      doc := NullDoc;
    } else if ShowsText(buf, i, FALSE_TEXT) {
      doc := FalseDoc;
    } else if ShowsText(buf, i, TRUE_TEXT) {
      doc := TrueDoc;
    } else if Shows(buf, i, QUOTE) {
      var r := StringIs(buf, i);
      doc := StrDoc(r);
    } else if i < |buf| && (buf[i] == MINUS || IsDigit(buf[i])) {
      var n := NumberIs(buf, i);
      doc := NumDoc(n);
    } else if Shows(buf, i, OPEN_ARRAY) {
      doc := ArrayIs(buf, i, depth);
    } else {
      doc := ObjectIs(buf, i, depth);
    }
  }

  lemma WordsSpelled()
    ensures DocText(NullDoc) == NULL_TEXT && DocText(FalseDoc) == FALSE_TEXT && DocText(TrueDoc) == TRUE_TEXT
  {
  }

  lemma {:induction false} ArrayIs(buf: Bytes, i: nat, depth: nat) returns (doc: Doc)
    requires Shows(buf, i, OPEN_ARRAY) && depth <= NESTING_LIMIT && ArrayAt(buf, i, depth).Some?
    ensures var p := ArrayAt(buf, i, depth).value; DocText(doc) == buf[i..p.off] && DocValue(doc) == p.value
    decreases NESTING_LIMIT - depth, |buf| - i, 0
  {
    hide ArrayAt, ItemsAt, SlotsText, SlotValues, DocText, DocValue, Skip;
    var gap := BlanksAre(buf, i + 1);
    var j, off, slots := ArrayHere(buf, i, depth);
    if slots {
      var found := ItemsAre(buf, j - 1, depth + 1);
      var all := FirstBefore(found, gap + found[0].before);
      doc := ArrDoc(all, []);
      ArrParts(all, []);
      OpenedSpan(buf, i, j, off, gap, found[0].before, SlotsText(found));
    } else {
      doc := ArrDoc([], gap);
      ArrParts([], gap);
      assert buf[i..j + 1] == [OPEN_ARRAY] + (buf[i + 1..j] + [CLOSE_ARRAY]);
    }
  }

  /** An array ends with its first token, or has items. */
  lemma ArrayHere(buf: Bytes, i: nat, depth: nat) returns (j: nat, off: nat, slots: bool)
    requires i < |buf| && depth <= NESTING_LIMIT && ArrayAt(buf, i, depth).Some?
    ensures j == Skip(buf, i + 1) && i < j < |buf| && off == ArrayAt(buf, i, depth).value.off <= |buf| && depth < NESTING_LIMIT
    ensures var v := ArrayAt(buf, i, depth).value.value;
            if slots then
              var p := ItemsAt(buf, j - 1, depth + 1); p.Some? && v == Array(p.value.value) && off == p.value.off && j <= off
            else v == Array([]) && buf[j] == CLOSE_ARRAY && off == j + 1
  {
    hide ItemsAt, Skip;
    j := SkipBounds(buf, i + 1);
    off := ArrayAt(buf, i, depth).value.off;
    slots := !Shows(buf, j, CLOSE_ARRAY);
    if slots { ItemsEnd(buf, j - 1, depth + 1); }
  }

  lemma ItemsEnd(buf: Bytes, i: nat, depth: nat)
    requires i < |buf| && depth <= NESTING_LIMIT
    ensures ItemsAt(buf, i, depth).Some? ==> i < ItemsAt(buf, i, depth).value.off <= |buf|
    ensures MembersAt(buf, i, depth).Some? ==> i < MembersAt(buf, i, depth).value.off <= |buf|
  {
  }

  /** Blanks behind the opening token at `i`, more blanks, and the rest. */
  lemma OpenedSpan(buf: Bytes, i: nat, j: nat, off: nat, gap: seq<White>, before: seq<White>, rest: Bytes)
    requires i < j <= off <= |buf| && gap == buf[i + 1..j] && before + rest == buf[j..off]
    ensures buf[i..off] == [buf[i]] + ((gap + before) + rest)
  {
    assert (gap + before) + rest == gap + (before + rest);
    Pieced(buf, i + 1, j, off);
    Pieced(buf, i, i + 1, off);
  }

  lemma SkipBounds(buf: Bytes, i: nat) returns (j: nat)
    requires i <= |buf|
    ensures j == Skip(buf, i) && i <= j <= |buf| && (i < |buf| ==> j < |buf|)
  {
    j := Skip(buf, i);
  }

  /** The same items with other blanks in front. */
  lemma FirstBefore(slots: seq<Slot>, before: seq<White>) returns (all: seq<Slot>)
    requires slots != []
    ensures all != [] && all[0].before == before && SlotsText(all) == SlotsText(slots) && SlotValues(all) == SlotValues(slots)
  {
    hide DocText, DocValue;
    all := [slots[0].(before := before)] + slots[1..];
    assert all[1..] == slots[1..];
  }

  lemma {:induction false} ItemsAre(buf: Bytes, i: nat, depth: nat) returns (slots: seq<Slot>)
    requires i < |buf| && depth <= NESTING_LIMIT && ItemsAt(buf, i, depth).Some?
    ensures var p := ItemsAt(buf, i, depth).value;
            slots != [] && SlotValues(slots) == p.value && i + 1 <= p.off <= |buf|
            && slots[0].before + SlotsText(slots) == buf[i + 1..p.off]
    decreases NESTING_LIMIT - depth, |buf| - i, 0
  {
    hide ValueAt, Skip, DocText, DocValue, SlotsText, SlotValues;
    var before := BlanksAre(buf, i + 1);
    var s := SkipBounds(buf, i + 1);
    var doc := ValueIs(buf, s, depth);
    var e := ValueEnds(buf, s, depth);
    var after := BlanksAre(buf, e);
    var j := SkipBounds(buf, e);
    slots := [Slot(before, doc, after)];
    var off := j + 1;
    if Shows(buf, j, COMMA) {
      var rest := ItemsAre(buf, j, depth);
      off := ItemsAt(buf, j, depth).value.off;
      slots := slots + rest;
      assert slots[1..] == rest;
    }
    SlotsNested(slots);
    SlotsJoined(slots, buf, i + 1, s, e, j, off);
  }

  /** Items put together from where they were found. */
  lemma SlotsJoined(slots: seq<Slot>, buf: Bytes, a: nat, s: nat, e: nat, j: nat, off: nat)
    requires slots != [] && a <= s <= e <= j < off <= |buf| && slots[0].before == buf[a..s]
    requires DocText(slots[0].doc) == buf[s..e] && slots[0].after == buf[e..j]
    requires |slots| == 1 ==> buf[j] == CLOSE_ARRAY && off == j + 1
    requires |slots| > 1 ==> buf[j] == COMMA && slots[1].before + SlotsText(slots[1..]) == buf[j + 1..off]
    ensures slots[0].before + SlotsText(slots) == buf[a..off]
  {
    hide DocText, SlotsText;
    SlotsCons(slots);
    Spans(buf, a, s, e, j, off);
    assert buf[j + 1..j + 1] == [];
  }

  lemma ValueEnds(buf: Bytes, i: nat, depth: nat) returns (e: nat)
    requires i <= |buf| && depth <= NESTING_LIMIT && ValueAt(buf, i, depth).Some?
    ensures e == ValueAt(buf, i, depth).value.off && i < e <= |buf|
  {
    e := ValueAt(buf, i, depth).value.off;
  }

  lemma Spans(buf: Bytes, a: nat, b: nat, c: nat, d: nat, e: nat)
    requires a <= b <= c <= d < e <= |buf|
    ensures buf[a..e] == buf[a..b] + (buf[b..c] + (buf[c..d] + ([buf[d]] + buf[d + 1..e])))
  {
    Pieced(buf, a, b, e);
    Pieced(buf, b, c, e);
    Pieced(buf, c, d, e);
    Pieced(buf, d, d + 1, e);
    assert buf[d..d + 1] == [buf[d]];
  }

  lemma {:induction false} ObjectIs(buf: Bytes, i: nat, depth: nat) returns (doc: Doc)
    requires Shows(buf, i, OPEN_OBJECT) && depth <= NESTING_LIMIT && ObjectAt(buf, i, depth).Some?
    ensures var p := ObjectAt(buf, i, depth).value; DocText(doc) == buf[i..p.off] && DocValue(doc) == p.value
    decreases NESTING_LIMIT - depth, |buf| - i, 0
  {
    hide ObjectAt, MembersAt, EntriesText, EntryMembers, DocText, DocValue, Skip;
    var gap := BlanksAre(buf, i + 1);
    var j, off, entries := ObjectIn(buf, i, depth);
    if entries {
      var found := MembersAre(buf, j - 1, depth + 1);
      var all := FirstIndent(found, gap + found[0].before);
      doc := ObjDoc(all, []);
      ObjParts(all, []);
      OpenedSpan(buf, i, j, off, gap, found[0].before, EntriesText(found));
    } else {
      doc := ObjDoc([], gap);
      ObjParts([], gap);
      assert buf[i..j + 1] == [OPEN_OBJECT] + (buf[i + 1..j] + [CLOSE_OBJECT]);
    }
  }

  /** An object ends with its first token, or has members. */
  lemma ObjectIn(buf: Bytes, i: nat, depth: nat) returns (j: nat, off: nat, entries: bool)
    requires i < |buf| && depth <= NESTING_LIMIT && ObjectAt(buf, i, depth).Some?
    ensures j == Skip(buf, i + 1) && i < j < |buf| && off == ObjectAt(buf, i, depth).value.off <= |buf| && depth < NESTING_LIMIT
    ensures var v := ObjectAt(buf, i, depth).value.value;
            if entries then
              var p := MembersAt(buf, j - 1, depth + 1); p.Some? && v == Object(p.value.value) && off == p.value.off && j <= off
            else v == Object([]) && buf[j] == CLOSE_OBJECT && off == j + 1
  {
    hide MembersAt, Skip;
    j := SkipBounds(buf, i + 1);
    off := ObjectAt(buf, i, depth).value.off;
    entries := !Shows(buf, j, CLOSE_OBJECT);
    if entries { ItemsEnd(buf, j - 1, depth + 1); }
  }

  lemma FirstIndent(entries: seq<Entry>, before: seq<White>) returns (all: seq<Entry>)
    requires entries != []
    ensures all != [] && all[0].before == before && EntriesText(all) == EntriesText(entries)
    ensures EntryMembers(all) == EntryMembers(entries)
  {
    hide DocText, DocValue, StringText, StringValue;
    all := [entries[0].(before := before)] + entries[1..];
    assert all[1..] == entries[1..];
  }

  lemma {:induction false} MembersAre(buf: Bytes, i: nat, depth: nat) returns (entries: seq<Entry>)
    requires i < |buf| && depth <= NESTING_LIMIT && MembersAt(buf, i, depth).Some?
    ensures var p := MembersAt(buf, i, depth).value;
            entries != [] && EntryMembers(entries) == p.value && i + 1 <= p.off <= |buf|
            && entries[0].before + EntriesText(entries) == buf[i + 1..p.off]
    decreases NESTING_LIMIT - depth, |buf| - i, 0
  {
    hide ValueAt, StringAt, MembersAt, Skip, DocText, DocValue, StringText, StringValue, EntriesText, EntryMembers;
    var s, o, n, c, e, j := MemberHere(buf, i, depth);
    var before := BlanksAre(buf, i + 1);
    var name := StringIs(buf, s);
    var behind := BlanksAre(buf, o);
    var ahead := BlanksAre(buf, n + 1);
    var doc := ValueIs(buf, c, depth);
    var after := BlanksAre(buf, e);
    entries := [Entry(before, name, behind, ahead, doc, after)];
    if Shows(buf, j, COMMA) {
      var rest := MembersAre(buf, j, depth);
      entries := entries + rest;
      assert entries[1..] == rest;
    }
    EntriesNested(entries);
    EntriesJoined(entries, buf, i + 1, s, o, n, c, e, j, MembersAt(buf, i, depth).value.off);
  }

  /** Members put together from where they were found. */
  lemma EntriesJoined(entries: seq<Entry>, buf: Bytes, a: nat, s: nat, o: nat, n: nat, c: nat, e: nat, j: nat, off: nat)
    requires entries != [] && a <= s <= o <= n < c <= e <= j < off <= |buf| && buf[n] == COLON
    requires entries[0].before == buf[a..s] && StringText(entries[0].name) == buf[s..o] && entries[0].behind == buf[o..n]
    requires entries[0].ahead == buf[n + 1..c] && DocText(entries[0].doc) == buf[c..e] && entries[0].after == buf[e..j]
    requires |entries| == 1 ==> buf[j] == CLOSE_OBJECT && off == j + 1
    requires |entries| > 1 ==> buf[j] == COMMA && entries[1].before + EntriesText(entries[1..]) == buf[j + 1..off]
    ensures entries[0].before + EntriesText(entries) == buf[a..off]
  {
    hide DocText, StringText, EntriesText, EntryTail;
    EntriesCons(entries);
    TailJoined(entries, buf, e, j, off);
    MemberSpans(buf, a, s, o, n, c, e, off);
  }

  lemma TailJoined(entries: seq<Entry>, buf: Bytes, e: nat, j: nat, off: nat)
    requires entries != [] && e <= j < off <= |buf| && entries[0].after == buf[e..j]
    requires |entries| == 1 ==> buf[j] == CLOSE_OBJECT && off == j + 1
    requires |entries| > 1 ==> buf[j] == COMMA && entries[1].before + EntriesText(entries[1..]) == buf[j + 1..off]
    ensures EntryTail(entries) == buf[e..off]
  {
    hide EntriesText;
    Pieced(buf, e, j, off);
    Pieced(buf, j, j + 1, off);
    assert buf[j..j + 1] == [buf[j]];
  }

  /** Where the parts of a member end, and what comes of the ones behind it. */
  lemma MemberHere(buf: Bytes, i: nat, depth: nat) returns (s: nat, o: nat, n: nat, c: nat, e: nat, j: nat)
    requires i < |buf| && depth <= NESTING_LIMIT && MembersAt(buf, i, depth).Some?
    ensures s == Skip(buf, i + 1) && StringAt(buf, s).Some? && o == StringAt(buf, s).value.off <= |buf|
    ensures n == Skip(buf, o) && n < |buf| && buf[n] == COLON && c == Skip(buf, n + 1) && c <= |buf|
    ensures ValueAt(buf, c, depth).Some? && e == ValueAt(buf, c, depth).value.off <= |buf| && j == Skip(buf, e) < |buf|
    ensures i + 1 <= s < o <= n < c < e <= j
    ensures var p := MembersAt(buf, i, depth).value;
            var m := Member(StringAt(buf, s).value.value, ValueAt(buf, c, depth).value.value);
            if Shows(buf, j, COMMA) then
              var rest := MembersAt(buf, j, depth);
              rest.Some? && p.value == [m] + rest.value.value && p.off == rest.value.off && j < p.off <= |buf|
            else buf[j] == CLOSE_OBJECT && p.value == [m] && p.off == j + 1
  {
    hide ValueAt, StringAt, Skip;
    s := SkipBounds(buf, i + 1);
    o := StringEnds(buf, s);
    n := SkipBounds(buf, o);
    c := SkipBounds(buf, n + 1);
    e := ValueEnds(buf, c, depth);
    j := SkipBounds(buf, e);
  }

  lemma StringEnds(buf: Bytes, i: nat) returns (o: nat)
    requires StringAt(buf, i).Some?
    ensures o == StringAt(buf, i).value.off && i + 1 < o <= |buf|
  {
    o := StringAt(buf, i).value.off;
  }

  lemma MemberSpans(buf: Bytes, a: nat, s: nat, o: nat, n: nat, c: nat, e: nat, off: nat)
    requires a <= s <= o <= n < c <= e <= off <= |buf|
    ensures buf[a..off]
            == buf[a..s] + (buf[s..o] + (buf[o..n] + ([buf[n]] + (buf[n + 1..c] + (buf[c..e] + buf[e..off])))))
  {
    Pieced(buf, n + 1, c, off);
    Pieced(buf, c, e, off);
    Spans(buf, a, s, o, n, off);
  }

  /** Parsing a text to its end reads exactly the texts of the grammar, nested at most 1000 deep, as their values. */
  lemma ParsedExactly(text: Bytes, v: Json)
    ensures ParseText(text, true) == Some(v)
            <==> Nesting(v) <= 1000
                 && exists doc, mark, before, after :: WholeText(doc, mark, before, after) == text && DocValue(doc) == v
  {
    hide ParseText, WholeText, DocValue, Nesting;
    if ParseText(text, true) == Some(v) {
      ParsedShallow(text, true);
      var doc, mark, before, after := TextIs(text);
    }
    if doc, mark, before, after :| WholeText(doc, mark, before, after) == text && DocValue(doc) == v {
      TextRead(doc, mark, before, after, true);
    }
  }

  lemma {:induction false} SkipStops(buf: Bytes, i: nat)
    requires i <= |buf|
    ensures SkipAll(buf, i) < |buf| ==> buf[SkipAll(buf, i)] > 32
    decreases |buf| - i
  {
    if i < |buf| && buf[i] <= 32 { SkipStops(buf, i + 1); }
  }

  /** A zero byte that is not skipped is the last one. */
  lemma ZeroLast(buf: Bytes, e: nat)
    requires e < |buf| && Shows(buf, Skip(buf, e), 0)
    ensures Skip(buf, e) == |buf| - 1
  {
    SkipStops(buf, e);
  }

  lemma TextIs(text: Bytes) returns (doc: Doc, mark: bool, before: seq<White>, after: seq<White>)
    requires ParseText(text, true).Some?
    ensures WholeText(doc, mark, before, after) == text && ParseText(text, true) == Some(DocValue(doc))
  {
    hide ValueAt, Skip, DocText, DocValue;
    var buf := text + [0];
    var m := AfterBom(buf);
    mark := m == 3;
    assert mark ==> buf[..3] == MARK;
    before := BlanksAre(buf, m);
    var i := SkipBounds(buf, m);
    doc := ValueIs(buf, i, 0);
    var e := ValueEnds(buf, i, 0);
    var j := SkipBounds(buf, e);
    ZeroLast(buf, e);
    after := BlanksAre(buf, e);
    Pieced(buf, 0, m, j);
    Pieced(buf, m, i, j);
    Pieced(buf, i, e, j);
    assert text == buf[0..j] && buf[0..m] == if mark then MARK else [];
  }
}
