/** The parser as it runs: a buffer with a moving offset, output bytes written through an index (cJSON.c). */
module JsonParser {
  import opened Keys
  import opened JsonString
  import opened JsonText

  // ---- Room for unescaped bytes ------------------------------------------------------------

  function Trues(w: seq<bool>): nat {
    if w == [] then 0 else (if w[0] then 1 else 0) + Trues(w[1..])
  }

  lemma {:induction false} TruesAppend(a: seq<bool>, b: seq<bool>)
    ensures Trues(a + b) == Trues(a) + Trues(b)
  {
    if a == [] {
      assert a + b == b;
    } else {
      assert (a + b)[1..] == a[1..] + b;
      TruesAppend(a[1..], b);
    }
  }

  /** Input bytes that may each stand for an output byte: all but the backslashes counted as skipped. */
  predicate Spread(w: seq<bool>) {
    forall k :: 0 <= k < |w| && !w[k] ==> k + 1 < |w| && w[k+1]
  }

  lemma OneByte(w: seq<bool>, k: nat)
    requires k < |w|
    ensures Trues(w[k..]) == (if w[k] then 1 else 0) + Trues(w[k+1..])
  {
    assert w[k..][1..] == w[k+1..];
  }

  lemma TwoBytes(w: seq<bool>, k: nat)
    requires Spread(w) && k + 2 <= |w|
    ensures Trues(w[k..]) >= 1 + Trues(w[k+2..])
  {
    OneByte(w, k);
    OneByte(w, k + 1);
  }

  lemma LastByte(w: seq<bool>)
    requires Spread(w) && w != []
    ensures Trues(w[|w|-1..]) == 1
  {
    OneByte(w, |w| - 1);
  }

  lemma SixBytes(w: seq<bool>, k: nat)
    requires Spread(w) && k + 6 <= |w|
    ensures Trues(w[k..]) >= 3 + Trues(w[k+6..])
  {
    TwoBytes(w, k);
    TwoBytes(w, k + 2);
    TwoBytes(w, k + 4);
  }

  // ---- UTF-8 output ------------------------------------------------------------------------

  function Shifted(cp: nat, k: nat): nat { if k == 0 then cp else Shifted(cp / 64, k - 1) }

  lemma Utf8Bytes(cp: nat)
    requires cp <= 0x10FFFF
    ensures var s := Utf8(cp); var n := |s|;
            && (forall k :: 1 <= k < n ==> s[k] == 0x80 + Shifted(cp, n - 1 - k) % 64)
            && s[0] == FirstMark(n) + Shifted(cp, n - 1)
  {
    assert cp / 64 / 64 == cp / 4096 && cp / 64 / 64 / 64 == cp / 262144;
    ShiftedMore(cp, 0);
    ShiftedMore(cp, 1);
    ShiftedMore(cp, 2);
  }

  function FirstMark(n: nat): nat { if n == 2 then 0xC0 else if n == 3 then 0xE0 else if n == 4 then 0xF0 else 0 }

  lemma {:induction false} ShiftedMore(cp: nat, k: nat)
    ensures Shifted(cp, k) / 64 == Shifted(cp, k + 1)
  {
    if k > 0 { ShiftedMore(cp / 64, k - 1); }
  }

  /** Write the encoding of a code point, last byte first. */
  method WriteUtf8(output: array<byte>, at: nat, cp: nat) returns (length: nat)
    requires cp <= 0x10FFFF && at + |Utf8(cp)| <= output.Length
    modifies output
    ensures length == |Utf8(cp)|
    ensures output[..at] == old(output[..at]) && output[at..at + length] == Utf8(cp)
  {
    hide Utf8;
    length := if cp < 0x80 then 1 else if cp < 0x800 then 2 else if cp < 0x10000 then 3 else 4;
    assert length == |Utf8(cp)| by { Utf8Length(cp); }
    Utf8Bytes(cp);
    var rest := cp;
    var pos := length - 1;
    while pos > 0
      invariant 0 <= pos < length && rest == Shifted(cp, length - 1 - pos)
      invariant output[..at] == old(output[..at])
      invariant forall k :: pos < k < length ==> output[at + k] == Utf8(cp)[k]
    {
      output[at + pos] := 0x80 + rest % 64;
      ShiftedMore(cp, length - 1 - pos);
      rest := rest / 64;
      pos := pos - 1;
    }
    assert rest < 256 - FirstMark(length) by { assert Utf8(cp)[0] == FirstMark(length) + rest; }
    output[at] := FirstMark(length) + rest;
  }

  lemma Utf8Length(cp: nat)
    requires cp <= 0x10FFFF
    ensures |Utf8(cp)| == if cp < 0x80 then 1 else if cp < 0x800 then 2 else if cp < 0x10000 then 3 else 4
  {
  }

  /** Four hex digits, most significant first (parse_hex4). */
  method ParseHex4(s: Bytes) returns (h: nat)
    requires |s| == 4
    ensures h == Hex4(s)
  {
    hide HexDigit;
    h := 0;
    var i := 0;
    while i < 4
      invariant 0 <= i <= 4
      invariant forall k :: 0 <= k < i ==> HexDigit(s[k]).Some?
      invariant i == 1 ==> h == HexDigit(s[0]).value * 16
      invariant i == 2 ==> h == (HexDigit(s[0]).value * 16 + HexDigit(s[1]).value) * 16
      invariant i == 3 ==> h == ((HexDigit(s[0]).value * 16 + HexDigit(s[1]).value) * 16 + HexDigit(s[2]).value) * 16
      invariant i == 4 ==> h == Hex4(s)
      invariant i == 0 ==> h == 0
    {
      var d := HexDigit(s[i]);
      if d.None? {
        return 0;
      }
      h := h + d.value;
      if i < 3 {
        h := h * 16;
      }
      i := i + 1;
    }
  }

  // ---- The parse buffer --------------------------------------------------------------------

  class ParseBuffer {
    const content: Bytes
    var offset: nat
    var depth: nat

    /** The content is a C string with its terminating zero byte. */
    ghost predicate Valid()
      reads this
    {
      content != [] && content[|content|-1] == 0 && offset < |content| && depth <= NESTING_LIMIT
    }

    constructor (text: Bytes)
      ensures Valid() && content == text + [0] && offset == 0 && depth == 0
    {
      content, offset, depth := text + [0], 0, 0;
    }

    method SkipWhitespace()
      requires Valid()
      modifies this`offset
      ensures Valid() && offset == Skip(content, old(offset))
    {
      while offset < |content| && content[offset] <= 32
        invariant old(offset) <= offset <= |content|
        invariant SkipAll(content, old(offset)) == SkipAll(content, offset)
      {
        offset := offset + 1;
      }
      if offset == |content| {
        offset := offset - 1;
      }
    }

    /** First pass over a string literal: its end, and how many bytes its escapes save. */
    method MeasureString() returns (end: nat, skipped: nat, ghost w: seq<bool>)
      requires offset < |content|
      ensures match StringEnd(content, offset + 1)
              case None => end >= |content|
              case Some(e) =>
                && end == e < |content| && |w| == end - offset - 1 && Spread(w) && Trues(w) + skipped == |w|
                && (forall k :: 0 <= k < |w| && !w[k] ==> content[offset + 1 + k] == BACKSLASH)
    {
      end, skipped, w := offset + 1, 0, [];
      while end < |content| && content[end] != QUOTE
        invariant offset + 1 <= end <= |content|
        invariant StringEnd(content, offset + 1) == StringEnd(content, end)
        invariant |w| == end - offset - 1 && Spread(w) && Trues(w) + skipped == |w|
        invariant forall k :: 0 <= k < |w| && !w[k] ==> content[offset + 1 + k] == BACKSLASH
      {
        if content[end] == BACKSLASH {
          if end + 1 >= |content| {
            end := |content|;
            return;
          }
          TruesAppend(w, [false, true]);
          assert [false, true][1..] == [true] && [true][1..] == [];
          w := w + [false, true];
          skipped := skipped + 1;
          end := end + 1;
        } else {
          TruesAppend(w, [true]);
          assert [true][1..] == [];
          w := w + [true];
        }
        end := end + 1;
      }
    }

    /** Second pass: the unescaped bytes, written into an output sized from the first pass. */
    method UnescapeInto(end: nat, output: array<byte>, ghost w: seq<bool>) returns (ok: bool, n: nat)
      requires Valid() && offset < end < |content| - 1 && |w| == end - offset - 1 && Spread(w)
      requires forall k :: 0 <= k < |w| && !w[k] ==> content[offset + 1 + k] == BACKSLASH
      requires output.Length >= Trues(w) + 1
      modifies output
      ensures match Unescape(content, offset + 1, end)
              case None => !ok
              case Some(s) => ok && n < output.Length && output[..n] == s
    {
      hide Utf16Literal, Utf8, Unescaped, Unescape, Spread, Trues;
      ghost var start := offset + 1;
      ghost var whole := Unescape(content, start, end);
      var i := offset + 1;
      n, ok := 0, true;
      assert w[0..] == w && output[..0] == [];
      PrependNothing(whole);
      while i < end
        invariant start <= i <= end + 1 && n < output.Length
        invariant i <= end ==> n + Trues(w[i - start..]) <= Trues(w)
        invariant i > end ==> n <= Trues(w)
        invariant whole == Prepend(output[..n], Unescape(content, i, end))
      {
        ghost var before := output[..n];
        ghost var piece, here := [], i;
        Fits(content, start, end, w, i);
        UnescapeStep(content, i, end);
        if content[i] != BACKSLASH {
          output[n] := content[i];
          piece := [content[i]];
          i, n := i + 1, n + 1;
        } else if content[i+1] == LETTER_U {
          var literal := Utf16Literal(content, i, end);
          if literal.None? {
            return false, n;
          }
          var length := WriteUtf8(output, n, literal.value.cp);
          piece := Utf8(literal.value.cp);
          i, n := i + literal.value.len, n + length;
        } else {
          var c := Unescaped(content[i+1]);
          if c.None? {
            return false, n;
          }
          output[n] := c.value;
          piece := [c.value];
          i, n := i + 2, n + 1;
        }
        Chained(whole, before, piece, Unescape(content, here, end), Unescape(content, i, end));
        assert output[..n] == before + piece;
      }
      UnescapeEnd(content, i, end, output[..n]);
    }

    /** A string literal (parse_string): two passes over it, then a zero byte ends the output. */
    method ParseString() returns (ok: bool, s: Bytes)
      requires Valid()
      modifies this`offset
      ensures match StringAt(content, old(offset))
              case None => !ok
              case Some(p) => ok && s == p.value && offset == p.off && Valid()
    {
      hide Unescape, StringEnd, Spread;
      s := [];
      if content[offset] != QUOTE {
        return false, s;
      }
      ghost var w;
      var end, skipped;
      end, skipped, w := MeasureString();
      if end >= |content| {
        return false, s;
      }
      assert end < |content| - 1;
      var output := new byte[end - offset - skipped + 1];
      var n;
      ok, n := UnescapeInto(end, output, w);
      if !ok {
        return;
      }
      output[n] := 0;
      s := CString(output[..]);
      CStringStops(output[..], n);
      offset := end + 1;
    }

    /** A number (parse_number): its bytes are copied out and converted; the int next to it saturates. */
    method ParseNumber() returns (ok: bool, v: Json)
      requires Valid()
      modifies this`offset
      ensures match NumberAt(content, old(offset))
              case None => !ok
              case Some(p) => ok && v == p.value && offset == p.off && Valid()
    {
      hide IsNumberByte, NumberSpan, Converted;
      ghost var start := offset;
      var copied := new byte[64];
      var i := 0;
      while i < 63 && offset + i < |content| && IsNumberByte(content[offset + i])
        invariant offset == start && 0 <= i <= 63 && offset + i <= |content|
        invariant copied[..i] == content[offset..offset + i]
        invariant NumberSpan(content, offset, 63) == i + NumberSpan(content, offset + i, 63 - i)
      {
        SpanStep(content, offset + i, 63 - i);
        copied[i] := content[offset + i];
        assert copied[..i+1] == copied[..i] + [copied[i]];
        assert content[offset..offset + i + 1] == content[offset..offset + i] + [content[offset + i]];
        i := i + 1;
      }
      SpanStep(content, offset + i, 63 - i);
      SpanInside(content, offset, 63);
      var r := Converted(copied[..i]);
      if r.None? {
        return false, Null;
      }
      offset := offset + r.value.off;
      ok, v := true, Number(r.value.value);
    }

    /** A value (parse_value), by what it starts with. */
    method ParseValue() returns (ok: bool, v: Json)
      requires Valid()
      modifies this`offset, this`depth
      ensures match ValueAt(content, old(offset), old(depth))
              case None => !ok
              case Some(p) => ok && v == p.value && offset == p.off && depth == old(depth) && Valid()
      decreases NESTING_LIMIT - depth, |content| - offset, 1
    {
      hide StringAt, NumberAt, ArrayAt, ObjectAt;
      if ShowsText(content, offset, NULL_TEXT) {
        Inside(content, offset, NULL_TEXT);
        offset := offset + 4;
        return true, Null;
      }
      if ShowsText(content, offset, FALSE_TEXT) {
        Inside(content, offset, FALSE_TEXT);
        offset := offset + 5;
        return true, False;
      }
      if ShowsText(content, offset, TRUE_TEXT) {
        Inside(content, offset, TRUE_TEXT);
        offset := offset + 4;
        return true, True;
      }
      if content[offset] == QUOTE {
        var s;
        ok, s := ParseString();
        return ok, Text(s);
      }
      if content[offset] == MINUS || IsDigit(content[offset]) {
        ok, v := ParseNumber();
        return;
      }
      if content[offset] == OPEN_ARRAY {
        ok, v := ParseArray();
        return;
      }
      if content[offset] == OPEN_OBJECT {
        ok, v := ParseObject();
        return;
      }
      ok, v := false, Null;
    }

    /** An array (parse_array): values separated by commas. */
    method ParseArray() returns (ok: bool, v: Json)
      requires Valid() && content[offset] == OPEN_ARRAY
      modifies this`offset, this`depth
      ensures match ArrayAt(content, old(offset), old(depth))
              case None => !ok
              case Some(p) => ok && v == p.value && offset == p.off && depth == old(depth) && Valid()
      decreases NESTING_LIMIT - depth, |content| - offset, 0
    {
      hide ValueAt, Skip, ItemsAt, JoinedItems;
      v := Null;
      if depth >= NESTING_LIMIT {
        return false, v;
      }
      depth := depth + 1;
      offset := offset + 1;
      SkipWhitespace();
      var items: seq<Json> := [];
      if content[offset] != CLOSE_ARRAY {
        offset := offset - 1;
        ghost var start := offset;
        var more := true;
        JoinedNone(ItemsAt(content, offset, depth), None);
        while more
          invariant Valid() && start <= offset && depth == old(depth) + 1 && (more ==> offset + 1 < |content|)
          invariant more ==> ItemsAt(content, start, depth) == JoinedItems(items, ItemsAt(content, offset, depth))
          invariant !more ==> ItemsAt(content, start, depth)
                              == if content[offset] == CLOSE_ARRAY then Some(Parsed(items, offset + 1)) else None
          decreases |content| - offset, more
        {
          ItemsStep(content, offset, depth, items);
          offset := offset + 1;
          SkipWhitespace();
          var item;
          ok, item := ParseValue();
          if !ok {
            return false, v;
          }
          SkipWhitespace();
          more := content[offset] == COMMA;
          items := items + [item];
        }
        if content[offset] != CLOSE_ARRAY {
          return false, v;
        }
      }
      depth := depth - 1;
      offset := offset + 1;
      ok, v := true, Array(items);
    }

    /** One name and value, after the members read so far. */
    method ParseMember(ghost members: seq<Member>) returns (ok: bool, m: Member)
      requires Valid() && offset + 1 < |content|
      modifies this`offset, this`depth
      ensures var whole := JoinedMembers(members, MembersAt(content, old(offset), old(depth)));
              if ok then
                && Valid() && offset > old(offset) && depth == old(depth)
                && whole ==
                   if content[offset] == COMMA then JoinedMembers(members + [m], MembersAt(content, offset, depth))
                   else if content[offset] == CLOSE_OBJECT then Some(Parsed(members + [m], offset + 1)) else None
              else whole == None
      decreases NESTING_LIMIT - depth, |content| - offset, 0
    {
      hide ValueAt, Skip, MembersAt, StringAt, JoinedMembers;
      MembersStep(content, offset, depth, members);
      m := Member([], Null);
      offset := offset + 1;
      SkipWhitespace();
      var name, value;
      ok, name := ParseString();
      if !ok {
        return;
      }
      SkipWhitespace();
      if content[offset] != COLON {
        return false, m;
      }
      offset := offset + 1;
      SkipWhitespace();
      ok, value := ParseValue();
      if !ok {
        return;
      }
      SkipWhitespace();
      m := Member(name, value);
    }

    /** An object (parse_object): names and values separated by commas. */
    method ParseObject() returns (ok: bool, v: Json)
      requires Valid() && content[offset] == OPEN_OBJECT
      modifies this`offset, this`depth
      ensures match ObjectAt(content, old(offset), old(depth))
              case None => !ok
              case Some(p) => ok && v == p.value && offset == p.off && depth == old(depth) && Valid()
      decreases NESTING_LIMIT - depth, |content| - offset, 0
    {
      hide ValueAt, Skip, MembersAt, StringAt, JoinedMembers, ObjectAt, Shows;
      v := Null;
      ObjectCases(content, offset, depth);
      if depth >= NESTING_LIMIT {
        return false, v;
      }
      depth := depth + 1;
      offset := offset + 1;
      SkipWhitespace();
      var members: seq<Member> := [];
      if content[offset] != CLOSE_OBJECT {
        offset := offset - 1;
        ghost var start := offset;
        var more := true;
        JoinedNone(None, MembersAt(content, offset, depth));
        while more
          invariant Valid() && start <= offset && depth == old(depth) + 1 && (more ==> offset + 1 < |content|)
          invariant more ==> MembersAt(content, start, depth) == JoinedMembers(members, MembersAt(content, offset, depth))
          invariant !more ==> MembersAt(content, start, depth)
                              == if content[offset] == CLOSE_OBJECT then Some(Parsed(members, offset + 1)) else None
          decreases |content| - offset, more
        {
          var m;
          ok, m := ParseMember(members);
          if !ok {
            return false, v;
          }
          more := content[offset] == COMMA;
          members := members + [m];
        }
        if content[offset] != CLOSE_OBJECT {
          return false, v;
        }
      }
      depth := depth - 1;
      offset := offset + 1;
      ok, v := true, Object(members);
    }
  }

  lemma PrependNothing(r: Option<Bytes>)
    ensures r == Prepend([], r)
  {
    if r.Some? { assert [] + r.value == r.value; }
  }

  lemma UnescapeEnd(buf: Bytes, i: nat, end: nat, a: Bytes)
    requires end <= i && end < |buf|
    ensures Prepend(a, Unescape(buf, i, end)) == Some(a)
  {
    assert a + [] == a;
  }

  lemma UnescapeStep(buf: Bytes, i: nat, end: nat)
    requires i < end < |buf|
    ensures if buf[i] != BACKSLASH then Unescape(buf, i, end) == Prepend([buf[i]], Unescape(buf, i + 1, end))
            else if buf[i+1] == LETTER_U then
              match Utf16Literal(buf, i, end)
              case None => Unescape(buf, i, end) == None
              case Some(l) => Unescape(buf, i, end) == Prepend(Utf8(l.cp), Unescape(buf, i + l.len, end))
            else
              match Unescaped(buf[i+1])
              case None => Unescape(buf, i, end) == None
              case Some(c) => Unescape(buf, i, end) == Prepend([c], Unescape(buf, i + 2, end))
  {
    hide Utf16Literal, Utf8, Unescaped;
  }

  lemma Chained(whole: Option<Bytes>, a: Bytes, b: Bytes, rest: Option<Bytes>, next: Option<Bytes>)
    requires whole == Prepend(a, rest) && rest == Prepend(b, next)
    ensures whole == Prepend(a + b, next)
  {
    if next.Some? { assert (a + b) + next.value == a + (b + next.value); }
  }

  /** What one unit of input at `i` adds to the output never exceeds what is left of the estimate. */
  lemma Fits(content: Bytes, start: nat, end: nat, w: seq<bool>, i: nat)
    requires start <= i < end < |content| && |w| == end - start && Spread(w)
    requires forall k :: 0 <= k < |w| && !w[k] ==> content[start + k] == BACKSLASH
    ensures var k := i - start; var room := Trues(w[k..]);
            && (content[i] != BACKSLASH ==> room >= 1 + Trues(w[k+1..]))
            && room >= 1 && (k + 2 <= |w| ==> room >= 1 + Trues(w[k+2..]))
            && (match Utf16Literal(content, i, end)
                case None => true
                case Some(l) => k + l.len <= |w| && room >= |Utf8(l.cp)| + Trues(w[k + l.len..]))
  {
    hide Hex4;
    var k := i - start;
    OneByte(w, k);
    if k + 2 <= |w| { TwoBytes(w, k); } else { LastByte(w); }
    if k + 6 <= |w| { SixBytes(w, k); }
    if k + 12 <= |w| { SixBytes(w, k + 6); }
    LiteralSize(content, i, end);
  }

  /** A single unit takes three bytes at most, a pair takes four. */
  lemma LiteralSize(buf: Bytes, i: nat, end: nat)
    requires i <= end <= |buf|
    ensures match Utf16Literal(buf, i, end)
            case None => true
            case Some(l) => |Utf8(l.cp)| <= if l.len == 6 then 3 else 4
  {
    hide Utf8;
    match Utf16Literal(buf, i, end)
    case None =>
    case Some(l) => Utf8Length(l.cp);
  }

  lemma SpanStep(buf: Bytes, i: nat, room: nat)
    requires i <= |buf|
    ensures NumberSpan(buf, i, room)
            == if room > 0 && i < |buf| && IsNumberByte(buf[i]) then 1 + NumberSpan(buf, i + 1, room - 1) else 0
  {
  }

  lemma {:induction false} SpanInside(buf: Bytes, i: nat, room: nat)
    requires i < |buf| && buf[|buf|-1] == 0
    ensures i + NumberSpan(buf, i, room) < |buf|
    decreases room
  {
    if room > 0 && i + 1 < |buf| { SpanInside(buf, i + 1, room - 1); }
  }

  lemma {:induction false} CStringStops(s: Bytes, n: nat)
    requires n < |s| && s[n] == 0
    ensures CString(s) == CString(s[..n])
  {
    if n > 0 && s[0] != 0 {
      assert s[1..][..n-1] == s[..n][1..];
      CStringStops(s[1..], n - 1);
    }
  }

  /** A word does not reach the terminating zero byte. */
  lemma Inside(buf: Bytes, i: nat, text: Bytes)
    requires ShowsText(buf, i, text) && buf != [] && buf[|buf|-1] == 0 && text != [] && text[|text|-1] != 0
    ensures i + |text| < |buf|
  {
    assert buf[i..i + |text|][|text|-1] == buf[i + |text| - 1];
  }

  function JoinedItems(items: seq<Json>, r: Option<Parsed<seq<Json>>>): Option<Parsed<seq<Json>>> {
    if r.Some? then Some(Parsed(items + r.value.value, r.value.off)) else None
  }

  function JoinedMembers(members: seq<Member>, r: Option<Parsed<seq<Member>>>): Option<Parsed<seq<Member>>> {
    if r.Some? then Some(Parsed(members + r.value.value, r.value.off)) else None
  }

  lemma JoinedNone(r: Option<Parsed<seq<Json>>>, q: Option<Parsed<seq<Member>>>)
    ensures JoinedItems([], r) == r && JoinedMembers([], q) == q
  {
    if r.Some? { assert [] + r.value.value == r.value.value; }
    if q.Some? { assert [] + q.value.value == q.value.value; }
  }

  /** Reading one more item after `items`. */
  lemma ItemsStep(buf: Bytes, i: nat, depth: nat, items: seq<Json>)
    requires i < |buf| && depth <= NESTING_LIMIT
    ensures match ValueAt(buf, Skip(buf, i + 1), depth)
            case None => JoinedItems(items, ItemsAt(buf, i, depth)) == None
            case Some(p) =>
              var j := Skip(buf, p.off);
              JoinedItems(items, ItemsAt(buf, i, depth)) ==
              if Shows(buf, j, COMMA) then JoinedItems(items + [p.value], ItemsAt(buf, j, depth))
              else if Shows(buf, j, CLOSE_ARRAY) then Some(Parsed(items + [p.value], j + 1)) else None
  {
    hide ValueAt, Skip;
    var p := ValueAt(buf, Skip(buf, i + 1), depth);
    if p.Some? {
      var j := Skip(buf, p.value.off);
      if Shows(buf, j, COMMA) {
        var r := ItemsAt(buf, j, depth);
        if r.Some? { assert items + ([p.value.value] + r.value.value) == items + [p.value.value] + r.value.value; }
      }
    }
  }

  lemma ObjectCases(buf: Bytes, i: nat, depth: nat)
    requires i + 1 < |buf| && depth <= NESTING_LIMIT
    ensures if depth == NESTING_LIMIT then ObjectAt(buf, i, depth) == None
            else
              var j := Skip(buf, i + 1);
              if buf[j] == CLOSE_OBJECT then ObjectAt(buf, i, depth) == Some(Parsed(Object([]), j + 1))
              else match MembersAt(buf, j - 1, depth + 1)
                   case None => ObjectAt(buf, i, depth) == None
                   case Some(p) => ObjectAt(buf, i, depth) == Some(Parsed(Object(p.value), p.off))
  {
    hide Skip, MembersAt;
  }

  /** Reading one more member after `members`. */
  lemma MembersStep(buf: Bytes, i: nat, depth: nat, members: seq<Member>)
    requires i < |buf| && depth <= NESTING_LIMIT
    ensures var whole := JoinedMembers(members, MembersAt(buf, i, depth));
            match StringAt(buf, Skip(buf, i + 1))
            case None => whole == None
            case Some(name) =>
              var c := Skip(buf, name.off);
              if !(c < |buf| && buf[c] == COLON) then whole == None
              else
                match ValueAt(buf, Skip(buf, c + 1), depth)
                case None => whole == None
                case Some(p) =>
                  var j := Skip(buf, p.off);
                  var m := Member(name.value, p.value);
                  whole ==
                  if j < |buf| && buf[j] == COMMA then JoinedMembers(members + [m], MembersAt(buf, j, depth))
                  else if j < |buf| && buf[j] == CLOSE_OBJECT then Some(Parsed(members + [m], j + 1)) else None
  {
    hide ValueAt, Skip, StringAt;
    var name := StringAt(buf, Skip(buf, i + 1));
    if name.Some? && Shows(buf, Skip(buf, name.value.off), COLON) {
      var p := ValueAt(buf, Skip(buf, Skip(buf, name.value.off) + 1), depth);
      if p.Some? {
        var j := Skip(buf, p.value.off);
        var m := Member(name.value.value, p.value.value);
        if Shows(buf, j, COMMA) {
          var r := MembersAt(buf, j, depth);
          if r.Some? { assert members + ([m] + r.value.value) == members + [m] + r.value.value; }
        }
      }
    }
  }

  /** Parse a C string (cJSON_ParseWithOpts). */
  method Parse(text: Bytes, whole: bool) returns (r: Option<Json>)
    ensures r == ParseText(text, whole)
  {
    var b := new ParseBuffer(text);
    b.offset := AfterBom(b.content);
    b.SkipWhitespace();
    var ok, v := b.ParseValue();
    if !ok {
      return None;
    }
    if whole {
      b.SkipWhitespace();
      if b.content[b.offset] != 0 {
        return None;
      }
    }
    r := Some(v);
  }
}
