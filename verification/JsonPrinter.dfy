/** The printer as it runs: text written through an index into a buffer that grows on demand (cJSON.c). */
module JsonPrinter {
  import opened Keys
  import opened JsonString
  import opened JsonText

  // ---- Printed text holds no zero byte ------------------------------------------------------

  lemma {:induction false} DigitsNoZero(n: nat)
    ensures 0 !in Digits(n)
  {
    if n >= 10 { DigitsNoZero(n / 10); }
  }

  lemma {:induction false} EscapeNoZero(s: Bytes)
    requires 0 !in s
    ensures 0 !in Escape(s)
  {
    if s != [] { EscapeNoZero(s[1..]); }
  }

  lemma QuotedNoZero(s: Bytes)
    requires 0 !in s
    ensures 0 !in Quoted(s)
  {
    EscapeNoZero(s);
  }

  lemma {:induction false} PrintedNoZero(v: Json, format: bool, d: nat)
    requires Plain(v)
    ensures 0 !in Printed(v, format, d)
    decreases v, 0
  {
    match v
    case Number(r) => DigitsNoZero(if r.Floor < 0 then -r.Floor else r.Floor);
    case Text(s) => QuotedNoZero(s);
    case Array(items) => ItemsNoZero(items, format, d + 1);
    case Object(members) => MembersNoZero(members, format, d + 1);
    case _ =>
  }

  lemma {:induction false} ItemsNoZero(items: seq<Json>, format: bool, d: nat)
    requires PlainItems(items)
    ensures 0 !in PrintedItems(items, format, d)
    decreases items, 1
  {
    hide Plain, Printed;
    if items != [] {
      PrintedNoZero(items[0], format, d);
      ItemsNoZero(items[1..], format, d);
    }
  }

  lemma FixedNoZero(format: bool, d: nat, last: bool)
    ensures 0 !in Indent(format, d) && 0 !in ColonText(format) && 0 !in MemberEnd(format, last)
  {
  }

  lemma {:induction false} MembersNoZero(members: seq<Member>, format: bool, d: nat)
    requires PlainMembers(members)
    ensures 0 !in PrintedMembers(members, format, d)
    decreases members, 1
  {
    hide Plain, Printed, Quoted, Indent, MemberEnd, ColonText;
    if members != [] {
      FixedNoZero(format, d, |members| == 1);
      QuotedNoZero(members[0].name);
      PrintedNoZero(members[0].value, format, d);
      MembersNoZero(members[1..], format, d);
    }
  }

  lemma {:induction false} PlainItem(items: seq<Json>, k: nat)
    requires PlainItems(items) && k < |items|
    ensures Plain(items[k])
  {
    if k > 0 { PlainItem(items[1..], k - 1); }
  }

  lemma {:induction false} PlainMember(members: seq<Member>, k: nat)
    requires PlainMembers(members) && k < |members|
    ensures 0 !in members[k].name && Plain(members[k].value)
  {
    if k > 0 { PlainMember(members[1..], k - 1); }
  }

  // ---- The print buffer --------------------------------------------------------------------

  class PrintBuffer {
    var buffer: array<byte>
    var offset: nat
    var depth: nat
    const noalloc: bool
    const format: bool

    ghost predicate Valid()
      reads this
    {
      buffer.Length <= INT_MAX && (offset < buffer.Length || (offset == 0 && buffer.Length == 0))
    }

    /** The largest size the buffer can have. */
    ghost function Limit(): nat
      reads this`buffer
    {
      if noalloc then buffer.Length else INT_MAX
    }

    /** After what was there, `text` and a zero byte have been written; the offset is still on them. */
    ghost predicate Wrote(low: Bytes, text: Bytes)
      reads this, buffer
    {
      var end := |low| + |text|;
      end < buffer.Length && buffer[..end] == low + text && buffer[end] == 0 && |low| <= offset <= end
    }

    constructor (size: nat, noalloc: bool, format: bool)
      requires size <= INT_MAX
      ensures Valid() && offset == 0 && depth == 0 && fresh(buffer) && buffer.Length == size
      ensures this.noalloc == noalloc && this.format == format
    {
      buffer := new byte[size];
      offset, depth := 0, 0;
      this.noalloc, this.format := noalloc, format;
    }

    /** Make room for `needed` more bytes and a zero byte, doubling the buffer (ensure). */
    method Ensure(needed: nat) returns (ok: bool)
      requires Valid()
      modifies this`buffer
      ensures Valid() && (buffer == old(buffer) || fresh(buffer)) && Limit() == old(Limit())
      ensures offset <= buffer.Length && buffer[..offset] == old(buffer[..offset])
      ensures ok <==> offset + needed + 1 <= old(Limit())
      ensures ok ==> offset + needed + 1 <= buffer.Length
    {
      if needed > INT_MAX {
        return false;
      }
      var total := needed + offset + 1;
      if total <= buffer.Length {
        return true;
      }
      if noalloc || total > INT_MAX {
        return false;
      }
      var grown := new byte[if total > INT_MAX / 2 then INT_MAX else total * 2];
      forall i | 0 <= i < buffer.Length {
        grown[i] := buffer[i];
      }
      buffer := grown;
      ok := true;
    }

    /** Move the offset to the zero byte that ends the text (update_offset). */
    method UpdateOffset(ghost end: nat)
      requires offset <= end < buffer.Length <= INT_MAX && buffer[end] == 0
      requires forall k :: offset <= k < end ==> buffer[k] != 0
      modifies this`offset
      ensures offset == end && Valid()
    {
      var length := 0;
      while buffer[offset + length] != 0
        invariant offset == old(offset) && offset + length <= end
        decreases end - length
      {
        length := length + 1;
      }
      offset := offset + length;
    }

    /** Copy bytes to a position of the buffer. */
    method Copy(at: nat, text: Bytes)
      requires at + |text| <= buffer.Length
      modifies buffer
      ensures buffer[..at] == old(buffer[..at]) && buffer[at..at + |text|] == text
      ensures buffer[at + |text|..] == old(buffer[at + |text|..])
    {
      ghost var b := buffer;
      var i := 0;
      while i < |text|
        invariant 0 <= i <= |text| && buffer == b
        invariant forall k :: 0 <= k < i ==> buffer[at + k] == text[k]
        invariant buffer[..at] == old(buffer[..at]) && buffer[at + |text|..] == old(buffer[at + |text|..])
      {
        buffer[at + i] := text[i];
        i := i + 1;
      }
    }

    /** null, false and true. */
    method PrintWord(text: Bytes) returns (ok: bool)
      requires Valid()
      modifies this`buffer, buffer
      ensures Valid() && (buffer == old(buffer) || fresh(buffer)) && Limit() == old(Limit())
      ensures ok <==> old(offset) + |text| + 2 <= old(Limit())
      ensures ok ==> Wrote(old(buffer[..offset]), text)
    {
      ok := Ensure(|text| + 1);
      if ok {
        ghost var low := buffer[..offset];
        Copy(offset, text + [0]);
        Placed(buffer[..], low, text);
      }
    }

    /** An integer in decimal (print_number); the offset moves on. */
    method PrintNumber(r: real) returns (ok: bool)
      requires Valid() && IsWhole(r)
      modifies this`buffer, this`offset, buffer
      ensures Valid() && (buffer == old(buffer) || fresh(buffer)) && Limit() == old(Limit())
      ensures ok <==> old(offset) + |Decimal(r.Floor)| + 2 <= old(Limit())
      ensures ok ==> Wrote(old(buffer[..offset]), Decimal(r.Floor))
    {
      // "%d" when the int beside the value equals it, "%1.15g" otherwise
      var digits := if r == ValueInt(r) as real then Decimal(ValueInt(r)) else Decimal(r.Floor);
      ok := PrintWord(digits);
      if ok {
        offset := offset + |digits|;
      }
    }

    /** A string between quotes (print_string_ptr): one pass to count the escapes, one to write. */
    method PrintString(s: Bytes) returns (ok: bool)
      requires Valid()
      modifies this`buffer, buffer
      ensures Valid() && (buffer == old(buffer) || fresh(buffer)) && Limit() == old(Limit())
      ensures ok <==> old(offset) + |Quoted(s)| + 2 <= old(Limit())
      ensures ok ==> Wrote(old(buffer[..offset]), Quoted(s))
    {
      hide Escape, ExtraByte, Extra;
      var extra := CountExtra(s);
      EscapedLength(s);
      ok := Ensure(|s| + extra + 3);
      if ok {
        ghost var low := buffer[..offset];
        WriteQuoted(offset, s, extra);
        assert buffer[..offset + |Quoted(s)|] == low + buffer[offset..offset + |Quoted(s)|];
      }
    }

    /** The quotes, the bytes between them and a zero byte; nothing is rewritten when nothing needs an escape. */
    method WriteQuoted(at: nat, s: Bytes, extra: nat)
      requires extra == Extra(s) && at + |s| + extra + 3 <= buffer.Length
      modifies buffer
      ensures buffer[..at] == old(buffer[..at])
      ensures |Quoted(s)| == |s| + extra + 2
      ensures buffer[at..at + |Quoted(s)|] == Quoted(s) && buffer[at + |Quoted(s)|] == 0
    {
      hide Escape, ExtraByte, Extra;
      EscapedLength(s);
      ghost var b := buffer;
      var end := at + |s| + extra + 1;
      buffer[at] := QUOTE;
      ghost var low := buffer[..at + 1];
      if extra == 0 {
        NothingToEscape(s);
        Copy(at + 1, s);
      } else {
        WriteEscaped(at + 1, s);
      }
      ghost var body := buffer[at + 1..end];
      assert body == Escape(s) && buffer[..at + 1] == low;
      buffer[end], buffer[end + 1] := QUOTE, 0;
      assert buffer[..at + 1] == low && buffer[at + 1..end] == body;
      QuotedSlices(buffer[..], at, end, Escape(s), low);
      assert buffer[..][at..end + 1] == buffer[at..end + 1];
      assert buffer[..at] == low[..at];
    }

    /** One byte, escaped where it must be. */
    method WriteEscape(out: nat, c: byte)
      requires out + |EscapeByte(c)| <= buffer.Length
      modifies buffer
      ensures buffer[..out] == old(buffer[..out]) && buffer[out..out + |EscapeByte(c)|] == EscapeByte(c)
    {
      if c > 31 && c != QUOTE && c != BACKSLASH {
        buffer[out] := c;
      } else {
        buffer[out] := BACKSLASH;
        if c == QUOTE || c == BACKSLASH {
          buffer[out+1] := c;
        } else if c == 8 {
          buffer[out+1] := 98;
        } else if c == 12 {
          buffer[out+1] := 102;
        } else if c == 10 {
          buffer[out+1] := 110;
        } else if c == 13 {
          buffer[out+1] := 114;
        } else if c == 9 {
          buffer[out+1] := 116;
        } else {
          buffer[out+1], buffer[out+2], buffer[out+3] := LETTER_U, 48, 48;
          buffer[out+4], buffer[out+5] := HexLetter(c / 16), HexLetter(c % 16);
        }
      }
    }

    /** The escaped bytes of `s`, from position `at` on. */
    method WriteEscaped(at: nat, s: Bytes)
      requires at + |Escape(s)| <= buffer.Length
      modifies buffer
      ensures buffer[..at] == old(buffer[..at]) && buffer[at..at + |Escape(s)|] == Escape(s)
    {
      hide Escape, EscapeByte;
      ghost var b := buffer;
      var k, out := 0, at;
      EscapeEmpty();
      while k < |s|
        invariant 0 <= k <= |s| && buffer == b && at <= out && out + |Escape(s[k..])| == at + |Escape(s)|
        invariant buffer[..at] == old(buffer[..at]) && Escape(s) == buffer[at..out] + Escape(s[k..])
      {
        EscapeFirst(s, k);
        ghost var before := buffer[..out];
        WriteEscape(out, s[k]);
        var next := out + |EscapeByte(s[k])|;
        Extended(buffer[..], before, at, out, next, EscapeByte(s[k]));
        Regrouped(before[at..], EscapeByte(s[k]), Escape(s[k+1..]));
        out := next;
        k := k + 1;
      }
      assert Escape(s[k..]) == [] && buffer[at..out] + [] == buffer[at..out];
    }

    /** Print a value and step over it. */
    method PrintAndStep(v: Json) returns (ok: bool)
      requires Valid() && Plain(v)
      modifies this, buffer
      ensures Valid() && (buffer == old(buffer) || fresh(buffer)) && Limit() == old(Limit())
      ensures ok <==> old(offset) + |Printed(v, format, old(depth))| + 2 <= old(Limit())
      ensures ok ==> depth == old(depth) && offset == old(offset) + |Printed(v, format, depth)|
      ensures ok ==> old(offset) <= buffer.Length && buffer[..offset] == old(buffer[..offset]) + Printed(v, format, depth)
      decreases v, 1
    {
      hide Printed, Plain;
      ok := PrintValue(v);
      if ok {
        ghost var low, text := old(buffer[..offset]), Printed(v, format, depth);
        PrintedNoZero(v, format, depth);
        NoZeroFrom(buffer[..|low| + |text|], low, text, offset);
        UpdateOffset(|low| + |text|);
      }
    }

    /** A value (print_value): its text and a zero byte, or nothing when the buffer cannot grow so far. */
    method PrintValue(v: Json) returns (ok: bool)
      requires Valid() && Plain(v)
      modifies this, buffer
      ensures Valid() && (buffer == old(buffer) || fresh(buffer)) && Limit() == old(Limit())
      ensures ok <==> old(offset) + |Printed(v, format, old(depth))| + 2 <= old(Limit())
      ensures ok ==> depth == old(depth) && Wrote(old(buffer[..offset]), Printed(v, format, depth))
      decreases v, 0
    {
      hide Quoted, Decimal;
      PrintedParts(v, format, depth);
      match v
      case Null => ok := PrintWord(NULL_TEXT);
      case False => ok := PrintWord(FALSE_TEXT);
      case True => ok := PrintWord(TRUE_TEXT);
      case Number(r) => ok := PrintNumber(r);
      case Text(s) => ok := PrintString(s);
      case Array(items) => ok := PrintArray(items);
      case Object(members) => ok := PrintObject(members);
    }

    /** Fixed bytes that are stepped over at once. */
    method Append(text: Bytes, needed: nat) returns (ok: bool)
      requires Valid() && |text| <= needed <= |text| + 1
      modifies this`buffer, this`offset, buffer
      ensures Valid() && (buffer == old(buffer) || fresh(buffer)) && Limit() == old(Limit())
      ensures ok <==> old(offset) + needed + 1 <= old(Limit())
      ensures ok ==> offset == old(offset) + |text| && buffer[..offset] == old(buffer[..offset]) + text
    {
      ok := Ensure(needed);
      if ok {
        ghost var o := offset;
        Copy(offset, text);
        assert buffer[..o + |text|] == buffer[..o] + buffer[o..o + |text|];
        offset := offset + |text|;
      }
    }

    /** One item of an array, and the separator when another one follows. */
    method PrintItem(items: seq<Json>, k: nat) returns (ok: bool)
      requires Valid() && PlainItems(items) && k < |items|
      modifies this, buffer
      ensures Valid() && (buffer == old(buffer) || fresh(buffer)) && Limit() == old(Limit())
      ensures !ok ==> old(offset) + |PrintedItems(items[k..], format, old(depth))| + 3 > old(Limit())
      ensures ok ==> depth == old(depth) && old(offset) <= offset <= buffer.Length
      ensures ok ==> buffer[..offset] + PrintedItems(items[k+1..], format, depth)
                     == old(buffer[..offset]) + PrintedItems(items[k..], format, depth)
      decreases items, 1
    {
      hide Printed, PrintedItems, Plain, PlainItems, Separator;
      ghost var before := buffer[..offset];
      ItemsFrom(items, k, format, depth);
      PlainItem(items, k);
      ok := PrintAndStep(items[k]);
      if ok && k + 1 < |items| {
        ok := Append(Separator(format), if format then 3 else 2);
      }
      ItemSums(before, items, k, format, old(depth));
    }

    /** The items of an array, one after the other. */
    method PrintItems(items: seq<Json>) returns (ok: bool)
      requires Valid() && PlainItems(items)
      modifies this, buffer
      ensures Valid() && (buffer == old(buffer) || fresh(buffer)) && Limit() == old(Limit())
      ensures !ok ==> old(offset) + |PrintedItems(items, format, old(depth))| + 3 > old(Limit())
      ensures ok ==> depth == old(depth) && old(offset) <= offset <= buffer.Length
      ensures ok ==> buffer[..offset] == old(buffer[..offset]) + PrintedItems(items, format, depth)
      decreases items, 2
    {
      hide Printed, PrintedItems, Plain, PlainItems;
      ghost var whole := buffer[..offset] + PrintedItems(items, format, depth);
      var k := 0;
      ok := true;
      assert items[0..] == items;
      while k < |items|
        invariant 0 <= k <= |items| && Valid() && (buffer == old(buffer) || fresh(buffer)) && Limit() == old(Limit())
        invariant depth == old(depth) && old(offset) <= offset <= buffer.Length
        invariant buffer[..offset] + PrintedItems(items[k..], format, depth) == whole
      {
        ok := PrintItem(items, k);
        if !ok {
          return;
        }
        k := k + 1;
      }
      ItemsNone(items, k, format, depth, buffer[..offset]);
    }

    /** The members of an object, one after the other. */
    method PrintMembers(members: seq<Member>) returns (ok: bool)
      requires Valid() && PlainMembers(members) && depth > 0
      modifies this, buffer
      ensures Valid() && (buffer == old(buffer) || fresh(buffer)) && Limit() == old(Limit())
      ensures !ok ==> old(offset) + |PrintedMembers(members, format, old(depth))| + 3 > old(Limit())
      ensures ok ==> depth == old(depth) && old(offset) <= offset <= buffer.Length
      ensures ok ==> buffer[..offset] == old(buffer[..offset]) + PrintedMembers(members, format, depth)
      decreases members, 2
    {
      hide Printed, PrintedMembers, Plain, PlainMembers;
      ghost var whole := buffer[..offset] + PrintedMembers(members, format, depth);
      var k := 0;
      ok := true;
      assert members[0..] == members;
      while k < |members|
        invariant 0 <= k <= |members| && Valid() && (buffer == old(buffer) || fresh(buffer)) && Limit() == old(Limit())
        invariant depth == old(depth) && old(offset) <= offset <= buffer.Length
        invariant buffer[..offset] + PrintedMembers(members[k..], format, depth) == whole
      {
        ok := PrintMember(members, k);
        if !ok {
          return;
        }
        k := k + 1;
      }
      MembersNone(members, k, format, depth, buffer[..offset]);
    }

    /** The closing byte, after its indentation, and a zero byte. */
    method Finish(indent: Bytes, last: byte) returns (ok: bool)
      requires Valid()
      modifies this`buffer, buffer
      ensures Valid() && (buffer == old(buffer) || fresh(buffer)) && Limit() == old(Limit())
      ensures ok <==> offset + |indent| + 3 <= old(Limit())
      ensures ok ==> var end := offset + |indent| + 1;
                     end < buffer.Length && buffer[end] == 0 && buffer[..end] == old(buffer[..offset]) + (indent + [last])
    {
      ok := Ensure(|indent| + 2);
      if ok {
        var end := offset + |indent|;
        Copy(offset, indent);
        ghost var all := buffer[..end];
        assert all == buffer[..offset] + buffer[offset..end];
        buffer[end], buffer[end + 1] := last, 0;
        assert buffer[..end + 1] == all + [last];
      }
    }

    /** An array (print_array). */
    method PrintArray(items: seq<Json>) returns (ok: bool)
      requires Valid() && PlainItems(items)
      modifies this, buffer
      ensures Valid() && (buffer == old(buffer) || fresh(buffer)) && Limit() == old(Limit())
      ensures ok <==> old(offset) + |ArrayText(items, format, old(depth))| + 2 <= old(Limit())
      ensures ok ==> depth == old(depth) && Wrote(old(buffer[..offset]), ArrayText(items, format, depth))
      decreases items, 3
    {
      hide Printed, PrintedItems, Plain, PlainItems, Limit;
      ghost var low, text, limit := buffer[..offset], ArrayText(items, format, depth), Limit();
      ok := Append([OPEN_ARRAY], 1);
      if !ok {
        return;
      }
      depth := depth + 1;
      ok := PrintItems(items);
      if !ok {
        return;
      }
      Closed(low, [OPEN_ARRAY], PrintedItems(items, format, depth), [CLOSE_ARRAY]);
      ok := Finish([], CLOSE_ARRAY);
      if ok {
        depth := depth - 1;
        assert [] + [CLOSE_ARRAY] == [CLOSE_ARRAY];
      }
    }

    /** One member of an object: indentation, name, colon, value, comma and newline. */
    method PrintMember(members: seq<Member>, k: nat) returns (ok: bool)
      requires Valid() && PlainMembers(members) && k < |members| && depth > 0
      modifies this, buffer
      ensures Valid() && (buffer == old(buffer) || fresh(buffer)) && Limit() == old(Limit())
      ensures !ok ==> old(offset) + |PrintedMembers(members[k..], format, old(depth))| + 3 > old(Limit())
      ensures ok ==> depth == old(depth) && old(offset) <= offset <= buffer.Length
      ensures ok ==> buffer[..offset] + PrintedMembers(members[k+1..], format, depth)
                     == old(buffer[..offset]) + PrintedMembers(members[k..], format, depth)
      decreases members, 1
    {
      hide Printed, PrintedMembers, Plain, PlainMembers, ColonText, MemberEnd, Quoted, Tabs;
      ghost var before := buffer[..offset];
      PlainMember(members, k);
      MembersFrom(members, k, format, depth, before);
      ok := true;
      if format {
        ok := Append(Tabs(depth), depth);
      }
      if !ok {
        return;
      }
      ok := PrintName(members[k].name);
      if !ok {
        return;
      }
      ok := Append(ColonText(format), if format then 2 else 1);
      if !ok {
        return;
      }
      ok := PrintAndStep(members[k].value);
      if !ok {
        return;
      }
      var end := MemberEnd(format, k + 1 == |members|);
      ok := Append(end, |end| + 1);
    }

    /** A name between quotes, stepped over. */
    method PrintName(s: Bytes) returns (ok: bool)
      requires Valid() && 0 !in s
      modifies this`buffer, this`offset, buffer
      ensures Valid() && (buffer == old(buffer) || fresh(buffer)) && Limit() == old(Limit())
      ensures ok <==> old(offset) + |Quoted(s)| + 2 <= old(Limit())
      ensures ok ==> offset == old(offset) + |Quoted(s)| <= buffer.Length && buffer[..offset] == old(buffer[..offset]) + Quoted(s)
    {
      hide Quoted;
      ok := PrintString(s);
      if ok {
        ghost var low, text := old(buffer[..offset]), Quoted(s);
        QuotedNoZero(s);
        NoZeroFrom(buffer[..|low| + |text|], low, text, offset);
        UpdateOffset(|low| + |text|);
      }
    }

    /** An object (print_object). */
    method PrintObject(members: seq<Member>) returns (ok: bool)
      requires Valid() && PlainMembers(members)
      modifies this, buffer
      ensures Valid() && (buffer == old(buffer) || fresh(buffer)) && Limit() == old(Limit())
      ensures ok <==> old(offset) + |ObjectText(members, format, old(depth))| + 2 <= old(Limit())
      ensures ok ==> depth == old(depth) && Wrote(old(buffer[..offset]), ObjectText(members, format, depth))
      decreases members, 3
    {
      hide Printed, PrintedMembers, Plain, PlainMembers, Indent, ObjectStart, ObjectText, ObjectEnd, Limit;
      var outer, open := depth, ObjectStart(format);
      ghost var low, body := buffer[..offset], PrintedMembers(members, format, depth + 1);
      ObjectParts(members, format, depth, low);
      ok := Append(open, |open| + 1);
      if !ok {
        return;
      }
      depth := depth + 1;
      ok := PrintMembers(members);
      if !ok {
        return;
      }
      assert buffer[..offset] == (low + open) + body;
      ok := Finish(Indent(format, outer), CLOSE_OBJECT);
      depth := outer;
    }
  }

  lemma ObjectParts(members: seq<Member>, format: bool, d: nat, low: Bytes)
    ensures var open, body, indent := ObjectStart(format), PrintedMembers(members, format, d + 1), Indent(format, d);
            var text := ObjectText(members, format, d);
            && |text| == |open| + |body| + |indent| + 1
            && ((low + open) + body) + (indent + [CLOSE_OBJECT]) == low + text
  {
    hide PrintedMembers, Indent, ObjectStart;
    Closed(low, ObjectStart(format), PrintedMembers(members, format, d + 1), ObjectEnd(format, d));
  }

  lemma Extended(now: Bytes, before: Bytes, at: nat, out: nat, next: nat, e: Bytes)
    requires at <= out <= next <= |now| && now[..out] == before && now[out..next] == e
    ensures now[..at] == before[..at] && now[at..next] == before[at..] + e
  {
  }

  lemma QuotedSlices(now: Bytes, at: nat, end: nat, body: Bytes, low: Bytes)
    requires at < end && end + 1 < |now| && now[..at + 1] == low && low[at] == QUOTE && now[at + 1..end] == body && now[end] == QUOTE
    ensures now[at..end + 1] == [QUOTE] + (body + [QUOTE])
  {
    assert now[at] == now[..at + 1][at];
    assert now[at..end + 1] == [now[at]] + (now[at + 1..end] + [now[end]]);
  }

  lemma Regrouped(a: Bytes, b: Bytes, c: Bytes)
    ensures (a + b) + c == a + (b + c)
  {
  }

  lemma EscapeEmpty()
    ensures Escape([]) == [] && forall s: Bytes :: Escape(s[|s|..]) == [] && s[0..] == s && [] + Escape(s) == Escape(s)
  {
  }

  lemma EscapeFirst(s: Bytes, k: nat)
    requires k < |s|
    ensures Escape(s[k..]) == EscapeByte(s[k]) + Escape(s[k+1..])
  {
    assert s[k..][1..] == s[k+1..];
  }

  method CountExtra(s: Bytes) returns (extra: nat)
    ensures extra == Extra(s)
  {
    extra := 0;
    var k := 0;
    while k < |s|
      invariant 0 <= k <= |s| && Extra(s) == extra + Extra(s[k..])
    {
      assert s[k..][1..] == s[k+1..];
      var c := s[k];
      if c == QUOTE || c == BACKSLASH || c == 8 || c == 12 || c == 10 || c == 13 || c == 9 {
        extra := extra + 1;
      } else if c < 32 {
        extra := extra + 5;
      }
      k := k + 1;
    }
  }

  lemma NoZeroFrom(b: Bytes, low: Bytes, text: Bytes, from: nat)
    requires 0 !in text && b == low + text && |low| <= from
    ensures forall k :: from <= k < |b| ==> b[k] != 0
  {
    forall k | from <= k < |b| ensures b[k] != 0 { assert b[k] == text[k - |low|]; }
  }

  lemma ItemsFrom(items: seq<Json>, k: nat, format: bool, d: nat)
    requires k < |items|
    ensures PrintedItems(items[k..], format, d) == Printed(items[k], format, d)
            + (if k + 1 < |items| then Separator(format) + PrintedItems(items[k+1..], format, d) else [])
    ensures k + 1 == |items| ==> PrintedItems(items[k+1..], format, d) == []
    ensures |Separator(format)| == if format then 2 else 1
  {
    var rest := items[k..];
    assert rest[1..] == items[k+1..] && rest[0] == items[k];
    if k + 1 == |items| { assert Printed(items[k], format, d) + [] == Printed(items[k], format, d); }
  }

  lemma ItemSums(before: Bytes, items: seq<Json>, k: nat, format: bool, d: nat)
    requires k < |items|
    ensures var v, sep, rest := Printed(items[k], format, d), Separator(format), PrintedItems(items[k+1..], format, d);
            var all := before + PrintedItems(items[k..], format, d);
            if k + 1 < |items| then ((before + v) + sep) + rest == all else (before + v) + rest == all
  {
    hide Printed, PrintedItems, Separator;
    ItemsFrom(items, k, format, d);
  }

  lemma ItemsNone(items: seq<Json>, k: nat, format: bool, d: nat, text: Bytes)
    requires k == |items|
    ensures PrintedItems(items[k..], format, d) == [] && text + PrintedItems(items[k..], format, d) == text
  {
  }

  lemma MembersNone(members: seq<Member>, k: nat, format: bool, d: nat, text: Bytes)
    requires k == |members|
    ensures PrintedMembers(members[k..], format, d) == [] && text + PrintedMembers(members[k..], format, d) == text
  {
  }

  /** The parts of member `k` after what has been printed before. */
  lemma MembersFrom(members: seq<Member>, k: nat, format: bool, d: nat, before: Bytes)
    requires k < |members|
    ensures var indent, name := Indent(format, d), Quoted(members[k].name);
            var colon, val := ColonText(format), Printed(members[k].value, format, d);
            var end, rest := MemberEnd(format, k + 1 == |members|), PrintedMembers(members[k+1..], format, d);
            var all := PrintedMembers(members[k..], format, d);
            && ((((before + indent) + name) + colon) + val) + end + rest == before + all
            && |all| == |indent| + |name| + |colon| + |val| + |end| + |rest|
            && |colon| == (if format then 2 else 1)
            && (!format ==> before + indent == before)
  {
    hide Printed, Quoted;
    var rest := members[k..];
    assert rest[1..] == members[k+1..] && rest[0] == members[k] && (|rest| == 1 <==> k + 1 == |members|);
  }

  lemma Closed(low: Bytes, open: Bytes, body: Bytes, close: Bytes)
    ensures ((low + open) + body) + close == low + (open + (body + close))
  {
  }

  /** Bytes copied with their zero byte follow what was there. */
  lemma Placed(now: Bytes, low: Bytes, text: Bytes)
    requires |low| + |text| < |now| && now[..|low|] == low && now[|low|..|low| + |text| + 1] == text + [0]
    ensures now[..|low| + |text|] == low + text && now[|low| + |text|] == 0
  {
    var both := now[|low|..|low| + |text| + 1];
    assert both[..|text|] == text && both[|text|] == 0;
    assert now[..|low| + |text|] == now[..|low|] + both[..|text|];
  }

  const DEFAULT_SIZE := 256

  /** Print to new text (cJSON_Print, cJSON_PrintUnformatted): fails only when the text does not fit an int. */
  method Print(v: Json, format: bool) returns (text: Option<Bytes>)
    requires Plain(v)
    ensures text == if |Printed(v, format, 0)| + 2 <= INT_MAX then Some(Printed(v, format, 0)) else None
  {
    hide Printed, Plain;
    var b := new PrintBuffer(DEFAULT_SIZE, false, format);
    var ok := b.PrintAndStep(v);
    if !ok {
      return None;
    }
    assert b.buffer[..0] == [] && [] + Printed(v, format, 0) == Printed(v, format, 0);
    text := Some(b.buffer[..b.offset]);
  }

  /** Print into a buffer of a given size (cJSON_PrintPreallocated): it needs room for one byte beyond the zero byte. */
  method PrintPreallocated(v: Json, size: nat, format: bool) returns (ok: bool, buffer: array<byte>)
    requires Plain(v) && size <= INT_MAX
    ensures ok <==> |Printed(v, format, 0)| + 2 <= size
    ensures ok ==> |Printed(v, format, 0)| < buffer.Length == size
    ensures ok ==> buffer[..|Printed(v, format, 0)|] == Printed(v, format, 0) && buffer[|Printed(v, format, 0)|] == 0
  {
    hide Printed, Plain;
    var b := new PrintBuffer(size, true, format);
    ok := b.PrintValue(v);
    buffer := b.buffer;
    if ok {
      assert b.buffer[..0] == [] && [] + Printed(v, format, 0) == Printed(v, format, 0);
    }
  }
}
