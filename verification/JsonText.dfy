/** JSON values, the text printed for them and the reading of text, as functions (cJSON.c). */
module JsonText {
  import opened Keys
  import opened JsonString

  const NESTING_LIMIT := 1000
  const INT_MAX := 2147483647
  const INT_MIN := -2147483648

  const OPEN_ARRAY: byte := 91
  const CLOSE_ARRAY: byte := 93
  const OPEN_OBJECT: byte := 123
  const CLOSE_OBJECT: byte := 125
  const COMMA: byte := 44
  const COLON: byte := 58
  const SPACE: byte := 32
  const TAB: byte := 9
  const NEWLINE: byte := 10
  const MINUS: byte := 45

  const NULL_TEXT: Bytes := [110, 117, 108, 108]
  const FALSE_TEXT: Bytes := [102, 97, 108, 115, 101]
  const TRUE_TEXT: Bytes := [116, 114, 117, 101]

  datatype Json =
    | Null | False | True | Number(value: real) | Text(text: Bytes)
    | Array(items: seq<Json>) | Object(members: seq<Member>)
  datatype Member = Member(name: Bytes, value: Json)

  /** The integer kept beside a number's value: cut towards zero, held at the bounds of an int. */
  function ValueInt(r: real): int {
    if r >= INT_MAX as real then INT_MAX
    else if r <= INT_MIN as real then INT_MIN
    else if r >= 0.0 then r.Floor else -((-r).Floor)
  }

  /** Integers of at most 15 digits: both number formats print them exactly. */
  predicate IsWhole(r: real) { r == r.Floor as real && -1000000000000000 < r.Floor < 1000000000000000 }

  /** Strings as C strings, whole numbers. */
  predicate Plain(v: Json)
    decreases v, 0
  {
    match v
    case Number(r) => IsWhole(r)
    case Text(s) => 0 !in s
    case Array(items) => PlainItems(items)
    case Object(members) => PlainMembers(members)
    case _ => true
  }

  predicate PlainItems(items: seq<Json>)
    decreases items, 1
  {
    items == [] || (Plain(items[0]) && PlainItems(items[1..]))
  }

  predicate PlainMembers(members: seq<Member>)
    decreases members, 1
  {
    members == [] || (0 !in members[0].name && Plain(members[0].value) && PlainMembers(members[1..]))
  }

  /** How deeply arrays and objects are nested. */
  function Nesting(v: Json): nat
    decreases v, 0
  {
    match v
    case Array(items) => 1 + NestingItems(items)
    case Object(members) => 1 + NestingMembers(members)
    case _ => 0
  }

  function Max(a: nat, b: nat): nat { if a < b then b else a }

  function NestingItems(items: seq<Json>): nat
    decreases items, 1
  {
    if items == [] then 0 else Max(Nesting(items[0]), NestingItems(items[1..]))
  }

  function NestingMembers(members: seq<Member>): nat
    decreases members, 1
  {
    if members == [] then 0 else Max(Nesting(members[0].value), NestingMembers(members[1..]))
  }

  // ---- Printing ----------------------------------------------------------------------------

  function Digits(n: nat): Bytes {
    if n < 10 then [48 + n] else Digits(n / 10) + [48 + n % 10]
  }

  function Decimal(n: int): Bytes {
    if n < 0 then [MINUS] + Digits(-n) else Digits(n)
  }

  function Quoted(s: Bytes): Bytes { [QUOTE] + (Escape(s) + [QUOTE]) }

  function Tabs(n: nat): (t: Bytes)
    ensures |t| == n && forall i :: 0 <= i < n ==> t[i] == TAB
  {
    seq(n, _ => TAB)
  }

  function Indent(format: bool, depth: nat): Bytes { if format then Tabs(depth) else [] }

  function Separator(format: bool): Bytes { if format then [COMMA, SPACE] else [COMMA] }

  /** The text of a value that starts at nesting depth `depth`. */
  function Printed(v: Json, format: bool, depth: nat): Bytes
    decreases v, 0
  {
    match v
    case Null => NULL_TEXT
    case False => FALSE_TEXT
    case True => TRUE_TEXT
    case Number(r) => Decimal(r.Floor)
    case Text(s) => Quoted(s)
    case Array(items) => [OPEN_ARRAY] + (PrintedItems(items, format, depth + 1) + [CLOSE_ARRAY])
    case Object(members) =>
      ObjectStart(format) + (PrintedMembers(members, format, depth + 1) + ObjectEnd(format, depth))
  }

  function ObjectStart(format: bool): Bytes { if format then [OPEN_OBJECT, NEWLINE] else [OPEN_OBJECT] }

  function ObjectEnd(format: bool, depth: nat): Bytes { Indent(format, depth) + [CLOSE_OBJECT] }

  function PrintedItems(items: seq<Json>, format: bool, depth: nat): Bytes
    decreases items, 1
  {
    if items == [] then []
    else if |items| == 1 then Printed(items[0], format, depth)
    else Printed(items[0], format, depth) + (Separator(format) + PrintedItems(items[1..], format, depth))
  }

  function ColonText(format: bool): Bytes { if format then [COLON, TAB] else [COLON] }

  function MemberEnd(format: bool, last: bool): Bytes {
    (if last then [] else [COMMA]) + (if format then [NEWLINE] else [])
  }

  function PrintedMembers(members: seq<Member>, format: bool, depth: nat): Bytes
    decreases members, 1
  {
    if members == [] then []
    else
      Indent(format, depth) + (Quoted(members[0].name) + (ColonText(format)
      + (Printed(members[0].value, format, depth)
      + (MemberEnd(format, |members| == 1) + PrintedMembers(members[1..], format, depth)))))
  }

  function ArrayText(items: seq<Json>, format: bool, depth: nat): Bytes {
    [OPEN_ARRAY] + (PrintedItems(items, format, depth + 1) + [CLOSE_ARRAY])
  }

  function ObjectText(members: seq<Member>, format: bool, depth: nat): Bytes {
    ObjectStart(format) + (PrintedMembers(members, format, depth + 1) + ObjectEnd(format, depth))
  }

  /** The text of a value by its kind. */
  lemma PrintedParts(v: Json, format: bool, d: nat)
    ensures match v
            case Null => Printed(v, format, d) == NULL_TEXT
            case False => Printed(v, format, d) == FALSE_TEXT
            case True => Printed(v, format, d) == TRUE_TEXT
            case Number(r) => Printed(v, format, d) == Decimal(r.Floor)
            case Text(s) => Printed(v, format, d) == Quoted(s)
            case Array(items) => Printed(v, format, d) == ArrayText(items, format, d)
            case Object(members) => Printed(v, format, d) == ObjectText(members, format, d)
  {
  }

  // ---- Reading numbers ---------------------------------------------------------------------

  predicate IsDigit(c: byte) { 48 <= c <= 57 }

  predicate IsSign(c: byte) { c == 43 || c == MINUS }

  predicate IsExponent(c: byte) { c == 101 || c == 69 }

  predicate IsNumberByte(c: byte) { IsDigit(c) || IsSign(c) || IsExponent(c) || c == 46 }

  /** Number bytes from `i` on, at most `room` of them: what is copied out for conversion. */
  function NumberSpan(buf: Bytes, i: nat, room: nat): (n: nat)
    requires i <= |buf|
    ensures i + n <= |buf| && n <= room
    decreases room
  {
    if room == 0 || i == |buf| || !IsNumberByte(buf[i]) then 0 else 1 + NumberSpan(buf, i + 1, room - 1)
  }

  function DigitRun(s: Bytes, i: nat): (n: nat)
    requires i <= |s|
    ensures i + n <= |s| && forall j :: i <= j < i + n ==> IsDigit(s[j])
    decreases |s| - i
  {
    if i == |s| || !IsDigit(s[i]) then 0 else 1 + DigitRun(s, i + 1)
  }

  function DigitValue(c: byte): nat { if IsDigit(c) then c - 48 else 0 }

  function DigitsValue(s: Bytes): nat {
    if s == [] then 0 else DigitsValue(s[..|s|-1]) * 10 + DigitValue(s[|s|-1])
  }

  function Scaled(x: real, exponent: int): real
    decreases if exponent < 0 then -exponent else exponent
  {
    if exponent == 0 then x
    else if exponent > 0 then Scaled(x * 10.0, exponent - 1)
    else Scaled(x / 10.0, exponent + 1)
  }

  datatype Parsed<T> = Parsed(value: T, off: nat)

  function SignAt(s: Bytes, i: nat): nat { if i < |s| && IsSign(s[i]) then 1 else 0 }

  /** The exponent part at `i`: its value and its length, both 0 when it has no digits. */
  function ExponentAt(s: Bytes, i: nat): (r: Parsed<int>)
    requires i <= |s|
    ensures r.off <= |s| - i
  {
    if i < |s| && IsExponent(s[i]) then
      var j := i + 1 + SignAt(s, i + 1);
      var n := DigitRun(s, j);
      if n == 0 then Parsed(0, 0)
      else
        var m: int := DigitsValue(s[j..j+n]);
        Parsed(if s[i+1] == MINUS then -m else m, j + n - i)
    else Parsed(0, 0)
  }

  /** Decimal conversion (strtod), exact; `off` is the number of bytes used. */
  function Converted(s: Bytes): (r: Option<Parsed<real>>)
    ensures r.Some? ==> 0 < r.value.off <= |s|
  {
    var i := SignAt(s, 0);
    var whole := DigitRun(s, i);
    var j := i + whole;
    var point := j < |s| && s[j] == 46;
    var part := if point then DigitRun(s, j + 1) else 0;
    if whole + part == 0 then None
    else
      var k := if point then j + 1 + part else j;
      var m: int := DigitsValue(s[i..j] + (if point then s[j+1..k] else []));
      var e := ExponentAt(s, k);
      Some(Parsed(Scaled((if s[0] == MINUS then -m else m) as real, e.value - part), k + e.off))
  }

  // ---- Reading values ----------------------------------------------------------------------

  function SkipAll(buf: Bytes, i: nat): (e: nat)
    requires i <= |buf|
    ensures i <= e <= |buf|
    decreases |buf| - i
  {
    if i < |buf| && buf[i] <= 32 then SkipAll(buf, i + 1) else i
  }

  /** Whitespace, and zero bytes, are skipped; the end of the buffer is stepped back from. */
  function Skip(buf: Bytes, i: nat): (e: nat)
    requires i <= |buf|
    ensures i <= e <= |buf| && (i < |buf| ==> e < |buf|)
  {
    if i == |buf| then i
    else if SkipAll(buf, i) == |buf| then |buf| - 1
    else SkipAll(buf, i)
  }

  predicate Shows(buf: Bytes, i: nat, c: byte) { i < |buf| && buf[i] == c }

  predicate ShowsText(buf: Bytes, i: nat, text: Bytes) { i + |text| <= |buf| && buf[i..i + |text|] == text }

  function StringAt(buf: Bytes, i: nat): (r: Option<Parsed<Bytes>>)
    ensures r.Some? ==> i + 1 < r.value.off <= |buf|
  {
    if !Shows(buf, i, QUOTE) then None
    else
      match StringEnd(buf, i + 1)
      case None => None
      case Some(end) =>
        match Unescape(buf, i + 1, end)
        case None => None
        case Some(s) => Some(Parsed(CString(s), end + 1))
  }

  function NumberAt(buf: Bytes, i: nat): (r: Option<Parsed<Json>>)
    requires i <= |buf|
    ensures r.Some? ==> i < r.value.off <= |buf|
  {
    match Converted(buf[i..i + NumberSpan(buf, i, 63)])
    case None => None
    case Some(p) => Some(Parsed(Number(p.value), i + p.off))
  }

  /** The value at `i`, read at nesting depth `depth`. */
  function ValueAt(buf: Bytes, i: nat, depth: nat): (r: Option<Parsed<Json>>)
    requires i <= |buf| && depth <= NESTING_LIMIT
    ensures r.Some? ==> i < r.value.off <= |buf|
    decreases NESTING_LIMIT - depth, |buf| - i, 1
  {
    if ShowsText(buf, i, NULL_TEXT) then Some(Parsed(Null, i + 4))
    else if ShowsText(buf, i, FALSE_TEXT) then Some(Parsed(False, i + 5))
    else if ShowsText(buf, i, TRUE_TEXT) then Some(Parsed(True, i + 4))
    else if Shows(buf, i, QUOTE) then
      match StringAt(buf, i)
      case None => None
      case Some(p) => Some(Parsed(Text(p.value), p.off))
    else if i < |buf| && (buf[i] == MINUS || IsDigit(buf[i])) then NumberAt(buf, i)
    else if Shows(buf, i, OPEN_ARRAY) then ArrayAt(buf, i, depth)
    else if Shows(buf, i, OPEN_OBJECT) then ObjectAt(buf, i, depth)
    else None
  }

  function ArrayAt(buf: Bytes, i: nat, depth: nat): (r: Option<Parsed<Json>>)
    requires i < |buf| && depth <= NESTING_LIMIT
    ensures r.Some? ==> i < r.value.off <= |buf|
    decreases NESTING_LIMIT - depth, |buf| - i, 0
  {
    if depth == NESTING_LIMIT then None
    else
      var j := Skip(buf, i + 1);
      if Shows(buf, j, CLOSE_ARRAY) then Some(Parsed(Array([]), j + 1))
      else if j >= |buf| then None
      else
        match ItemsAt(buf, j - 1, depth + 1)
        case None => None
        case Some(p) => Some(Parsed(Array(p.value), p.off))
  }

  /** The items after the bracket or comma at `i`, up to and with the closing bracket. */
  function ItemsAt(buf: Bytes, i: nat, depth: nat): (r: Option<Parsed<seq<Json>>>)
    requires i < |buf| && depth <= NESTING_LIMIT
    ensures r.Some? ==> i < r.value.off <= |buf|
    decreases NESTING_LIMIT - depth, |buf| - i, 0
  {
    match ValueAt(buf, Skip(buf, i + 1), depth)
    case None => None
    case Some(p) =>
      var j := Skip(buf, p.off);
      if Shows(buf, j, COMMA) then
        match ItemsAt(buf, j, depth)
        case None => None
        case Some(rest) => Some(Parsed([p.value] + rest.value, rest.off))
      else if Shows(buf, j, CLOSE_ARRAY) then Some(Parsed([p.value], j + 1))
      else None
  }

  function ObjectAt(buf: Bytes, i: nat, depth: nat): (r: Option<Parsed<Json>>)
    requires i < |buf| && depth <= NESTING_LIMIT
    ensures r.Some? ==> i < r.value.off <= |buf|
    decreases NESTING_LIMIT - depth, |buf| - i, 0
  {
    if depth == NESTING_LIMIT then None
    else
      var j := Skip(buf, i + 1);
      if Shows(buf, j, CLOSE_OBJECT) then Some(Parsed(Object([]), j + 1))
      else if j >= |buf| then None
      else
        match MembersAt(buf, j - 1, depth + 1)
        case None => None
        case Some(p) => Some(Parsed(Object(p.value), p.off))
  }

  function MembersAt(buf: Bytes, i: nat, depth: nat): (r: Option<Parsed<seq<Member>>>)
    requires i < |buf| && depth <= NESTING_LIMIT
    ensures r.Some? ==> i < r.value.off <= |buf|
    decreases NESTING_LIMIT - depth, |buf| - i, 0
  {
    match StringAt(buf, Skip(buf, i + 1))
    case None => None
    case Some(name) =>
      var c := Skip(buf, name.off);
      if !Shows(buf, c, COLON) then None
      else
        match ValueAt(buf, Skip(buf, c + 1), depth)
        case None => None
        case Some(p) =>
          var j := Skip(buf, p.off);
          var m := Member(name.value, p.value);
          if Shows(buf, j, COMMA) then
            match MembersAt(buf, j, depth)
            case None => None
            case Some(rest) => Some(Parsed([m] + rest.value, rest.off))
          else if Shows(buf, j, CLOSE_OBJECT) then Some(Parsed([m], j + 1))
          else None
  }

  /** Position after a byte order mark. */
  function AfterBom(buf: Bytes): nat {
    if |buf| > 4 && buf[..3] == [0xEF, 0xBB, 0xBF] then 3 else 0
  }

  /** Parse a C string; with `whole` nothing but whitespace may follow the value. */
  function ParseText(text: Bytes, whole: bool): Option<Json> {
    var buf := text + [0];
    match ValueAt(buf, Skip(buf, AfterBom(buf)), 0)
    case None => None
    case Some(p) =>
      if whole && !Shows(buf, Skip(buf, p.off), 0) then None else Some(p.value)
  }
}
