/** Envelopes and recovery messages, and their JSON form (datatypes.cpp). */
module Messages {
  import opened Keys
  import opened JsonString
  import opened JsonText
  import opened JsonRoundTrip
  import JsonParser
  import JsonPrinter

  /** A published message. Strings are bytes; what follows a zero byte is lost when they are written. */
  datatype Envelope = Envelope(
    uuid: Bytes, topic: Bytes, sequenceNumber: int, timestamp: int, success: bool, error: Bytes, body: Bytes)

  datatype RecoveryRequest = RecoveryRequest(start: int, end: int)

  const UUID: Bytes := [117, 117, 105, 100]
  const TOPIC: Bytes := [116, 111, 112, 105, 99]
  const SEQUENCE_NUMBER: Bytes := [115, 101, 113, 117, 101, 110, 99, 101, 78, 117, 109, 98, 101, 114]
  const TIMESTAMP: Bytes := [116, 105, 109, 101, 115, 116, 97, 109, 112]
  const SUCCESS: Bytes := [115, 117, 99, 99, 101, 115, 115]
  const ERROR: Bytes := [101, 114, 114, 111, 114]
  const BODY: Bytes := [98, 111, 100, 121]
  const START: Bytes :=
    [115, 116, 97, 114, 116, 83, 101, 113, 117, 101, 110, 99, 101, 78, 117, 109, 98, 101, 114]
  const END: Bytes := [101, 110, 100, 83, 101, 113, 117, 101, 110, 99, 101, 78, 117, 109, 98, 101, 114]
  const RECOVERY_LIST: Bytes := [114, 101, 99, 111, 118, 101, 114, 121, 76, 105, 115, 116]

  // ---- Items of an object ------------------------------------------------------------------

  function Lower(c: byte): byte { if 65 <= c <= 90 then c + 32 else c }

  predicate SameName(a: Bytes, b: Bytes, exact: bool) {
    if exact then a == b else |a| == |b| && forall i :: 0 <= i < |a| ==> Lower(a[i]) == Lower(b[i])
  }

  /** The first member of that name (get_object_item). */
  function Item(members: seq<Member>, name: Bytes, exact: bool): Option<Json> {
    if members == [] then None
    else if SameName(name, members[0].name, exact) then Some(members[0].value)
    else Item(members[1..], name, exact)
  }

  function GetItem(v: Json, name: Bytes, exact: bool): Option<Json> {
    if v.Object? then Item(v.members, name, exact) else None
  }

  /** The int of an item: that of a number, 1 for true, 0 for anything else. */
  function IntOf(v: Json): int {
    match v
    case Number(r) => ValueInt(r)
    case True => 1
    case _ => 0
  }

  function Clamp(n: int): int { if n > INT_MAX then INT_MAX else if n < INT_MIN then INT_MIN else n }

  // ---- Envelopes ---------------------------------------------------------------------------

  function ToJson(e: Envelope): Json {
    Object([
      Member(UUID, Text(CString(e.uuid))), Member(TOPIC, Text(CString(e.topic))),
      Member(SEQUENCE_NUMBER, Number(e.sequenceNumber as real)), Member(TIMESTAMP, Number(e.timestamp as real)),
      Member(SUCCESS, if e.success then True else False), Member(ERROR, Text(CString(e.error))),
      Member(BODY, Text(CString(e.body)))])
  }

  /** None where an item is missing or no string: the null pointer is read there. A body that is none reads as empty. */
  function FromJson(v: Json): Option<Envelope> {
    var uuid, topic, sequence := GetItem(v, UUID, false), GetItem(v, TOPIC, false), GetItem(v, SEQUENCE_NUMBER, false);
    var timestamp, success := GetItem(v, TIMESTAMP, false), GetItem(v, SUCCESS, false);
    var error, body := GetItem(v, ERROR, false), GetItem(v, BODY, false);
    if uuid.Some? && uuid.value.Text? && topic.Some? && topic.value.Text? && sequence.Some? && timestamp.Some?
       && success.Some? && error.Some? && error.value.Text? && body.Some? then
      Some(Envelope(uuid.value.text, topic.value.text, IntOf(sequence.value), IntOf(timestamp.value),
                    IntOf(success.value) == 1, error.value.text, if body.value.Text? then body.value.text else []))
    else None
  }

  /** Integers of at most 15 digits are printed as they are. */
  predicate Printable(e: Envelope) { IsWhole(e.sequenceNumber as real) && IsWhole(e.timestamp as real) }

  /** What of an envelope survives: strings up to their first zero byte, integers held at the bounds of an int. */
  function Received(e: Envelope): Envelope {
    Envelope(CString(e.uuid), CString(e.topic), Clamp(e.sequenceNumber), Clamp(e.timestamp), e.success,
             CString(e.error), CString(e.body))
  }

  lemma {:induction false} CStringNoZero(s: Bytes)
    ensures 0 !in CString(s)
  {
    if s != [] && s[0] != 0 { CStringNoZero(s[1..]); }
  }

  lemma ClampedInt(n: int)
    ensures ValueInt(n as real) == Clamp(n)
  {
  }

  lemma ToJsonPlain(e: Envelope)
    requires Printable(e)
    ensures Plain(ToJson(e)) && Nesting(ToJson(e)) == 1
  {
    hide Nesting, Plain, CString, UUID, TOPIC, SEQUENCE_NUMBER, TIMESTAMP, SUCCESS, ERROR, BODY;
    var ms := ToJson(e).members;
    CStringNoZero(e.uuid);
    CStringNoZero(e.topic);
    CStringNoZero(e.error);
    CStringNoZero(e.body);
    NamesPlain();
    forall k | 0 <= k < |ms| ensures PlainMember(ms[k]) && Nesting(ms[k].value) <= 0 { FlatValue(ms[k].value); }
    MembersPlain(ms, 0);
    ObjectPlain(ms);
  }

  lemma NamesPlain()
    ensures 0 !in UUID && 0 !in TOPIC && 0 !in SEQUENCE_NUMBER && 0 !in TIMESTAMP && 0 !in SUCCESS && 0 !in ERROR && 0 !in BODY
  {
  }

  predicate PlainMember(m: Member) { 0 !in m.name && Plain(m.value) }

  lemma FlatValue(v: Json)
    requires match v case Number(r) => IsWhole(r) case Text(s) => 0 !in s case True => true case False => true case _ => false
    ensures Plain(v) && Nesting(v) == 0
  {
  }

  lemma ObjectPlain(ms: seq<Member>)
    ensures Plain(Object(ms)) == PlainMembers(ms) && Nesting(Object(ms)) == 1 + NestingMembers(ms)
  {
  }

  /** Members one by one without a zero in a name, each value printable. */
  lemma {:induction false} MembersPlain(ms: seq<Member>, n: nat)
    requires forall k :: 0 <= k < |ms| ==> PlainMember(ms[k]) && Nesting(ms[k].value) <= n
    ensures PlainMembers(ms) && NestingMembers(ms) <= n
  {
    hide Plain, Nesting;
    if ms != [] { MembersPlain(ms[1..], n); }
  }

  lemma {:induction false} ItemAt(members: seq<Member>, name: Bytes, exact: bool, k: nat)
    requires k < |members| && SameName(name, members[k].name, exact)
    requires forall j :: 0 <= j < k ==> !SameName(name, members[j].name, exact)
    ensures Item(members, name, exact) == Some(members[k].value)
  {
    if k > 0 { ItemAt(members[1..], name, exact, k - 1); }
  }

  const NAMES: seq<Bytes> := [UUID, TOPIC, SEQUENCE_NUMBER, TIMESTAMP, SUCCESS, ERROR, BODY]

  lemma NamesDiffer(j: nat, k: nat)
    requires j < k < 7
    ensures !SameName(NAMES[k], NAMES[j], false)
  {
    var a, b := NAMES[k], NAMES[j];
    assert |a| != |b| || Lower(a[0]) != Lower(b[0]);
  }

  /** Reading the items back gives the received envelope. */
  lemma FieldsRead(e: Envelope)
    ensures FromJson(ToJson(e)) == Some(Received(e))
  {
    hide SameName, Item;
    var ms := ToJson(e).members;
    forall k | 0 <= k < 7 ensures Item(ms, NAMES[k], false) == Some(ms[k].value) {
      assert ms[k].name == NAMES[k];
      SameAsItself(NAMES[k]);
      forall j | 0 <= j < k ensures !SameName(NAMES[k], ms[j].name, false) { NamesDiffer(j, k); }
      ItemAt(ms, NAMES[k], false, k);
    }
    assert NAMES[0] == UUID && NAMES[1] == TOPIC && NAMES[2] == SEQUENCE_NUMBER && NAMES[3] == TIMESTAMP
        && NAMES[4] == SUCCESS && NAMES[5] == ERROR && NAMES[6] == BODY;
    ClampedInt(e.sequenceNumber);
    ClampedInt(e.timestamp);
  }

  lemma SameAsItself(a: Bytes)
    ensures SameName(a, a, false) && SameName(a, a, true)
  {
  }

  /** An envelope comes back from its text with its strings as C strings and its integers held within int range. */
  lemma EnvelopeRoundTrip(e: Envelope)
    requires Printable(e)
    ensures ParseText(Printed(ToJson(e), true, 0), false) == Some(ToJson(e))
    ensures FromJson(ToJson(e)) == Some(Received(e))
    ensures Received(e) == e <==> Fits(e)
  {
    ToJsonPlain(e);
    ParsePrinted(ToJson(e), true, false);
    FieldsRead(e);
    CStringExact(e.uuid);
    CStringExact(e.topic);
    CStringExact(e.error);
    CStringExact(e.body);
  }

  /** What can be sent without loss: integers in int range, strings without a zero byte. */
  predicate Fits(e: Envelope) {
    && INT_MIN <= e.sequenceNumber <= INT_MAX && INT_MIN <= e.timestamp <= INT_MAX
    && 0 !in e.uuid && 0 !in e.topic && 0 !in e.error && 0 !in e.body
  }

  lemma CStringExact(s: Bytes)
    ensures CString(s) == s <==> 0 !in s
  {
    CStringNoZero(s);
    if 0 !in s { CStringWhole(s); }
  }

  // ---- The items by their names ------------------------------------------------------------

  lemma NamesSpelled()
    ensures UUID == Ascii("uuid") && TOPIC == Ascii("topic") && SEQUENCE_NUMBER == Ascii("sequenceNumber")
    ensures TIMESTAMP == Ascii("timestamp") && SUCCESS == Ascii("success") && ERROR == Ascii("error") && BODY == Ascii("body")
    ensures START == Ascii("startSequenceNumber") && END == Ascii("endSequenceNumber") && RECOVERY_LIST == Ascii("recoveryList")
  {
  }

  /** An item is the first member whose name is the one looked for. */
  lemma {:induction false} FirstItem(members: seq<Member>, name: Bytes, exact: bool)
    ensures match Item(members, name, exact)
            case None => forall k :: 0 <= k < |members| ==> !SameName(name, members[k].name, exact)
            case Some(v) =>
              exists k :: 0 <= k < |members| && members[k].value == v && SameName(name, members[k].name, exact)
                          && forall j :: 0 <= j < k ==> !SameName(name, members[j].name, exact)
  {
    hide SameName;
    if members != [] && !SameName(name, members[0].name, exact) {
      var rest := members[1..];
      FirstItem(rest, name, exact);
      if Item(rest, name, exact).Some? {
        var k :| 0 <= k < |rest| && rest[k].value == Item(rest, name, exact).value && SameName(name, rest[k].name, exact)
                 && forall j :: 0 <= j < k ==> !SameName(name, rest[j].name, exact);
        assert members[k+1] == rest[k];
        assert forall j :: 0 < j < k + 1 ==> members[j] == rest[j-1];
      } else {
        assert forall k :: 0 < k < |members| ==> members[k] == rest[k-1];
      }
    }
  }

  /** Names are the same when they are equal, or, where case does not matter, when they are equal in lower case. */
  lemma NamesAlike(a: Bytes, b: Bytes)
    ensures SameName(a, b, true) <==> a == b
    ensures SameName(a, b, false) <==> |a| == |b| && forall i :: 0 <= i < |a| ==>
              a[i] == b[i]
              || ('A' as int <= a[i] <= 'Z' as int && b[i] == a[i] - 'A' as int + 'a' as int)
              || ('A' as int <= b[i] <= 'Z' as int && a[i] == b[i] - 'A' as int + 'a' as int)
  {
  }

  /** An object with the envelope's fields, each under its name, and nothing else. */
  ghost predicate Spells(v: Json, e: Envelope) {
    && v.Object? && |v.members| == 7
    && GetItem(v, Ascii("uuid"), true) == Some(Text(CString(e.uuid)))
    && GetItem(v, Ascii("topic"), true) == Some(Text(CString(e.topic)))
    && GetItem(v, Ascii("sequenceNumber"), true) == Some(Number(e.sequenceNumber as real))
    && GetItem(v, Ascii("timestamp"), true) == Some(Number(e.timestamp as real))
    && GetItem(v, Ascii("success"), true) == Some(if e.success then True else False)
    && GetItem(v, Ascii("error"), true) == Some(Text(CString(e.error)))
    && GetItem(v, Ascii("body"), true) == Some(Text(CString(e.body)))
  }

  lemma EnvelopeSpelled(e: Envelope)
    ensures Spells(ToJson(e), e)
  {
    hide Ascii, Item, CString, SameName, UUID, TOPIC, SEQUENCE_NUMBER, TIMESTAMP, SUCCESS, ERROR, BODY;
    var ms := ToJson(e).members;
    NamesSpelled();
    forall k | 0 <= k < 7 ensures Item(ms, NAMES[k], true) == Some(ms[k].value) {
      assert ms[k].name == NAMES[k];
      SameAsItself(NAMES[k]);
      forall j | 0 <= j < k ensures !SameName(NAMES[k], ms[j].name, true) { ExactDiffer(j, k); }
      ItemAt(ms, NAMES[k], true, k);
    }
    assert NAMES[0] == UUID && NAMES[1] == TOPIC && NAMES[2] == SEQUENCE_NUMBER && NAMES[3] == TIMESTAMP
        && NAMES[4] == SUCCESS && NAMES[5] == ERROR && NAMES[6] == BODY;
  }

  lemma ExactDiffer(j: nat, k: nat)
    requires j < k < 7
    ensures !SameName(NAMES[k], NAMES[j], true)
  {
    NamesDiffer(j, k);
  }

  /** An item that is a string, whatever the case of its name. */
  ghost predicate HasText(v: Json, name: string)
    requires IsAscii(name)
  {
    var item := GetItem(v, Ascii(name), false);
    item.Some? && item.value.Text?
  }

  ghost predicate HasFields(v: Json) {
    && HasText(v, "uuid") && HasText(v, "topic") && HasText(v, "error")
    && GetItem(v, Ascii("sequenceNumber"), false).Some? && GetItem(v, Ascii("timestamp"), false).Some?
    && GetItem(v, Ascii("success"), false).Some? && GetItem(v, Ascii("body"), false).Some?
  }

  /** The envelope that is read out of an object: each field from the item of its name. */
  ghost predicate ReadOut(v: Json, e: Envelope)
    requires HasFields(v)
  {
    && Text(e.uuid) == GetItem(v, Ascii("uuid"), false).value && Text(e.topic) == GetItem(v, Ascii("topic"), false).value
    && e.sequenceNumber == IntOf(GetItem(v, Ascii("sequenceNumber"), false).value)
    && e.timestamp == IntOf(GetItem(v, Ascii("timestamp"), false).value)
    && (e.success <==> IntOf(GetItem(v, Ascii("success"), false).value) == 1)
    && Text(e.error) == GetItem(v, Ascii("error"), false).value
    && var body := GetItem(v, Ascii("body"), false).value;
       if body.Text? then e.body == body.text else e.body == []
  }

  lemma EnvelopeReadOut(v: Json)
    ensures match FromJson(v) case None => !HasFields(v) case Some(e) => HasFields(v) && ReadOut(v, e)
  {
    hide Ascii, Item, IntOf, UUID, TOPIC, SEQUENCE_NUMBER, TIMESTAMP, SUCCESS, ERROR, BODY;
    NamesSpelled();
  }

  /** Envelope::Serialize. */
  method SerializeEnvelope(e: Envelope) returns (text: Option<Bytes>)
    requires Printable(e)
    ensures text.Some? ==> text.value == Printed(ToJson(e), true, 0)
    ensures |Printed(ToJson(e), true, 0)| + 2 <= INT_MAX ==> text.Some?
    ensures text.Some? ==> ParseText(text.value, false).Some? && Spells(ParseText(text.value, false).value, e)
  {
    hide Spells, Printed, ParseText, ToJson, FromJson, Plain, Nesting;
    EnvelopeSpelled(e);
    EnvelopeRoundTrip(e);
    ToJsonPlain(e);
    text := JsonPrinter.Print(ToJson(e), true);
  }

  /** Envelope::Deserialize. */
  method DeserializeEnvelope(text: Bytes) returns (e: Option<Envelope>)
    ensures e == match ParseText(text, false) case None => None case Some(v) => FromJson(v)
    ensures var v := ParseText(text, false);
            if e.None? then v.None? || !HasFields(v.value)
            else v.Some? && HasFields(v.value) && ReadOut(v.value, e.value)
  {
    hide FromJson, ParseText, HasFields, ReadOut;
    var v := JsonParser.Parse(text, false);
    if v.Some? { EnvelopeReadOut(v.value); }
    e := if v.None? then None else FromJson(v.value);
  }

  // ---- Recovery requests -------------------------------------------------------------------

  function RequestToJson(q: RecoveryRequest): Json {
    Object([Member(START, Number(q.start as real)), Member(END, Number(q.end as real))])
  }

  function RequestFromJson(v: Json): Option<RecoveryRequest> {
    var start, end := GetItem(v, START, true), GetItem(v, END, true);
    if start.Some? && end.Some? then Some(RecoveryRequest(IntOf(start.value), IntOf(end.value))) else None
  }

  lemma LengthsDiffer(a: Bytes, b: Bytes)
    requires |a| != |b|
    ensures !SameName(a, b, true)
  {
  }

  lemma RequestPlain(q: RecoveryRequest)
    requires IsWhole(q.start as real) && IsWhole(q.end as real)
    ensures Plain(RequestToJson(q)) && Nesting(RequestToJson(q)) == 1
  {
    hide Nesting, Plain;
    var ms := RequestToJson(q).members;
    forall k | 0 <= k < |ms| ensures PlainMember(ms[k]) && Nesting(ms[k].value) <= 0 { FlatValue(ms[k].value); }
    MembersPlain(ms, 0);
    ObjectPlain(ms);
  }

  lemma RequestFieldsRead(q: RecoveryRequest)
    ensures RequestFromJson(RequestToJson(q)) == Some(RecoveryRequest(Clamp(q.start), Clamp(q.end)))
  {
    hide SameName, Item;
    var ms := RequestToJson(q).members;
    SameAsItself(START);
    SameAsItself(END);
    LengthsDiffer(END, START);
    ItemAt(ms, START, true, 0);
    ItemAt(ms, END, true, 1);
    ClampedInt(q.start);
    ClampedInt(q.end);
  }

  lemma RequestRoundTrip(q: RecoveryRequest)
    requires IsWhole(q.start as real) && IsWhole(q.end as real)
    ensures ParseText(Printed(RequestToJson(q), true, 0), false) == Some(RequestToJson(q))
    ensures RequestFromJson(RequestToJson(q)) == Some(RecoveryRequest(Clamp(q.start), Clamp(q.end)))
  {
    hide Plain, Nesting, Printed, RequestToJson;
    RequestPlain(q);
    ParsePrinted(RequestToJson(q), true, false);
    RequestFieldsRead(q);
  }

  /** A request has its two bounds under their names, and they are read from there. */
  lemma RequestSpelled(q: RecoveryRequest)
    ensures var v := RequestToJson(q);
            && v.Object? && |v.members| == 2
            && GetItem(v, Ascii("startSequenceNumber"), true) == Some(Number(q.start as real))
            && GetItem(v, Ascii("endSequenceNumber"), true) == Some(Number(q.end as real))
  {
    hide Ascii, Item, SameName, START, END;
    var ms := RequestToJson(q).members;
    NamesSpelled();
    SameAsItself(START);
    SameAsItself(END);
    BoundsDiffer();
    ItemAt(ms, START, true, 0);
    ItemAt(ms, END, true, 1);
  }

  lemma BoundsDiffer()
    ensures !SameName(END, START, true)
  {
    LengthsDiffer(END, START);
  }

  lemma RequestReadOut(v: Json)
    ensures var start, end := GetItem(v, Ascii("startSequenceNumber"), true), GetItem(v, Ascii("endSequenceNumber"), true);
            match RequestFromJson(v)
            case None => start.None? || end.None?
            case Some(q) => start.Some? && end.Some? && q.start == IntOf(start.value) && q.end == IntOf(end.value)
  {
    hide Ascii, Item, IntOf, START, END;
    NamesSpelled();
  }

  // ---- Recovery responses ------------------------------------------------------------------

  function ListJson(es: seq<Envelope>): (items: seq<Json>)
    ensures |items| == |es| && forall k :: 0 <= k < |es| ==> items[k] == ToJson(es[k])
  {
    seq(|es|, k requires 0 <= k < |es| => ToJson(es[k]))
  }

  function ResponseToJson(es: seq<Envelope>): Json {
    Object([Member(RECOVERY_LIST, Array(ListJson(es)))])
  }

  function AllReceived(es: seq<Envelope>): (rs: seq<Envelope>)
    ensures |rs| == |es| && forall k :: 0 <= k < |es| ==> rs[k] == Received(es[k])
  {
    seq(|es|, k requires 0 <= k < |es| => Received(es[k]))
  }

  lemma {:induction false} ListPlain(es: seq<Envelope>)
    requires forall k :: 0 <= k < |es| ==> Printable(es[k])
    ensures PlainItems(ListJson(es)) && NestingItems(ListJson(es)) <= 1
  {
    hide ToJson, Plain, Nesting;
    if es != [] {
      ToJsonPlain(es[0]);
      ListPlain(es[1..]);
      assert ListJson(es)[1..] == ListJson(es[1..]);
    }
  }

  lemma ResponsePlain(es: seq<Envelope>)
    requires forall k :: 0 <= k < |es| ==> Printable(es[k])
    ensures Plain(ResponseToJson(es)) && Nesting(ResponseToJson(es)) <= 3
  {
    hide ToJson, Nesting, Plain;
    ListPlain(es);
    ArrayPlain(ListJson(es));
    var ms := ResponseToJson(es).members;
    MembersPlain(ms, 2);
    ObjectPlain(ms);
  }

  lemma ArrayPlain(items: seq<Json>)
    ensures Plain(Array(items)) == PlainItems(items) && Nesting(Array(items)) == 1 + NestingItems(items)
  {
  }

  lemma ResponseRoundTrip(es: seq<Envelope>)
    requires forall k :: 0 <= k < |es| ==> Printable(es[k])
    ensures ParseText(Printed(ResponseToJson(es), true, 0), false) == Some(ResponseToJson(es))
    ensures GetItem(ResponseToJson(es), RECOVERY_LIST, false) == Some(Array(ListJson(es)))
  {
    hide ToJson, Printed, Plain, Nesting;
    ResponsePlain(es);
    ParsePrinted(ResponseToJson(es), true, false);
    ItemAt(ResponseToJson(es).members, RECOVERY_LIST, false, 0);
  }

  /** An object with nothing but a list, under its name, of objects with the envelopes' fields. */
  ghost predicate ListSpells(v: Json, es: seq<Envelope>) {
    && v.Object? && |v.members| == 1
    && var list := GetItem(v, Ascii("recoveryList"), true);
       && list.Some? && list.value.Array? && |list.value.items| == |es|
       && forall k :: 0 <= k < |es| ==> Spells(list.value.items[k], es[k])
  }

  lemma ResponseSpelled(es: seq<Envelope>)
    ensures ListSpells(ResponseToJson(es), es)
  {
    hide Ascii, Item, Spells, SameName, RECOVERY_LIST;
    NamesSpelled();
    SameAsItself(RECOVERY_LIST);
    ItemAt(ResponseToJson(es).members, RECOVERY_LIST, true, 0);
    forall k | 0 <= k < |es| ensures Spells(ListJson(es)[k], es[k]) { EnvelopeSpelled(es[k]); }
  }

  /** What is read as the list is the item of that name, in any case of letters. */
  lemma ListReadOut(text: Bytes)
    ensures var v := ParseText(text, false);
            var list := if v.Some? then GetItem(v.value, Ascii("recoveryList"), false) else None;
            ListedItems(text) == (if list.Some? then Children(list.value) else [])
  {
    hide Ascii, Item, ParseText, RECOVERY_LIST;
    NamesSpelled();
  }

  /** One item of a list is printed and read again. */
  method ReadItem(v: Json) returns (e: Envelope)
    requires Readable(v)
    ensures FromJson(v) == Some(e)
  {
    hide Printed, Plain, FromJson, ParseText, Nesting;
    ParsePrinted(v, true, false);
    var text := JsonPrinter.Print(v, true);
    var read := DeserializeEnvelope(text.value);
    e := read.value;
  }

  class RecoveryResponse {
    var envelopes: seq<Envelope>

    constructor ()
      ensures envelopes == []
    {
      envelopes := [];
    }

    method SetEnvelopes(es: seq<Envelope>)
      modifies this
      ensures envelopes == es
    {
      envelopes := es;
    }

    /** The envelopes in order as the items of one array. */
    method Serialize() returns (text: Option<Bytes>)
      requires forall k :: 0 <= k < |envelopes| ==> Printable(envelopes[k])
      ensures text.Some? ==> text.value == Printed(ResponseToJson(envelopes), true, 0)
      ensures |Printed(ResponseToJson(envelopes), true, 0)| + 2 <= INT_MAX ==> text.Some?
      ensures text.Some? ==> ParseText(text.value, false).Some? && ListSpells(ParseText(text.value, false).value, envelopes)
    {
      hide ToJson, Plain, Printed, ParseText, ListSpells;
      ResponseSpelled(envelopes);
      ResponseRoundTrip(envelopes);
      var items: seq<Json> := [];
      var k := 0;
      while k < |envelopes|
        invariant 0 <= k <= |envelopes| && items == ListJson(envelopes)[..k]
      {
        items := items + [ToJson(envelopes[k])];
        k := k + 1;
      }
      assert items == ListJson(envelopes);
      ResponsePlain(envelopes);
      var v := Object([Member(RECOVERY_LIST, Array(items))]);
      text := JsonPrinter.Print(v, true);
    }

    /** Each item of the list is printed and read again, and the envelope is appended. Text that is no JSON, or
        has no list, adds nothing; a null in its place is reported. */
    method Deserialize(text: Bytes) returns (ok: bool)
      requires forall k :: 0 <= k < |ListedItems(text)| ==> Readable(ListedItems(text)[k])
      modifies this
      ensures ok <==> !NullAnswer(text)
      ensures envelopes == old(envelopes) + AllRead(ListedItems(text))
    {
      hide Readable, FromJson, Item, ParseText;
      var v := JsonParser.Parse(text, false);
      assert AllRead([]) == [] && envelopes + [] == envelopes;
      if v.Some? && v.value.Null? {
        return false;
      }
      var list := if v.Some? then GetItem(v.value, RECOVERY_LIST, false) else None;
      if list.Some? && list.value.Null? {
        return false;
      }
      var items := if list.Some? then Children(list.value) else [];
      assert items == ListedItems(text);
      var k := 0;
      while k < |items|
        invariant 0 <= k <= |items| && envelopes == old(envelopes) + AllRead(items)[..k]
      {
        var e := ReadItem(items[k]);
        envelopes := envelopes + [e];
        k := k + 1;
      }
      assert AllRead(items)[..|items|] == AllRead(items);
      ok := true;
    }
  }

  /** The children of an array or object; other values have none. */
  function Children(v: Json): seq<Json> {
    match v
    case Array(items) => items
    case Object(members) => seq(|members|, k requires 0 <= k < |members| => members[k].value)
    case _ => []
  }

  function ListedItems(text: Bytes): seq<Json> {
    match ParseText(text, false)
    case None => []
    case Some(v) =>
      match GetItem(v, RECOVERY_LIST, false)
      case None => []
      case Some(list) => Children(list)
  }

  predicate NullAnswer(text: Bytes) {
    match ParseText(text, false)
    case None => false
    case Some(v) =>
      v.Null? || (GetItem(v, RECOVERY_LIST, false).Some? && GetItem(v, RECOVERY_LIST, false).value.Null?)
  }

  /** An item that prints and holds every string an envelope reads. */
  predicate Readable(v: Json) {
    Plain(v) && Nesting(v) <= NESTING_LIMIT && |Printed(v, true, 0)| + 2 <= INT_MAX && FromJson(v).Some?
  }

  function AllRead(items: seq<Json>): (es: seq<Envelope>)
    requires forall k :: 0 <= k < |items| ==> Readable(items[k])
    ensures |es| == |items| && forall k :: 0 <= k < |items| ==> Readable(items[k]) && es[k] == FromJson(items[k]).value
  {
    seq(|items|, k requires 0 <= k < |items| => assert Readable(items[k]); FromJson(items[k]).value)
  }

  /** A recovery answer, of any length, delivers its envelopes in order as they are received one by one. */
  lemma ResponseDelivers(es: seq<Envelope>)
    requires forall k :: 0 <= k < |es| ==> Printable(es[k]) && |Printed(ToJson(es[k]), true, 0)| + 2 <= INT_MAX
    ensures var text := Printed(ResponseToJson(es), true, 0);
            && !NullAnswer(text) && ListedItems(text) == ListJson(es)
            && (forall k :: 0 <= k < |es| ==> Readable(ListJson(es)[k]))
            && AllRead(ListJson(es)) == AllReceived(es)
  {
    hide Printed, Plain, ToJson, FromJson, Received, Item;
    ResponseRoundTrip(es);
    forall k | 0 <= k < |es| ensures Readable(ListJson(es)[k]) && FromJson(ListJson(es)[k]).value == Received(es[k]) {
      ToJsonPlain(es[k]);
      FieldsRead(es[k]);
    }
    assert AllRead(ListJson(es)) == AllReceived(es);
  }
}
