/** The publish and recover protocol: numbered messages over a lossy channel, gaps repaired by request and reply
    (subscriber.cpp, publisher.cpp, persistent_storage.cpp). */
module Delivery {
  import opened Keys
  import opened JsonString
  import opened JsonText
  import opened Messages

  // ---- The subscriber ----------------------------------------------------------------------

  /** What a subscriber remembers; `pushed` is every envelope it ever put into its queue. */
  datatype Sub = Sub(last: int, recovering: bool, pushed: seq<Envelope>)

  /** do_recovery up to the request: refused while one is under way; an empty range leaves the mark set. */
  function Asked(s: Sub, start: int, end: int): (Sub, Option<RecoveryRequest>) {
    if s.recovering then (s, None)
    else if start > end then (s.(recovering := true), None)
    else (s.(recovering := true), Some(RecoveryRequest(start, end)))
  }

  /** A published message arrives. */
  function OnMessage(s: Sub, e: Envelope): (Sub, Option<RecoveryRequest>) {
    if e.sequenceNumber > s.last + 1 then Asked(s, s.last + 1, e.sequenceNumber)
    else if e.sequenceNumber < s.last + 1 then (s, None)
    else (s.(last := e.sequenceNumber, pushed := s.pushed + [e]), None)
  }

  /** Of a reply, what is newer than anything seen is taken. */
  function Taken(s: Sub, es: seq<Envelope>): Sub
    decreases |es|
  {
    if es == [] then s
    else if es[0].sequenceNumber > s.last then
      Taken(s.(last := es[0].sequenceNumber, pushed := s.pushed + [es[0]]), es[1..])
    else Taken(s, es[1..])
  }

  /** A reply arrives, or the wait for it fails. */
  function OnReply(s: Sub, reply: Option<seq<Envelope>>): Sub {
    (if reply.Some? then Taken(s, reply.value) else s).(recovering := false)
  }

  lemma {:induction false} TakenSnoc(s: Sub, es: seq<Envelope>, e: Envelope)
    ensures Taken(s, es + [e]) ==
            var t := Taken(s, es);
            if e.sequenceNumber > t.last then t.(last := e.sequenceNumber, pushed := t.pushed + [e]) else t
    decreases |es|
  {
    if es == [] {
      assert [] + [e] == [e];
    } else {
      assert (es + [e])[1..] == es[1..] + [e];
      var s' := if es[0].sequenceNumber > s.last then s.(last := es[0].sequenceNumber, pushed := s.pushed + [es[0]]) else s;
      TakenSnoc(s', es[1..], e);
    }
  }

  class Subscriber {
    var sequenceNumber: int
    var isRecoveringNow: bool
    var messageEnvelopes: seq<Envelope>
    ghost var pushed: seq<Envelope>

    ghost function Abs(): Sub
      reads this
    {
      Sub(sequenceNumber, isRecoveringNow, pushed)
    }

    /** The queue holds the last of what was pushed. */
    ghost predicate Valid()
      reads this
    {
      |messageEnvelopes| <= |pushed| && messageEnvelopes == pushed[|pushed| - |messageEnvelopes|..]
    }

    /** How many of the pushed envelopes were polled. */
    ghost function Polled(): int
      reads this
    {
      |pushed| - |messageEnvelopes|
    }

    constructor (last: int)
      ensures Valid() && Abs() == Sub(last, false, [])
    {
      sequenceNumber, isRecoveringNow, messageEnvelopes, pushed := last, false, [], [];
    }

    method BeginRecovery(start: int, end: int) returns (q: Option<RecoveryRequest>)
      requires Valid()
      modifies this
      ensures Valid() && (Abs(), q) == Asked(old(Abs()), start, end) && messageEnvelopes == old(messageEnvelopes)
    {
      if isRecoveringNow {
        return None;
      }
      isRecoveringNow := true;
      if start > end {
        return None;
      }
      q := Some(RecoveryRequest(start, end));
    }

    /** The recovery a subscriber begins with (startup): from its last number on, the end left open. */
    method Startup() returns (q: Option<RecoveryRequest>)
      requires Valid()
      modifies this
      ensures Valid() && (Abs(), q) == Asked(old(Abs()), old(sequenceNumber), 0)
    {
      q := BeginRecovery(sequenceNumber, 0);
    }

    method Push(e: Envelope)
      requires Valid()
      modifies this
      ensures Valid() && pushed == old(pushed) + [e] && messageEnvelopes == old(messageEnvelopes) + [e]
      ensures isRecoveringNow == old(isRecoveringNow) && sequenceNumber == old(sequenceNumber)
    {
      messageEnvelopes := messageEnvelopes + [e];
      pushed := pushed + [e];
    }

    /** One turn of the receiving loop (thread_fn). */
    method Receive(e: Envelope) returns (q: Option<RecoveryRequest>)
      requires Valid()
      modifies this
      ensures Valid() && (Abs(), q) == OnMessage(old(Abs()), e)
    {
      q := None;
      if e.sequenceNumber > sequenceNumber + 1 {
        q := BeginRecovery(sequenceNumber + 1, e.sequenceNumber);
        return;
      }
      if e.sequenceNumber < sequenceNumber + 1 {
        return;
      }
      Push(e);
      sequenceNumber := e.sequenceNumber;
    }

    /** The rest of do_recovery: take the reply, or give up on an error. */
    method EndRecovery(reply: Option<seq<Envelope>>)
      requires Valid()
      modifies this
      ensures Valid() && Abs() == OnReply(old(Abs()), reply)
    {
      if reply.Some? {
        var missed := reply.value;
        var k := 0;
        assert missed[..0] == [];
        while k < |missed|
          invariant 0 <= k <= |missed| && Valid() && Abs() == Taken(old(Abs()), missed[..k])
        {
          TakenSnoc(old(Abs()), missed[..k], missed[k]);
          assert missed[..k+1] == missed[..k] + [missed[k]];
          if missed[k].sequenceNumber > sequenceNumber {
            sequenceNumber := missed[k].sequenceNumber;
            Push(missed[k]);
          }
          k := k + 1;
        }
        assert missed[..k] == missed;
      }
      isRecoveringNow := false;
    }

    /** The five-second timer of a recovery (recovery_time_controller_thread_fn). */
    method TimeOut()
      requires Valid()
      modifies this
      ensures Valid() && Abs() == old(Abs()).(recovering := false) && messageEnvelopes == old(messageEnvelopes)
    {
      if isRecoveringNow {
        isRecoveringNow := false;
      }
    }

    /** Hand out the oldest queued envelope and keep a copy of it (poll). */
    method Poll(storage: Storage) returns (e: Option<Envelope>)
      requires Valid() && storage.Valid()
      requires messageEnvelopes != [] ==> storage.CanStore(messageEnvelopes[0])
      modifies this, storage
      ensures Valid() && storage.Valid() && Abs() == old(Abs())
      ensures e == if old(messageEnvelopes) == [] then None else Some(old(messageEnvelopes)[0])
      ensures e.Some? ==> messageEnvelopes == old(messageEnvelopes)[1..] && 0 <= old(Polled()) < |pushed|
      ensures e.Some? ==> Polled() == old(Polled()) + 1 && e.value == pushed[old(Polled())]
      ensures e.Some? ==> storage.log == old(storage.log) + [Numbered(e.value, |old(storage.log)| + 1)]
      ensures e.None? ==> messageEnvelopes == [] && storage.log == old(storage.log)
    {
      if messageEnvelopes == [] {
        return None;
      }
      var first := messageEnvelopes[0];
      messageEnvelopes := messageEnvelopes[1..];
      storage.StoreMessage(first);
      e := Some(first);
    }
  }

  // ---- Storage -----------------------------------------------------------------------------

  function Numbered(e: Envelope, n: nat): Envelope { e.(sequenceNumber := n) }

  /** A message whose text can be written, with a number in int range. */
  predicate Storable(e: Envelope) {
    Printable(e) && 1 <= e.sequenceNumber <= INT_MAX && |Printed(ToJson(e), true, 0)| + 2 <= INT_MAX
  }

  /** The messages written so far from `start` up to `last`, as they are received. */
  function Stretch(log: seq<Envelope>, drained: nat, start: int, last: int): seq<Envelope>
    requires drained <= |log|
  {
    var lo := if start < 1 then 1 else start;
    var hi := if last > drained then drained else last;
    if lo > hi then [] else AllReceived(log[lo-1..hi])
  }

  /** What reading messages `start` to `end` back gives; an end of 0 stands for the last one. */
  function ReadBack(log: seq<Envelope>, drained: nat, start: int, end: int): seq<Envelope>
    requires drained <= |log|
  {
    Stretch(log, drained, start, if end == 0 then |log| else end)
  }

  /** Every message written from `start` on, up to `end` or, for an end of 0, up to the last one. */
  lemma ReadBackHolds(log: seq<Envelope>, drained: nat, start: int, end: int)
    requires drained <= |log|
    ensures var es := ReadBack(log, drained, start, end);
            var lo, top := if start < 1 then 1 else start, if end == 0 || end > drained then drained else end;
            && |es| == (if top < lo then 0 else top + 1 - lo)
            && forall k :: 0 <= k < |es| ==> es[k] == Received(log[lo - 1 + k])
  {
    hide Received, AllReceived, Stretch;
    var lo, top := if start < 1 then 1 else start, if end == 0 || end > drained then drained else end;
    StretchIs(log, drained, start, if end == 0 then |log| else end, lo, top);
    if lo <= top { AtReceived(log, lo, top); }
  }

  lemma StretchIs(log: seq<Envelope>, drained: nat, start: int, last: int, lo: int, top: int)
    requires drained <= |log| && lo == (if start < 1 then 1 else start) && top == (if last > drained then drained else last)
    ensures Stretch(log, drained, start, last) == if lo > top then [] else AllReceived(log[lo-1..top])
  {
    hide AllReceived;
  }

  lemma AtReceived(log: seq<Envelope>, lo: nat, top: nat)
    requires 1 <= lo <= top <= |log|
    ensures var es := AllReceived(log[lo-1..top]);
            |es| == top + 1 - lo && forall k :: 0 <= k < |es| ==> es[k] == Received(log[lo - 1 + k])
  {
    hide Received;
  }

  lemma StretchNone(log: seq<Envelope>, drained: nat, start: int)
    requires drained <= |log|
    ensures forall i :: i < start || i < 1 || drained == 0 ==> Stretch(log, drained, start, i) == []
  {
  }

  lemma StretchSnoc(log: seq<Envelope>, drained: nat, start: int, i: int)
    requires drained <= |log|
    ensures if start <= i && 1 <= i <= drained
            then Stretch(log, drained, start, i) == Stretch(log, drained, start, i - 1) + [Received(log[i-1])]
            else Stretch(log, drained, start, i) == Stretch(log, drained, start, i - 1)
  {
    hide Received;
    var lo := if start < 1 then 1 else start;
    if lo < i <= drained {
      assert log[lo-1..i] == log[lo-1..i-1] + [log[i-1]];
    }
  }

  /** Messages stored under their numbers, written by a second thread from a queue (LmdbStorage). `log` is every
      message numbered so far. */
  class Storage {
    var sequenceNumber: nat
    var queue: seq<Envelope>
    var db: map<nat, Bytes>
    ghost var log: seq<Envelope>

    ghost predicate Valid()
      reads this
    {
      && sequenceNumber == |log| && |queue| <= |log| && queue == log[|log| - |queue|..]
      && (forall k :: 0 <= k < |log| ==> Storable(log[k]) && log[k].sequenceNumber == k + 1)
      && (forall n :: n in db <==> 1 <= n <= |log| - |queue|)
      && (forall n :: n in db ==> db[n] == Printed(ToJson(log[n-1]), true, 0))
    }

    ghost function Drained(): nat
      requires Valid()
      reads this
    {
      |log| - |queue|
    }

    predicate CanStore(e: Envelope)
      reads this
    {
      Storable(Numbered(e, sequenceNumber + 1))
    }

    constructor ()
      ensures Valid() && log == []
    {
      sequenceNumber, queue, db, log := 0, [], map[], [];
    }

    /** Number a message after the last one and queue it. */
    method StoreMessage(e: Envelope)
      requires Valid() && CanStore(e)
      modifies this
      ensures Valid() && log == old(log) + [Numbered(e, |old(log)| + 1)] && db == old(db)
      ensures queue == old(queue) + [Numbered(e, |old(log)| + 1)]
    {
      sequenceNumber := sequenceNumber + 1;
      var numbered := e.(sequenceNumber := sequenceNumber);
      queue := queue + [numbered];
      log := log + [numbered];
    }

    /** One turn of the writing thread. */
    method WriteOne()
      requires Valid()
      modifies this
      ensures Valid() && log == old(log)
      ensures Drained() == if old(queue) == [] then old(Drained()) else old(Drained()) + 1
    {
      hide Printed, ToJson, Printable, Storable, ParseText, Spells;
      if queue != [] {
        var e := queue[0];
        ghost var k := |log| - |queue|;
        OldestQueued();
        queue := queue[1..];
        var text := SerializeEnvelope(e);
        db := db[e.sequenceNumber := text.value];
      }
    }

    lemma OldestQueued()
      requires Valid() && queue != []
      ensures var k := |log| - |queue|; var e := queue[0];
              && e == log[k] && e.sequenceNumber == k + 1 && queue[1..] == log[k+1..]
              && Printable(e) && |Printed(ToJson(e), true, 0)| + 2 <= INT_MAX
    {
      hide Printed, ToJson, Printable;
      var k := |log| - |queue|;
      assert queue[0] == log[k] && Storable(log[k]);
    }

    /** What is under one key. */
    method ReadKey(i: int) returns (e: Option<Envelope>)
      requires Valid()
      ensures e == if 1 <= i <= Drained() then Some(Received(log[i-1])) else None
    {
      hide Printed, ToJson, FromJson, Received, Storable;
      if i in db {
        ReadsAs(log[i-1]);
        e := DeserializeEnvelope(db[i]);
      } else {
        e := None;
      }
    }

    /** Messages by number, key by key; missing keys are skipped. Nothing is written meanwhile. */
    method GetMessages(start: int, end: int) returns (es: seq<Envelope>)
      requires Valid()
      ensures es == ReadBack(log, Drained(), start, end)
      ensures var lo, top := if start < 1 then 1 else start, if end == 0 || end > Drained() then Drained() else end;
              && |es| == (if top < lo then 0 else top + 1 - lo)
              && forall k :: 0 <= k < |es| ==> es[k] == Received(log[lo - 1 + k])
    {
      hide Received, Stretch, Valid, Drained;
      ghost var whole, drained := log, Drained();
      WholeLog();
      StretchNone(whole, drained, start);
      ReadBackHolds(whole, drained, start, end);
      es := [];
      var from := if start == 0 then 1 else start;
      if sequenceNumber == 0 {
        return;
      }
      var last := if end == 0 then sequenceNumber else end;
      var i := from;
      while i < last + 1
        invariant from <= i && (i <= last + 1 || i == from) && es == Stretch(whole, drained, start, i - 1)
        invariant Valid() && log == whole && Drained() == drained
        decreases last + 1 - i
      {
        StretchSnoc(whole, drained, start, i);
        var e := ReadKey(i);
        if e.Some? {
          es := es + [e.value];
        }
        i := i + 1;
      }
    }

    lemma WholeLog()
      requires Valid()
      ensures sequenceNumber == |log| && Drained() <= |log|
    {
    }
  }

  /** A stored text reads as the received envelope. */
  lemma ReadsAs(e: Envelope)
    requires Storable(e)
    ensures ParseText(Printed(ToJson(e), true, 0), false) == Some(ToJson(e)) && FromJson(ToJson(e)) == Some(Received(e))
  {
    hide Printed, ToJson, FromJson, Received;
    EnvelopeRoundTrip(e);
  }

  // ---- The publisher -----------------------------------------------------------------------

  class Publisher {
    var incoming: seq<Envelope>
    var sequenceNumber: int
    const storage: Storage

    constructor (storage: Storage)
      ensures this.storage == storage && incoming == []
    {
      this.storage, incoming, sequenceNumber := storage, [], 0;
    }

    method Publish(e: Envelope)
      modifies this
      ensures incoming == old(incoming) + [e]
    {
      incoming := incoming + [e];
    }

    /** Number the oldest message, store it, then send its text (pub_thread_fn). */
    method PublishNext() returns (sent: Option<Bytes>)
      requires storage.Valid() && (incoming != [] ==> storage.CanStore(incoming[0]))
      modifies this, storage
      ensures storage.Valid()
      ensures old(incoming) == [] ==> sent.None? && storage.log == old(storage.log) && incoming == []
      ensures old(incoming) != [] ==>
                var e := Numbered(old(incoming)[0], |old(storage.log)| + 1);
                && incoming == old(incoming)[1..] && storage.log == old(storage.log) + [e]
                && sent == Some(Printed(ToJson(e), true, 0))
    {
      hide Printed, ToJson;
      if incoming == [] {
        return None;
      }
      var e := incoming[0];
      incoming := incoming[1..];
      sequenceNumber := sequenceNumber + 1;
      e := e.(sequenceNumber := storage.sequenceNumber + 1);
      storage.StoreMessage(e);
      sent := SerializeEnvelope(e);
    }

    /** Answer a recovery request from the storage (rep_thread_fn). */
    method Answer(q: RecoveryRequest) returns (es: seq<Envelope>)
      requires storage.Valid()
      ensures es == ReadBack(storage.log, storage.Drained(), q.start, q.end)
      ensures var drained := storage.Drained();
              var lo, top := if q.start < 1 then 1 else q.start, if q.end == 0 || q.end > drained then drained else q.end;
              && |es| == (if top < lo then 0 else top + 1 - lo)
              && forall k :: 0 <= k < |es| ==> es[k] == Received(storage.log[lo - 1 + k])
    {
      hide Received, ReadBack, Storage.Valid, Storage.Drained;
      es := storage.GetMessages(q.start, q.end);
    }

    /** The text of the answer, as it is sent. */
    method Reply(q: RecoveryRequest) returns (text: Option<Bytes>)
      requires storage.Valid()
      ensures var es := ReadBack(storage.log, storage.Drained(), q.start, q.end);
              && (text.Some? ==> text.value == Printed(ResponseToJson(es), true, 0))
              && (|Printed(ResponseToJson(es), true, 0)| + 2 <= INT_MAX ==> text.Some?)
    {
      hide Printed, ResponseToJson, ReadBack;
      var es := Answer(q);
      PrintableAnswer(storage.log, storage.Drained(), q.start, q.end);
      var response := new RecoveryResponse();
      response.SetEnvelopes(es);
      text := response.Serialize();
    }
  }

  lemma PrintableAnswer(log: seq<Envelope>, drained: nat, start: int, end: int)
    requires drained <= |log|
    ensures var es := ReadBack(log, drained, start, end);
            forall k :: 0 <= k < |es| ==> Printable(es[k])
  {
    hide Printable;
    forall e: Envelope ensures Printable(Received(e)) { ReceivedPrintable(e); }
  }

  lemma ReceivedPrintable(e: Envelope)
    ensures Printable(Received(e))
  {
    hide CString;
  }
}
