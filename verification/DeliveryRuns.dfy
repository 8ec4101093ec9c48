/** Every run of the protocol: published messages lost, repeated or reordered, replies read key by key while messages
    are being written, and lost, late or stale. */
module DeliveryRuns {
  import opened Keys
  import opened JsonString
  import opened JsonText
  import opened Messages
  import opened Delivery

  /** The answering thread: `seen` is how many messages were written when each key so far was read, `written` how many
      when it began. */
  datatype Job = Idle | Reading(from: nat, last: int, written: nat, seen: seq<nat>, got: seq<Envelope>)

  /** The publisher's messages and how many of them are written; the subscriber, the copies in its own storage and how
      many envelopes were polled; every request and reply sent so far, any of which may still arrive. */
  datatype Net = Net(
    log: seq<Envelope>, drained: nat, job: Job, sub: Sub, awaiting: bool, own: seq<Envelope>, polled: nat,
    asked: set<RecoveryRequest>, replies: set<seq<Envelope>>)

  datatype Step =
    | Publish(e: Envelope) | Drain | Arrive(n: nat) | Startup | Poll
    | BeginAnswer(q: RecoveryRequest) | ReadKey | EndAnswer
    | Receive(r: seq<Envelope>) | Fail | TimeOut

  predicate Can(s: Net, step: Step) {
    match step
    case Publish(e) => Storable(Numbered(e, |s.log| + 1))
    case Drain => s.drained < |s.log|
    case Arrive(n) => !s.awaiting && n < |s.log|
    case Startup => !s.awaiting
    case Poll => s.polled < |s.sub.pushed|
    case BeginAnswer(q) => q in s.asked && s.job.Idle?
    case ReadKey => s.job.Reading? && s.job.from + |s.job.seen| <= s.job.last && s.drained <= |s.log|
    case EndAnswer => s.job.Reading? && s.job.from + |s.job.seen| > s.job.last
    case Receive(r) => s.awaiting && r in s.replies
    case Fail => s.awaiting
    case TimeOut => true
  }

  /** A request as the publisher reads it. */
  function Crossed(q: RecoveryRequest): RecoveryRequest { RecoveryRequest(Clamp(q.start), Clamp(q.end)) }

  function Waiting(s: Net, r: (Sub, Option<RecoveryRequest>)): Net {
    match r.1
    case None => s.(sub := r.0)
    case Some(q) => s.(sub := r.0, awaiting := true, asked := s.asked + {q})
  }

  /** What one key gives: the message under it, or nothing when it is not written yet. */
  function KeyRead(log: seq<Envelope>, drained: nat, key: nat): seq<Envelope>
    requires drained <= |log|
  {
    if 1 <= key <= drained then [Received(log[key-1])] else []
  }

  /** Begin an answer: an end of 0 stands for the last number, and before the first message there is nothing to read. */
  function Begun(s: Net, q: RecoveryRequest): Job {
    var p := Crossed(q);
    var from := if p.start < 1 then 1 else p.start;
    Reading(from, if s.log == [] then 0 else if p.end == 0 then |s.log| else p.end, s.drained, [], [])
  }

  function Do(s: Net, step: Step): Net
    requires Can(s, step)
  {
    match step
    case Publish(e) => s.(log := s.log + [Numbered(e, |s.log| + 1)])
    case Drain => s.(drained := s.drained + 1)
    case Arrive(n) => Waiting(s, OnMessage(s.sub, Received(s.log[n])))
    case Startup => Waiting(s, Asked(s.sub, s.sub.last, 0))
    case Poll => s.(own := s.own + [Numbered(s.sub.pushed[s.polled], |s.own| + 1)], polled := s.polled + 1)
    case BeginAnswer(q) => s.(job := Begun(s, q))
    case ReadKey =>
      var j := s.job;
      s.(job := j.(seen := j.seen + [s.drained], got := j.got + KeyRead(s.log, s.drained, j.from + |j.seen|)))
    case EndAnswer => s.(job := Idle, replies := s.replies + {AllReceived(s.job.got)})
    case Receive(r) => s.(sub := OnReply(s.sub, Some(r)), awaiting := false)
    case Fail => s.(sub := OnReply(s.sub, None), awaiting := false)
    case TimeOut => s.(sub := s.sub.(recovering := false))
  }

  /** A subscriber whose storage has the first `s0` messages, beside a publisher that numbered its messages from 1 on. */
  predicate Init(s: Net, s0: nat) {
    && LogOK(s.log) && s.drained <= |s.log| && s0 <= |s.log| && s.job.Idle?
    && s.sub == Sub(s0, false, []) && !s.awaiting && s.asked == {} && s.replies == {}
    && s.own == AllReceived(s.log[..s0]) && s.polled == 0
  }

  predicate LogOK(log: seq<Envelope>) {
    forall k :: 0 <= k < |log| ==> Storable(log[k]) && log[k].sequenceNumber == k + 1
  }

  ghost predicate Run(states: seq<Net>, steps: seq<Step>, s0: nat) {
    && |states| == |steps| + 1 && Init(states[0], s0)
    && forall i :: 0 <= i < |steps| ==> Can(states[i], steps[i]) && states[i+1] == Do(states[i], steps[i])
  }

  // ---- Reading while messages are being written --------------------------------------------

  /** The numbers a reply holds when keys from `start` on are read one by one and `ds` messages are written by then. */
  function KeyByKey(start: nat, ds: seq<nat>): seq<nat>
    decreases |ds|
  {
    if ds == [] then []
    else (if start <= ds[0] then [start] else []) + KeyByKey(start + 1, ds[1..])
  }

  /** Writing goes on while the keys are read, from `drained` messages up to `total` at most. */
  predicate Writing(ds: seq<nat>, drained: nat, total: nat) {
    && (forall k :: 0 <= k < |ds| ==> drained <= ds[k] <= total)
    && (forall j, k :: 0 <= j < k < |ds| ==> ds[j] <= ds[k])
  }

  predicate GapFree(ns: seq<nat>, start: nat) { forall k :: 0 <= k < |ns| ==> ns[k] == start + k }

  predicate RisingFrom(ns: seq<nat>, start: nat) {
    (forall k :: 0 <= k < |ns| ==> ns[k] >= start) && forall j, k :: 0 <= j < k < |ns| ==> ns[j] < ns[k]
  }

  lemma RisingLonger(ns: seq<nat>, start: nat)
    requires RisingFrom(ns, start + 1)
    ensures RisingFrom(ns, start) && RisingFrom([start] + ns, start)
  {
  }

  /** Whatever is written meanwhile, a reply ascends strictly. */
  lemma {:induction false} KeyByKeyAscends(start: nat, ds: seq<nat>)
    ensures RisingFrom(KeyByKey(start, ds), start)
    decreases |ds|
  {
    hide RisingFrom;
    if ds == [] {
      assert RisingFrom([], start) by { RisingNone(start); }
    } else {
      var rest := KeyByKey(start + 1, ds[1..]);
      KeyByKeyAscends(start + 1, ds[1..]);
      RisingLonger(rest, start);
      assert [] + rest == rest;
    }
  }

  lemma RisingNone(start: nat)
    ensures RisingFrom([], start)
  {
  }

  lemma {:induction false} NothingWritten(start: nat, ds: seq<nat>)
    requires forall k :: 0 <= k < |ds| ==> ds[k] < start + k
    ensures KeyByKey(start, ds) == []
    decreases |ds|
  {
    if ds != [] {
      forall k | 0 <= k < |ds| - 1 ensures ds[1..][k] < start + 1 + k { assert ds[k+1] < start + (k + 1); }
      NothingWritten(start + 1, ds[1..]);
    }
  }

  lemma {:induction false} ReadWithoutGap(start: nat, ds: seq<nat>, drained: nat, total: nat)
    requires start >= 1 && Writing(ds, drained, total)
    requires ds == [] || start + |ds| - 1 <= start || start + |ds| - 1 <= drained + 1 || total <= start || total <= drained + 1
    ensures GapFree(KeyByKey(start, ds), start)
    decreases |ds|
  {
    if ds != [] {
      var rest := ds[1..];
      if start <= ds[0] {
        forall k | 0 <= k < |rest| ensures start + 1 <= rest[k] || total <= start || rest[k] <= total { assert rest[k] == ds[k+1]; }
        if total <= start {
          forall k | 0 <= k < |rest| ensures rest[k] < start + 1 + k { assert rest[k] == ds[k+1] <= total; }
          NothingWritten(start + 1, rest);
        } else {
          ReadWithoutGap(start + 1, rest, drained, total);
        }
      } else {
        forall k | 0 <= k < |rest| ensures rest[k] < start + 1 + k {
          assert rest[k] == ds[k+1] <= total;
        }
        NothingWritten(start + 1, rest);
      }
    }
  }

  /** When writing catches up right after a key was missed, the reply skips it. */
  lemma {:induction false} SkippedKey(start: nat, ds: seq<nat>, miss: nat)
    requires start <= miss && miss + 1 < start + |ds|
    requires forall k :: 0 <= k < |ds| ==> ds[k] == if start + k <= miss then miss - 1 else ds[|ds|-1]
    requires miss >= 1 && ds[|ds|-1] >= miss + 1
    ensures !GapFree(KeyByKey(start, ds), start)
    decreases |ds|
  {
    var rest := ds[1..];
    forall k | 0 <= k < |rest| ensures rest[k] == if start + 1 + k <= miss then miss - 1 else ds[|ds|-1] { assert rest[k] == ds[k+1]; }
    if start < miss {
      assert rest[|rest|-1] == ds[|ds|-1];
      SkippedKey(start + 1, rest, miss);
      var ns, ns' := KeyByKey(start, ds), KeyByKey(start + 1, rest);
      assert ns == [start] + ns';
      if GapFree(ns, start) {
        forall k | 0 <= k < |ns'| ensures ns'[k] == start + 1 + k { assert ns[k+1] == ns'[k]; }
      }
    } else {
      assert rest[0] == ds[1] >= start + 1;
      assert KeyByKey(start, ds) == [] + KeyByKey(start + 1, rest);
      assert KeyByKey(start + 1, rest) == [start + 1] + KeyByKey(start + 2, rest[1..]);
      assert KeyByKey(start, ds)[0] == start + 1;
    }
  }

  /** A reply read key by key is without a gap, however writing goes on, exactly when at most one of the requested
      messages that exist is still unwritten past the first key. */
  lemma KeyByKeyExact(start: nat, end: nat, drained: nat, total: nat)
    requires 1 <= start <= end && drained <= total
    ensures (forall ds :: |ds| == end + 1 - start && Writing(ds, drained, total) ==> GapFree(KeyByKey(start, ds), start))
            <==> end <= start || end <= drained + 1 || total <= start || total <= drained + 1
  {
    if end <= start || end <= drained + 1 || total <= start || total <= drained + 1 {
      forall ds | |ds| == end + 1 - start && Writing(ds, drained, total) ensures GapFree(KeyByKey(start, ds), start) {
        ReadWithoutGap(start, ds, drained, total);
      }
    } else {
      var miss := if start > drained + 1 then start else drained + 1;
      var ds := seq(end + 1 - start, k requires 0 <= k < end + 1 - start => if start + k <= miss then miss - 1 else total);
      assert Writing(ds, drained, total);
      SkippedKey(start, ds, miss);
    }
  }

  lemma KeyByKeyHead(start: nat, d: nat, ds: seq<nat>)
    ensures KeyByKey(start, [d] + ds) == (if start <= d then [start] else []) + KeyByKey(start + 1, ds)
    ensures KeyByKey(start, []) == []
  {
    assert ([d] + ds)[1..] == ds;
  }

  lemma {:induction false} KeyByKeySnoc(start: nat, ds: seq<nat>, d: nat)
    ensures KeyByKey(start, ds + [d]) == KeyByKey(start, ds) + (if start + |ds| <= d then [start + |ds|] else [])
    decreases |ds|
  {
    hide KeyByKey;
    if ds == [] {
      KeyByKeyHead(start, d, []);
      KeyByKeyHead(start + 1, d, []);
      assert [] + [d] == [d] + [];
    } else {
      var rest := ds[1..];
      KeyByKeySnoc(start + 1, rest, d);
      KeyByKeyHead(start, ds[0], rest);
      KeyByKeyHead(start, ds[0], rest + [d]);
      assert [ds[0]] + rest == ds && [ds[0]] + (rest + [d]) == ds + [d];
    }
  }

  lemma {:induction false} KeyByKeyWritten(start: nat, ds: seq<nat>, drained: nat)
    requires forall k :: 0 <= k < |ds| ==> ds[k] <= drained
    ensures forall k :: 0 <= k < |KeyByKey(start, ds)| ==> start <= KeyByKey(start, ds)[k] <= drained
    decreases |ds|
  {
    if ds != [] {
      KeyByKeyWritten(start + 1, ds[1..], drained);
    }
  }

  // ---- What every step keeps ---------------------------------------------------------------

  lemma ReceivedNumber(e: Envelope)
    requires Storable(e)
    ensures Received(e).sequenceNumber == e.sequenceNumber
  {
    hide Printed;
  }

  lemma ReceivedAgain(e: Envelope)
    ensures Received(Received(e)) == Received(e)
  {
    CStringTwice(e.uuid);
    CStringTwice(e.topic);
    CStringTwice(e.error);
    CStringTwice(e.body);
  }

  lemma CStringTwice(s: Bytes)
    ensures CString(CString(s)) == CString(s)
  {
    CStringNoZero(s);
    CStringWhole(CString(s));
  }

  /** Messages of the log, as received, with strictly ascending numbers. */
  ghost predicate Picks(log: seq<Envelope>, r: seq<Envelope>) {
    && (forall k :: 0 <= k < |r| ==> IsLogged(log, r[k]))
    && forall j, k :: 0 <= j < k < |r| ==> r[j].sequenceNumber < r[k].sequenceNumber
  }

  ghost predicate IsLogged(log: seq<Envelope>, e: Envelope) {
    1 <= e.sequenceNumber <= |log| && e == Received(log[e.sequenceNumber - 1])
  }

  function Fetched(log: seq<Envelope>, ns: seq<nat>): (es: seq<Envelope>)
    requires forall k :: 0 <= k < |ns| ==> 1 <= ns[k] <= |log|
    ensures |es| == |ns| && forall k :: 0 <= k < |ns| ==> es[k] == Received(log[ns[k] - 1])
  {
    seq(|ns|, k requires 0 <= k < |ns| => Received(log[ns[k] - 1]))
  }

  /** The job holds what its keys gave when they were read. */
  ghost predicate JobOK(s: Net) {
    s.job.Reading? ==>
      var j := s.job;
      && 1 <= j.from <= s.sub.last + 1 && j.written <= s.drained <= |s.log|
      && Writing(j.seen, j.written, s.drained)
      && (forall k :: 0 <= k < |KeyByKey(j.from, j.seen)| ==> 1 <= KeyByKey(j.from, j.seen)[k] <= s.drained)
      && j.got == Fetched(s.log, KeyByKey(j.from, j.seen))
      && (j.seen != [] ==> j.from + |j.seen| - 1 <= j.last)
  }

  ghost predicate SubOK(log: seq<Envelope>, sub: Sub, s0: nat) {
    && s0 <= sub.last <= |log| && Picks(log, sub.pushed)
    && forall k :: 0 <= k < |sub.pushed| ==> s0 < sub.pushed[k].sequenceNumber <= sub.last
  }

  ghost predicate Inv(s: Net, s0: nat) {
    && LogOK(s.log) && s.drained <= |s.log| && SubOK(s.log, s.sub, s0) && s.polled <= |s.sub.pushed|
    && (forall q :: q in s.asked ==> 0 <= q.start <= s.sub.last + 1)
    && (forall r :: r in s.replies ==> Picks(s.log, r))
    && JobOK(s)
  }

  lemma LoggedNumber(log: seq<Envelope>, n: nat)
    requires LogOK(log) && 1 <= n <= |log|
    ensures Received(log[n-1]).sequenceNumber == n && IsLogged(log, Received(log[n-1]))
  {
    ReceivedNumber(log[n-1]);
  }

  lemma PicksGrow(log: seq<Envelope>, e: Envelope, r: seq<Envelope>)
    requires Picks(log, r)
    ensures Picks(log + [e], r)
  {
    hide Received;
  }

  lemma FetchedPicks(log: seq<Envelope>, ns: seq<nat>)
    requires LogOK(log) && forall k :: 0 <= k < |ns| ==> 1 <= ns[k] <= |log|
    requires RisingFrom(ns, 1)
    ensures Picks(log, Fetched(log, ns)) && AllReceived(Fetched(log, ns)) == Fetched(log, ns)
  {
    hide Received, LogOK, Picks;
    var es := Fetched(log, ns);
    forall k | 0 <= k < |ns| ensures es[k].sequenceNumber == ns[k] && IsLogged(log, es[k]) && Received(es[k]) == es[k] {
      LoggedNumber(log, ns[k]);
      ReceivedAgain(log[ns[k] - 1]);
    }
    PicksOf(log, es);
  }

  lemma PicksOf(log: seq<Envelope>, r: seq<Envelope>)
    requires forall k :: 0 <= k < |r| ==> IsLogged(log, r[k])
    requires forall j, k :: 0 <= j < k < |r| ==> r[j].sequenceNumber < r[k].sequenceNumber
    ensures Picks(log, r)
  {
    hide IsLogged;
  }

  /** Taking a reply appends messages of the log with numbers above all seen before. */
  lemma {:induction false} TakenPicks(log: seq<Envelope>, s: Sub, r: seq<Envelope>, s0: nat)
    requires SubOK(log, s, s0) && Picks(log, r)
    ensures SubOK(log, Taken(s, r), s0) && Grown(s, Taken(s, r)) && Taken(s, r).recovering == s.recovering
    decreases |r|
  {
    hide Received, IsLogged;
    if r != [] {
      assert IsLogged(log, r[0]);
      LoggedBounds(log, r[0]);
      var s' := if r[0].sequenceNumber > s.last then s.(last := r[0].sequenceNumber, pushed := s.pushed + [r[0]]) else s;
      assert Picks(log, r[1..]);
      TakenPicks(log, s', r[1..], s0);
    }
  }

  lemma LoggedBounds(log: seq<Envelope>, e: Envelope)
    requires IsLogged(log, e)
    ensures 1 <= e.sequenceNumber <= |log|
  {
  }

  /** The later subscriber has pushed more, and only messages above the last number of the earlier one. */
  ghost predicate Grown(s: Sub, t: Sub) {
    && s.last <= t.last && |s.pushed| <= |t.pushed| && t.pushed[..|s.pushed|] == s.pushed
    && forall k :: |s.pushed| <= k < |t.pushed| ==> t.pushed[k].sequenceNumber > s.last
  }

  lemma GrownSelf(s: Sub)
    ensures Grown(s, s)
  {
  }

  lemma InitInv(s: Net, s0: nat)
    requires Init(s, s0)
    ensures Inv(s, s0)
  {
  }

  lemma PublishInv(s: Net, e: Envelope, s0: nat)
    requires Inv(s, s0) && Can(s, Publish(e))
    ensures Inv(Do(s, Publish(e)), s0)
  {
    hide Storable, Received, Picks, KeyByKey, Writing;
    var t := Do(s, Publish(e));
    forall r | r in t.replies ensures Picks(t.log, r) {
      PicksGrow(s.log, Numbered(e, |s.log| + 1), r);
    }
    PicksGrow(s.log, Numbered(e, |s.log| + 1), s.sub.pushed);
    if t.job.Reading? {
      assert Fetched(t.log, KeyByKey(t.job.from, t.job.seen)) == Fetched(s.log, KeyByKey(t.job.from, t.job.seen));
    }
  }

  lemma PushedNext(log: seq<Envelope>, sub: Sub, s0: nat)
    requires LogOK(log) && SubOK(log, sub, s0) && sub.last < |log|
    ensures var t := sub.(last := sub.last + 1, pushed := sub.pushed + [Received(log[sub.last])]);
            SubOK(log, t, s0) && Grown(sub, t)
  {
    hide Received, Storable, IsLogged;
    LoggedNumber(log, sub.last + 1);
  }

  lemma ArriveInv(s: Net, n: nat, s0: nat)
    requires Inv(s, s0) && Can(s, Arrive(n))
    ensures Inv(Do(s, Arrive(n)), s0) && Grown(s.sub, Do(s, Arrive(n)).sub)
  {
    hide Received, KeyByKey, Writing, Storable, Picks;
    LoggedNumber(s.log, n + 1);
    if n == s.sub.last { PushedNext(s.log, s.sub, s0); }
  }

  lemma BeginInv(s: Net, q: RecoveryRequest, s0: nat)
    requires Inv(s, s0) && Can(s, BeginAnswer(q))
    ensures Inv(Do(s, BeginAnswer(q)), s0)
  {
    hide Received, Storable, Picks;
  }

  lemma ReadKeyInv(s: Net, s0: nat)
    requires Inv(s, s0) && Can(s, ReadKey)
    ensures Inv(Do(s, ReadKey), s0)
  {
    hide Received, Storable, Picks, KeyByKey;
    var j := s.job;
    var key := j.from + |j.seen|;
    KeyByKeySnoc(j.from, j.seen, s.drained);
    var ns := KeyByKey(j.from, j.seen);
    var more: seq<nat> := if key <= s.drained then [key] else [];
    assert Fetched(s.log, ns + more) == Fetched(s.log, ns) + KeyRead(s.log, s.drained, key);
  }

  lemma EndInv(s: Net, s0: nat)
    requires Inv(s, s0) && Can(s, EndAnswer)
    ensures Inv(Do(s, EndAnswer), s0)
  {
    hide Received, Storable, Picks, KeyByKey, LogOK;
    var j := s.job;
    KeyByKeyAscends(j.from, j.seen);
    FetchedPicks(s.log, KeyByKey(j.from, j.seen));
  }

  lemma DrainInv(s: Net, s0: nat)
    requires Inv(s, s0) && Can(s, Drain)
    ensures Inv(Do(s, Drain), s0)
  {
    hide Received, Storable, Picks, KeyByKey;
  }

  lemma ReceiveInv(s: Net, r: seq<Envelope>, s0: nat)
    requires Inv(s, s0) && Can(s, Receive(r))
    ensures Inv(Do(s, Receive(r)), s0) && Grown(s.sub, Do(s, Receive(r)).sub)
  {
    hide Received, Storable, Picks, KeyByKey, Taken;
    TakenPicks(s.log, s.sub, r, s0);
  }

  lemma StepInv(s: Net, step: Step, s0: nat)
    requires Inv(s, s0) && Can(s, step)
    ensures Inv(Do(s, step), s0) && Grown(s.sub, Do(s, step).sub)
  {
    hide Storable, Received, Picks, KeyByKey, Writing;
    match step
    case Publish(e) => PublishInv(s, e, s0); GrownSelf(s.sub);
    case Drain => DrainInv(s, s0); GrownSelf(s.sub);
    case Arrive(n) => ArriveInv(s, n, s0);
    case BeginAnswer(q) => BeginInv(s, q, s0); GrownSelf(s.sub);
    case ReadKey => ReadKeyInv(s, s0); GrownSelf(s.sub);
    case EndAnswer => EndInv(s, s0); GrownSelf(s.sub);
    case Receive(r) => ReceiveInv(s, r, s0);
    case Startup => GrownSelf(s.sub);
    case Poll => GrownSelf(s.sub);
    case Fail => GrownSelf(s.sub);
    case TimeOut => GrownSelf(s.sub);
  }

  lemma {:induction false} RunInv(states: seq<Net>, steps: seq<Step>, s0: nat, i: nat)
    requires Run(states, steps, s0) && i < |states|
    ensures Inv(states[i], s0)
  {
    hide Inv, Init, Can, Do, Grown;
    if i == 0 {
      InitInv(states[0], s0);
    } else {
      RunInv(states, steps, s0, i - 1);
      StepInv(states[i-1], steps[i-1], s0);
    }
  }

  // ---- Every run -----------------------------------------------------------------------------

  /** Whatever happens while replies are read, the subscriber pushes messages of the log with ascending numbers:
      none twice, none out of order, none that was not published. */
  lemma AscendingInEveryRun(states: seq<Net>, steps: seq<Step>, s0: nat, i: nat)
    requires Run(states, steps, s0) && i < |states|
    ensures var s := states[i]; var pushed := s.sub.pushed;
            && s0 <= s.sub.last <= |s.log|
            && (forall k :: 0 <= k < |pushed| ==> s0 < pushed[k].sequenceNumber <= s.sub.last)
            && (forall k :: 0 <= k < |pushed| ==> pushed[k] == Received(s.log[pushed[k].sequenceNumber - 1]))
            && (forall j, k :: 0 <= j < k < |pushed| ==> pushed[j].sequenceNumber < pushed[k].sequenceNumber)
  {
    hide Received, Run;
    RunInv(states, steps, s0, i);
  }

  lemma GrownChain(s: Sub, t: Sub, u: Sub)
    requires Grown(s, t) && Grown(t, u)
    ensures Grown(s, u)
  {
    forall k | |s.pushed| <= k < |u.pushed| ensures u.pushed[k].sequenceNumber > s.last {
      if k < |t.pushed| { assert u.pushed[k] == t.pushed[k]; }
    }
  }

  lemma {:induction false} OnlyGrows(states: seq<Net>, steps: seq<Step>, s0: nat, i: nat, j: nat)
    requires Run(states, steps, s0) && i <= j < |states|
    ensures Grown(states[i].sub, states[j].sub)
    decreases j
  {
    hide Inv, Init, Can, Do, Grown;
    if i == j {
      GrownSelf(states[i].sub);
    } else {
      OnlyGrows(states, steps, s0, i, j - 1);
      RunInv(states, steps, s0, j - 1);
      StepInv(states[j-1], steps[j-1], s0);
      GrownChain(states[i].sub, states[j-1].sub, states[j].sub);
    }
  }

  /** A message passed over once is lost for good. */
  lemma PassedOverIsLost(states: seq<Net>, steps: seq<Step>, s0: nat, i: nat, j: nat, n: int)
    requires Run(states, steps, s0) && i <= j < |states| && n <= states[i].sub.last
    requires forall k :: 0 <= k < |states[i].sub.pushed| ==> states[i].sub.pushed[k].sequenceNumber != n
    ensures forall k :: 0 <= k < |states[j].sub.pushed| ==> states[j].sub.pushed[k].sequenceNumber != n
  {
    hide Run;
    OnlyGrows(states, steps, s0, i, j);
    var s, t := states[i].sub, states[j].sub;
    forall k | 0 <= k < |t.pushed| ensures t.pushed[k].sequenceNumber != n {
      if k < |s.pushed| { assert t.pushed[..|s.pushed|][k] == s.pushed[k]; }
    }
  }

  // ---- Runs without gaps -----------------------------------------------------------------------

  /** At the end of an answer: its keys were one number, or at most one of them was beyond what had been written, or at
      most one was written meanwhile. */
  predicate ReadAtOnce(s: Net) {
    s.job.Reading? ==>
      var j := s.job;
      j.last <= j.from || j.last <= j.written + 1 || s.drained <= j.from || s.drained <= j.written + 1
  }

  predicate AnswersAtOnce(states: seq<Net>, steps: seq<Step>) {
    |states| == |steps| + 1 && forall i :: 0 <= i < |steps| && steps[i].EndAnswer? ==> ReadAtOnce(states[i])
  }

  /** Consecutive messages that start no later than the next one the subscriber wants. */
  ghost predicate Part(log: seq<Envelope>, r: seq<Envelope>, last: int) {
    exists a, b :: 0 <= a <= b <= |log| && a <= last && r == AllReceived(log[a..b])
  }

  ghost predicate NoGaps(s: Net, s0: nat) {
    && s0 <= s.sub.last <= |s.log| && s.polled <= |s.sub.pushed|
    && s.sub.pushed == AllReceived(s.log[s0..s.sub.last])
    && s.own == AllReceived(s.log[..s0 + s.polled])
    && (forall r :: r in s.replies ==> Part(s.log, r, s.sub.last))
  }

  /** Taking consecutive messages adds exactly those that follow the last one seen. */
  lemma {:induction false} TakenPart(log: seq<Envelope>, s: Sub, a: nat, b: nat)
    requires LogOK(log) && a <= b <= |log| && a <= s.last
    ensures Taken(s, AllReceived(log[a..b]))
            == if b <= s.last then s else s.(last := b, pushed := s.pushed + AllReceived(log[s.last..b]))
    decreases b - a
  {
    hide Received, Storable, AllReceived, Taken;
    PartHead(log, a, b);
    TakenNone(s);
    if a < b {
      var e, rest := Received(log[a]), AllReceived(log[a+1..b]);
      ReceivedNumber(log[a]);
      TakenFirst(s, e, rest);
      if a == s.last {
        var t := s.(last := a + 1, pushed := s.pushed + [e]);
        TakenPart(log, t, a + 1, b);
        PartHead(log, b, b);
        assert s.pushed + ([e] + rest) == t.pushed + rest;
      } else {
        TakenPart(log, s, a + 1, b);
      }
    }
  }

  lemma PartHead(log: seq<Envelope>, a: nat, b: nat)
    requires a <= b <= |log|
    ensures AllReceived(log[a..b]) == if a < b then [Received(log[a])] + AllReceived(log[a+1..b]) else []
  {
    hide Received;
  }

  lemma TakenFirst(s: Sub, e: Envelope, rest: seq<Envelope>)
    ensures Taken(s, [e] + rest)
            == Taken(if e.sequenceNumber > s.last then s.(last := e.sequenceNumber, pushed := s.pushed + [e]) else s, rest)
  {
    assert ([e] + rest)[1..] == rest;
  }

  lemma TakenNone(s: Sub)
    ensures Taken(s, []) == s
  {
  }

  lemma PartGrows(log: seq<Envelope>, more: seq<Envelope>, r: seq<Envelope>, last: int, last': int)
    requires Part(log, r, last) && last <= last'
    ensures Part(log + more, r, last')
  {
    var a, b :| 0 <= a <= b <= |log| && a <= last && r == AllReceived(log[a..b]);
    assert (log + more)[a..b] == log[a..b];
  }

  lemma PartsJoin(log: seq<Envelope>, a: nat, m: nat, b: nat)
    requires a <= m <= b <= |log|
    ensures AllReceived(log[a..b]) == AllReceived(log[a..m]) + AllReceived(log[m..b])
  {
    hide Received;
    assert log[a..b] == log[a..m] + log[m..b];
  }

  lemma RepliesKept(s: Net, t: Net)
    requires t.log == s.log && t.replies == s.replies && s.sub.last <= t.sub.last
    requires forall r :: r in s.replies ==> Part(s.log, r, s.sub.last)
    ensures forall r :: r in t.replies ==> Part(t.log, r, t.sub.last)
  {
    hide Part;
    forall r | r in t.replies ensures Part(t.log, r, t.sub.last) {
      assert s.log + [] == s.log;
      PartGrows(s.log, [], r, s.sub.last, t.sub.last);
    }
  }

  lemma InitNoGaps(s: Net, s0: nat)
    requires Init(s, s0)
    ensures NoGaps(s, s0)
  {
    assert s.log[s0..s0] == [];
    assert AllReceived(s.log[s0..s0]) == [];
  }

  lemma PublishNoGaps(s: Net, e: Envelope, s0: nat)
    requires NoGaps(s, s0) && Can(s, Publish(e))
    ensures NoGaps(Do(s, Publish(e)), s0)
  {
    hide Storable, Received, Part;
    var t := Do(s, Publish(e));
    assert t.log[s0..s.sub.last] == s.log[s0..s.sub.last];
    assert t.log[..s0 + s.polled] == s.log[..s0 + s.polled];
    forall r | r in t.replies ensures Part(t.log, r, t.sub.last) {
      PartGrows(s.log, [Numbered(e, |s.log| + 1)], r, s.sub.last, s.sub.last);
    }
  }

  lemma ArriveNoGaps(s: Net, n: nat, s0: nat)
    requires LogOK(s.log) && NoGaps(s, s0) && Can(s, Arrive(n))
    ensures NoGaps(Do(s, Arrive(n)), s0)
  {
    hide Received, Part, Storable;
    var t := Do(s, Arrive(n));
    LoggedNumber(s.log, n + 1);
    if n == s.sub.last {
      assert s.log[s0..n+1] == s.log[s0..n] + [s.log[n]];
    }
    RepliesKept(s, t);
  }

  lemma ReceiveNoGaps(s: Net, r: seq<Envelope>, s0: nat)
    requires LogOK(s.log) && NoGaps(s, s0) && Can(s, Receive(r))
    ensures NoGaps(Do(s, Receive(r)), s0)
  {
    hide Storable, Received, AllReceived;
    var t := Do(s, Receive(r));
    assert Part(s.log, r, s.sub.last);
    var a, b :| 0 <= a <= b <= |s.log| && a <= s.sub.last && r == AllReceived(s.log[a..b]);
    TakenPart(s.log, s.sub, a, b);
    if b > s.sub.last {
      PartsJoin(s.log, s0, s.sub.last, b);
    }
    hide Part;
    RepliesKept(s, t);
  }

  /** Consecutive numbers fetch a part of the log. */
  lemma ConsecutivePart(log: seq<Envelope>, ns: seq<nat>, from: nat, last: int)
    requires LogOK(log) && GapFree(ns, from) && 1 <= from <= last + 1
    requires forall k :: 0 <= k < |ns| ==> 1 <= ns[k] <= |log|
    ensures Part(log, Fetched(log, ns), last)
  {
    hide Received, Storable;
    if ns == [] {
      assert log[0..0] == [] && Fetched(log, ns) == AllReceived(log[0..0]);
    } else {
      var a, b := from - 1, from - 1 + |ns|;
      assert ns[|ns|-1] == from + |ns| - 1;
      forall k | 0 <= k < |ns| ensures Fetched(log, ns)[k] == AllReceived(log[a..b])[k] {
        assert ns[k] == from + k && log[a..b][k] == log[a + k];
      }
      assert Fetched(log, ns) == AllReceived(log[a..b]);
    }
  }

  lemma EndNoGaps(s: Net, s0: nat)
    requires Inv(s, s0) && NoGaps(s, s0) && Can(s, EndAnswer) && ReadAtOnce(s)
    ensures NoGaps(Do(s, EndAnswer), s0)
  {
    hide Storable, Received, Part, Picks, LogOK, KeyByKey, GapFree, SubOK;
    var j := s.job;
    var ns := KeyByKey(j.from, j.seen);
    ReadWithoutGap(j.from, j.seen, j.written, s.drained);
    KeyByKeyAscends(j.from, j.seen);
    FetchedPicks(s.log, ns);
    ConsecutivePart(s.log, ns, j.from, s.sub.last);
  }

  lemma PollNoGaps(s: Net, s0: nat)
    requires LogOK(s.log) && NoGaps(s, s0) && Can(s, Poll)
    ensures NoGaps(Do(s, Poll), s0)
  {
    hide Received, Part, Storable;
    var n := s0 + s.polled;
    assert s.log[s0..s.sub.last][s.polled] == s.log[n];
    LoggedNumber(s.log, n + 1);
    assert s.log[..n + 1] == s.log[..n] + [s.log[n]];
  }

  lemma StepNoGaps(s: Net, step: Step, s0: nat)
    requires Inv(s, s0) && NoGaps(s, s0) && Can(s, step) && (step.EndAnswer? ==> ReadAtOnce(s))
    ensures NoGaps(Do(s, step), s0)
  {
    hide Storable, Received, Part, Picks, KeyByKey, Writing, JobOK, SubOK;
    match step
    case Publish(e) => PublishNoGaps(s, e, s0);
    case Arrive(n) => ArriveNoGaps(s, n, s0);
    case Receive(r) => ReceiveNoGaps(s, r, s0);
    case EndAnswer => EndNoGaps(s, s0);
    case Poll => PollNoGaps(s, s0);
    case _ =>
  }

  lemma {:induction false} RunNoGaps(states: seq<Net>, steps: seq<Step>, s0: nat, i: nat)
    requires Run(states, steps, s0) && AnswersAtOnce(states, steps) && i < |states|
    ensures NoGaps(states[i], s0)
  {
    hide Inv, Init, Can, Do, NoGaps, ReadAtOnce;
    if i == 0 {
      InitNoGaps(states[0], s0);
    } else {
      RunNoGaps(states, steps, s0, i - 1);
      RunInv(states, steps, s0, i - 1);
      StepNoGaps(states[i-1], steps[i-1], s0);
    }
  }

  /** In every run whose answers are read at once the subscriber has pushed exactly the messages after the one it started
      from, up to the last one it has seen: none missing, none twice, none out of order. */
  lemma ExactlyOnceInOrder(states: seq<Net>, steps: seq<Step>, s0: nat, i: nat)
    requires Run(states, steps, s0) && AnswersAtOnce(states, steps) && i < |states|
    ensures var s := states[i];
            && s0 <= s.sub.last <= |s.log| && s.sub.pushed == AllReceived(s.log[s0..s.sub.last])
            && forall k :: 0 <= k < |s.sub.pushed| ==> s.sub.pushed[k].sequenceNumber == s0 + k + 1
  {
    hide Received, Part, Run, AnswersAtOnce;
    RunNoGaps(states, steps, s0, i);
    RunInv(states, steps, s0, i);
    var s := states[i];
    forall k | 0 <= k < |s.sub.pushed| ensures s.sub.pushed[k].sequenceNumber == s0 + k + 1 {
      ReceivedNumber(s.log[s0 + k]);
      assert s.log[s0..s.sub.last][k] == s.log[s0 + k];
    }
  }

  /** After `k` polls the subscriber's own storage, which started with the first `s0` messages, holds exactly the first
      `s0 + k` of the publisher's, under the same numbers. */
  lemma OwnCopies(states: seq<Net>, steps: seq<Step>, s0: nat, i: nat)
    requires Run(states, steps, s0) && AnswersAtOnce(states, steps) && i < |states|
    ensures var s := states[i];
            && s0 + s.polled <= |s.log| && s.own == AllReceived(s.log[..s0 + s.polled])
            && forall k :: 0 <= k < |s.own| ==> s.own[k].sequenceNumber == k + 1
  {
    hide Received, Part, Run, AnswersAtOnce;
    RunNoGaps(states, steps, s0, i);
    RunInv(states, steps, s0, i);
    var s := states[i];
    forall k | 0 <= k < |s.own| ensures s.own[k].sequenceNumber == k + 1 {
      ReceivedNumber(s.log[k]);
    }
  }

  /** A reply to the request at hand brings the subscriber up to everything written by then. */
  lemma ReplyCatchesUp(s: Net, s0: nat, m: nat)
    requires Inv(s, s0) && s.sub.last < m <= INT_MAX
    ensures var r := ReadBack(s.log, s.drained, s.sub.last + 1, m);
            var got := if m > s.drained then s.drained else m;
            OnReply(s.sub, Some(r)).last == if got > s.sub.last then got else s.sub.last
  {
    hide Storable, Received, Picks, KeyByKey;
    var got := if m > s.drained then s.drained else m;
    if got > s.sub.last {
      TakenPart(s.log, s.sub, s.sub.last, got);
    }
  }

  lemma {:induction false} TakenReaches(s: Sub, r: seq<Envelope>, k: nat)
    requires k < |r|
    ensures Taken(s, r).last >= r[k].sequenceNumber && Taken(s, r).last >= s.last
    decreases |r|
  {
    var s' := if r[0].sequenceNumber > s.last then s.(last := r[0].sequenceNumber, pushed := s.pushed + [r[0]]) else s;
    if |r| > 1 {
      TakenReaches(s', r[1..], if k > 0 then k - 1 else 0);
    } else {
      TakenFirst(s, r[0], []);
      assert [r[0]] + [] == r;
    }
  }

  lemma {:induction false} KeyByKeyHas(start: nat, ds: seq<nat>, key: nat)
    requires start <= key < start + |ds| && key <= ds[key - start]
    ensures key in KeyByKey(start, ds)
    decreases |ds|
  {
    if key > start { KeyByKeyHas(start + 1, ds[1..], key); }
  }

  /** An answer holds every requested message that was written when it began. */
  lemma AnswerHolds(s: Net, s0: nat, key: nat)
    requires Inv(s, s0) && Can(s, EndAnswer) && s.job.from <= key <= s.job.last && key <= s.job.written
    ensures exists k :: 0 <= k < |s.job.got| && AllReceived(s.job.got)[k].sequenceNumber == key
  {
    hide Received, Storable, Picks, KeyByKey, LogOK, SubOK;
    var j := s.job;
    var ns := KeyByKey(j.from, j.seen);
    KeyByKeyHas(j.from, j.seen, key);
    var k :| 0 <= k < |ns| && ns[k] == key;
    KeyByKeyAscends(j.from, j.seen);
    FetchedPicks(s.log, ns);
    LogOfInv(s, s0);
    LoggedNumber(s.log, key);
    assert AllReceived(j.got)[k] == Received(s.log[key - 1]);
  }

  /** Whenever the answer of a run is received, however late, the subscriber has then reached every requested message that
      was written when that answer began. */
  lemma AnswerReaches(states: seq<Net>, steps: seq<Step>, s0: nat, i: nat, k: nat)
    requires Run(states, steps, s0) && i < k < |steps| && steps[i].EndAnswer?
    requires steps[k] == Receive(AllReceived(states[i].job.got))
    ensures var j := states[i].job;
            states[k+1].sub.last >= if j.last <= j.written then j.last else j.written
  {
    hide Inv, Init, Received, Storable, Taken, AllReceived;
    var s, j := states[i], states[i].job;
    var key := if j.last <= j.written then j.last else j.written;
    RunInv(states, steps, s0, i);
    OnlyGrows(states, steps, s0, i, k);
    JobFrom(s, s0);
    if key >= j.from {
      AnswerHolds(s, s0, key);
      var x :| 0 <= x < |j.got| && AllReceived(j.got)[x].sequenceNumber == key;
      TakenReaches(states[k].sub, AllReceived(j.got), x);
    } else {
      OnlyGrows(states, steps, s0, i, k + 1);
    }
  }

  lemma JobFrom(s: Net, s0: nat)
    requires Inv(s, s0) && s.job.Reading?
    ensures 1 <= s.job.from <= s.sub.last + 1
  {
    hide Received, Storable, Picks, KeyByKey, LogOK, SubOK, Writing;
  }

  // ---- What a request brings -------------------------------------------------------------------

  lemma JobKeptOnce(s: Net, step: Step)
    requires Can(s, step) && s.job.Reading? && !step.EndAnswer?
    ensures var j, j' := s.job, Do(s, step).job;
            j'.Reading? && j'.from == j.from && j'.last == j.last && j'.written == j.written
  {
    hide Received, Storable, Begun, KeyRead, Taken;
  }

  /** Until it ends, an answer reads the range it began with. */
  lemma {:induction false} JobKept(states: seq<Net>, steps: seq<Step>, s0: nat, b: nat, e: nat)
    requires Run(states, steps, s0) && b < e < |states| && steps[b].BeginAnswer?
    requires forall k :: b < k < e ==> !steps[k].EndAnswer?
    ensures var j, j' := Begun(states[b], steps[b].q), states[e].job;
            j'.Reading? && j'.from == j.from && j'.last == j.last && j'.written == j.written
    decreases e
  {
    hide Init, Do, Can, Begun;
    if e == b + 1 {
      assert steps[b] == BeginAnswer(steps[b].q);
      BeginsJob(states[b], steps[b].q);
    } else {
      JobKept(states, steps, s0, b, e - 1);
      JobKeptOnce(states[e-1], steps[e-1]);
    }
  }

  lemma BeginsJob(s: Net, q: RecoveryRequest)
    requires Can(s, BeginAnswer(q))
    ensures Do(s, BeginAnswer(q)).job == Begun(s, q) && Begun(s, q).Reading?
  {
  }

  /** The range a request names: from message 1 on at least, and to the last message when the end is 0. */
  predicate InRange(q: RecoveryRequest, key: int) { q.start <= key && 1 <= key && (q.end == 0 || key <= q.end) }

  lemma BegunInRange(s: Net, q: RecoveryRequest, s0: nat, key: nat)
    requires Inv(s, s0) && Can(s, BeginAnswer(q)) && 1 <= key <= s.drained
    ensures var j := Begun(s, q); j.written == s.drained && (InRange(q, key) ==> j.from <= key <= j.last)
  {
    hide Received, Storable, Picks, KeyByKey;
    LogOfInv(s, s0);
    NumberInRange(s.log, key);
  }

  /** Numbers are in int range. */
  lemma NumberInRange(log: seq<Envelope>, n: nat)
    requires LogOK(log) && 1 <= n <= |log|
    ensures n <= INT_MAX
  {
    hide Printed;
    assert Storable(log[n-1]);
  }

  lemma BegunOnlyRange(s: Net, q: RecoveryRequest, key: nat)
    requires 1 <= key && q.start <= INT_MAX && INT_MIN <= q.end
    ensures var j := Begun(s, q); j.from <= key <= j.last ==> InRange(q, key)
  {
  }

  lemma {:induction false} KeyByKeyBelow(start: nat, ds: seq<nat>)
    ensures forall k :: 0 <= k < |KeyByKey(start, ds)| ==> KeyByKey(start, ds)[k] < start + |ds|
    decreases |ds|
  {
    if ds != [] { KeyByKeyBelow(start + 1, ds[1..]); }
  }

  /** An answer holds nothing but requested messages that are written. */
  lemma AnswerWithin(s: Net, s0: nat, k: nat)
    requires Inv(s, s0) && Can(s, EndAnswer) && k < |s.job.got|
    ensures 1 <= AllReceived(s.job.got)[k].sequenceNumber <= s.drained
    ensures s.job.from <= AllReceived(s.job.got)[k].sequenceNumber <= s.job.last
  {
    hide Received, Storable, Picks, KeyByKey, LogOK, SubOK;
    var j := s.job;
    var ns := KeyByKey(j.from, j.seen);
    KeyByKeyAscends(j.from, j.seen);
    KeyByKeyBelow(j.from, j.seen);
    FetchedPicks(s.log, ns);
    LogOfInv(s, s0);
    LoggedNumber(s.log, ns[k]);
    assert AllReceived(j.got)[k] == Received(s.log[ns[k] - 1]);
  }

  /** In every run an answer holds every message of the requested range that was written when it began, and nothing that is
      not in the range or not written. */
  lemma RequestAnswered(states: seq<Net>, steps: seq<Step>, s0: nat, q: RecoveryRequest, b: nat, e: nat)
    requires Run(states, steps, s0) && b < e < |steps| && steps[b] == BeginAnswer(q) && steps[e].EndAnswer?
    requires forall k :: b < k < e ==> !steps[k].EndAnswer?
    ensures forall key :: 1 <= key <= states[b].drained && InRange(q, key)
              ==> exists k :: 0 <= k < |states[e].job.got| && AllReceived(states[e].job.got)[k].sequenceNumber == key
    ensures q.start <= INT_MAX && INT_MIN <= q.end ==>
              forall k :: 0 <= k < |states[e].job.got| ==>
                var n := AllReceived(states[e].job.got)[k].sequenceNumber; InRange(q, n) && n <= states[e].drained
  {
    hide Inv, Init, Begun, InRange, AllReceived;
    JobKept(states, steps, s0, b, e);
    RunInv(states, steps, s0, b);
    RunInv(states, steps, s0, e);
    var got := states[e].job.got;
    forall key | 1 <= key <= states[b].drained && InRange(q, key)
      ensures exists k :: 0 <= k < |got| && AllReceived(got)[k].sequenceNumber == key
    {
      BegunInRange(states[b], q, s0, key);
      AnswerHolds(states[e], s0, key);
    }
    if q.start <= INT_MAX && INT_MIN <= q.end {
      forall k | 0 <= k < |got|
        ensures InRange(q, AllReceived(got)[k].sequenceNumber) && AllReceived(got)[k].sequenceNumber <= states[e].drained
      {
        AnswerWithin(states[e], s0, k);
        BegunOnlyRange(states[b], q, AllReceived(got)[k].sequenceNumber);
      }
    }
  }

  /** Once the answer to a request is received, however late, the subscriber has reached every message of the range that
      was written when the answer began: all of them when the end is 0. */
  lemma RequestReaches(states: seq<Net>, steps: seq<Step>, s0: nat, q: RecoveryRequest, b: nat, e: nat, r: nat)
    requires Run(states, steps, s0) && b < e < r < |steps| && steps[b] == BeginAnswer(q) && steps[e].EndAnswer?
    requires forall k :: b < k < e ==> !steps[k].EndAnswer?
    requires steps[r] == Receive(AllReceived(states[e].job.got))
    ensures states[r+1].sub.last >= if q.end == 0 || q.end > states[b].drained then states[b].drained else q.end
  {
    hide Inv, Init, Begun, AllReceived, Received, Storable, Taken;
    var top := if q.end == 0 || q.end > states[b].drained then states[b].drained else q.end;
    RunInv(states, steps, s0, b);
    AskedStart(states[b], q, s0);
    OnlyGrows(states, steps, s0, b, r + 1);
    if q.start <= top && 1 <= top {
      RequestAnswered(states, steps, s0, q, b, e);
      assert InRange(q, top);
      var got := states[e].job.got;
      var x :| 0 <= x < |got| && AllReceived(got)[x].sequenceNumber == top;
      TakenReaches(states[r].sub, AllReceived(got), x);
    }
  }

  lemma AskedStart(s: Net, q: RecoveryRequest, s0: nat)
    requires Inv(s, s0) && q in s.asked
    ensures q.start <= s.sub.last + 1 && 0 <= s.sub.last
  {
    hide Received, Storable, Picks, KeyByKey, JobOK;
  }

  /** A subscriber that starts with nothing asks for everything, and once it is answered has reached every message that was
      written when the answer began. */
  lemma StartupReaches(states: seq<Net>, steps: seq<Step>, i: nat, b: nat, e: nat, r: nat)
    requires Run(states, steps, 0) && i < b < e < r < |steps|
    requires steps[i].Startup? && states[i].sub == Sub(0, false, [])
    requires steps[b] == BeginAnswer(RecoveryRequest(0, 0)) && steps[e].EndAnswer?
    requires forall k :: b < k < e ==> !steps[k].EndAnswer?
    requires steps[r] == Receive(AllReceived(states[e].job.got))
    ensures RecoveryRequest(0, 0) in states[i+1].asked && states[i+1].awaiting
    ensures states[r+1].sub.last >= states[b].drained
  {
    hide Init, Inv, AllReceived, Received, Storable;
    StartupSends(states[i]);
    RequestReaches(states, steps, 0, RecoveryRequest(0, 0), b, e, r);
  }

  lemma StartupSends(s: Net)
    requires Can(s, Startup) && s.sub == Sub(0, false, [])
    ensures Do(s, Startup).awaiting && RecoveryRequest(0, 0) in Do(s, Startup).asked
  {
  }

  /** What arrives on the published channel: the next message is queued, an older one changes nothing, and a later one makes
      a subscriber that is not recovering ask for everything up to it. */
  lemma Arrived(s: Net, s0: nat, n: nat)
    requires Inv(s, s0) && Can(s, Arrive(n))
    ensures var t, q := Do(s, Arrive(n)), RecoveryRequest(s.sub.last + 1, n + 1);
            if n == s.sub.last then
              t == s.(sub := s.sub.(last := n + 1, pushed := s.sub.pushed + [Received(s.log[n])]))
            else if n < s.sub.last || s.sub.recovering then t == s
            else t == s.(sub := s.sub.(recovering := true), awaiting := true, asked := s.asked + {q})
  {
    hide Received, Storable, Picks, KeyByKey, JobOK;
    LogOfInv(s, s0);
    LoggedNumber(s.log, n + 1);
  }

  /** A reply, a failed wait and the timer each end a recovery, and none of the last two takes a message. */
  lemma RecoveryEnds(s: Net, step: Step)
    requires Can(s, step) && (step.Receive? || step.Fail? || step.TimeOut?)
    ensures var t := Do(s, step);
            !t.sub.recovering && (step.TimeOut? || !t.awaiting)
            && (step.Receive? || t.sub == s.sub.(recovering := false))
  {
    hide Taken;
  }

  // ---- Starting up -----------------------------------------------------------------------------

  /** Starting up sends a request exactly when none is under way and the subscriber has no message yet. */
  lemma StartupAsks(s: Sub)
    ensures Asked(s, s.last, 0).1.Some? <==> !s.recovering && s.last <= 0
  {
  }

  /** A recovery that never asked, and its mark. */
  predicate Blocked(s: Net) { s.sub.recovering && !s.awaiting }

  lemma BlockedStep(s: Net, step: Step)
    requires Can(s, step) && Blocked(s) && !step.TimeOut?
    ensures Blocked(Do(s, step)) && Do(s, step).asked == s.asked
  {
    hide Received, Storable, Begun, KeyRead, Taken;
  }

  lemma BlockedArrival(s: Net, n: nat)
    requires LogOK(s.log) && Can(s, Arrive(n)) && Blocked(s) && n > s.sub.last
    ensures Do(s, Arrive(n)) == s
  {
    hide Received, Storable;
    LoggedNumber(s.log, n + 1);
  }

  /** From a start with messages until the timer next runs out nothing is asked, and every message that comes too early
      is dropped. */
  lemma {:induction false} StartupAsksNothing(states: seq<Net>, steps: seq<Step>, s0: nat, i: nat, j: nat)
    requires Run(states, steps, s0) && i < j < |states| && steps[i].Startup? && states[i].sub.last > 0
    requires forall k :: i < k < j ==> !steps[k].TimeOut?
    ensures states[j].asked == states[i].asked && Blocked(states[j])
    ensures forall k :: i < k < j && steps[k].Arrive? && steps[k].n > states[k].sub.last ==> states[k+1] == states[k]
    decreases j
  {
    hide Init, Do, Can, Blocked, LogOK;
    if j == i + 1 {
      StartupMarks(states[i]);
    } else {
      StartupAsksNothing(states, steps, s0, i, j - 1);
      var s, step := states[j-1], steps[j-1];
      BlockedStep(s, step);
      RunInv(states, steps, s0, j - 1);
      LogOfInv(s, s0);
      if step.Arrive? && step.n > s.sub.last { BlockedArrival(s, step.n); }
    }
  }

  lemma StartupMarks(s: Net)
    requires Can(s, Startup) && s.sub.last > 0
    ensures Do(s, Startup).asked == s.asked && Blocked(Do(s, Startup))
  {
  }

  lemma LogOfInv(s: Net, s0: nat)
    requires Inv(s, s0)
    ensures LogOK(s.log)
  {
  }
}
