/** Runs that lose a message: while an answer is read key by key, writing catches up right after a key was missed. */
module LosingRuns {
  import opened Keys
  import opened JsonString
  import opened JsonText
  import opened JsonRoundTrip
  import opened Messages
  import opened Delivery
  import opened DeliveryRuns

  // ---- Making a run longer ---------------------------------------------------------------------

  datatype Trace = Trace(states: seq<Net>, steps: seq<Step>)

  ghost predicate IsRun(t: Trace, s0: nat) { t.states != [] && Run(t.states, t.steps, s0) }

  function Now(t: Trace): Net
    requires t.states != []
  {
    t.states[|t.states|-1]
  }

  ghost predicate Continues(t: Trace, u: Trace) { t.states <= u.states && t.steps <= u.steps }

  lemma Further(t: Trace, s0: nat, step: Step) returns (u: Trace)
    requires IsRun(t, s0) && Can(Now(t), step)
    ensures IsRun(u, s0) && Now(u) == Do(Now(t), step) && Continues(t, u)
  {
    hide Can, Do, Init;
    u := Trace(t.states + [Do(Now(t), step)], t.steps + [step]);
  }

  function Copies(n: nat, d: nat): (ds: seq<nat>)
    ensures |ds| == n && forall k :: 0 <= k < n ==> ds[k] == d
  {
    seq(n, _ => d)
  }

  /** Writing until `n` messages are written. */
  lemma {:induction false} DrainTo(t: Trace, s0: nat, n: nat) returns (u: Trace)
    requires IsRun(t, s0) && Now(t).drained <= n <= |Now(t).log|
    ensures IsRun(u, s0) && Continues(t, u) && Now(u) == Now(t).(drained := n)
    decreases n - Now(t).drained
  {
    hide Run;
    if Now(t).drained == n {
      u := t;
    } else {
      u := Further(t, s0, Drain);
      u := DrainTo(u, s0, n);
    }
  }

  /** Reading `n` more keys while nothing is written. */
  lemma {:induction false} ReadMore(t: Trace, s0: nat, n: nat) returns (u: Trace)
    requires IsRun(t, s0) && Now(t).job.Reading? && Now(t).drained <= |Now(t).log|
    requires Now(t).job.from + |Now(t).job.seen| + n <= Now(t).job.last + 1
    ensures IsRun(u, s0) && Continues(t, u) && Now(u).job.Reading?
    ensures var j, j' := Now(t).job, Now(u).job;
            Now(u) == Now(t).(job := j') && j' == j.(seen := j.seen + Copies(n, Now(t).drained), got := j'.got)
    decreases n
  {
    hide Run, Received;
    if n == 0 {
      u := t;
      assert Now(t).job.seen + Copies(0, Now(t).drained) == Now(t).job.seen;
    } else {
      var d, seen := Now(t).drained, Now(t).job.seen;
      u := Further(t, s0, ReadKey);
      u := ReadMore(u, s0, n - 1);
      assert (seen + [d]) + Copies(n - 1, d) == seen + Copies(n, d);
    }
  }

  // ---- What a reply then holds -----------------------------------------------------------------

  /** The numbers from `a` up to but not `b`. */
  function Between(a: nat, b: nat): (ns: seq<nat>)
    requires a <= b
    ensures |ns| == b - a && forall k :: 0 <= k < b - a ==> ns[k] == a + k
  {
    seq(b - a, k requires 0 <= k < b - a => a + k)
  }

  /** All numbers from `a` to `end` but one. */
  function AllBut(a: nat, miss: nat, end: nat): (ns: seq<nat>)
    requires a <= miss < end
    ensures |ns| == end - a && forall k :: 0 <= k < |ns| ==> ns[k] == if a + k < miss then a + k else a + k + 1
  {
    Between(a, miss) + Between(miss + 1, end + 1)
  }

  lemma {:induction false} KeysRead(start: nat, ds: seq<nat>, n: nat, d: nat)
    requires start + |ds| + n <= d + 1
    ensures KeyByKey(start, ds + Copies(n, d)) == KeyByKey(start, ds) + Between(start + |ds|, start + |ds| + n)
    decreases n
  {
    hide KeyByKey;
    var key := start + |ds|;
    if n == 0 {
      assert ds + Copies(0, d) == ds && KeyByKey(start, ds) + Between(key, key) == KeyByKey(start, ds);
    } else {
      KeysRead(start, ds, n - 1, d);
      KeyByKeySnoc(start, ds + Copies(n - 1, d), d);
      assert (ds + Copies(n - 1, d)) + [d] == ds + Copies(n, d);
      assert Between(key, key + n - 1) + [key + n - 1] == Between(key, key + n);
      assert KeyByKey(start, ds) + Between(key, key + n - 1) + [key + n - 1] == KeyByKey(start, ds) + Between(key, key + n);
    }
  }

  /** The first key that is not written when its turn comes. */
  function Missed(start: nat, drained: nat): nat { if start > drained + 1 then start else drained + 1 }

  lemma KeysSkip(start: nat, end: nat, drained: nat)
    requires 1 <= start && Missed(start, drained) < end
    ensures var miss := Missed(start, drained);
            KeyByKey(start, Copies(miss - start + 1, drained) + Copies(end - miss, end))
            == AllBut(start, miss, end)
  {
    hide KeyByKey;
    var miss := Missed(start, drained);
    var ds := Copies(miss - start + 1, drained);
    if miss == start {
      assert [] + [drained] == ds;
      KeyByKeySnoc(start, [], drained);
      KeyByKeyHead(start, drained, []);
      assert KeyByKey(start, []) + [] == Between(start, miss);
    } else {
      KeyByKeyHead(start, drained, []);
      KeysRead(start, [], miss - start, drained);
      var low := Copies(miss - start, drained);
      assert [] + low == low && low + [drained] == ds;
      KeyByKeySnoc(start, low, drained);
      assert [] + Between(start, miss) == Between(start, miss);
      assert Between(start, miss) + [] == Between(start, miss);
    }
    KeysRead(start, ds, end - miss, end);
  }

  lemma FetchedBetween(log: seq<Envelope>, a: nat, b: nat)
    requires 1 <= a <= b <= |log| + 1
    ensures Fetched(log, Between(a, b)) == AllReceived(log[a-1..b-1])
  {
    hide Received;
  }

  lemma FetchedBoth(log: seq<Envelope>, ns: seq<nat>, ms: seq<nat>)
    requires forall k :: 0 <= k < |ns| ==> 1 <= ns[k] <= |log|
    requires forall k :: 0 <= k < |ms| ==> 1 <= ms[k] <= |log|
    ensures Fetched(log, ns + ms) == Fetched(log, ns) + Fetched(log, ms)
  {
    hide Received;
  }

  /** A reply with nothing but new messages in order is taken whole. */
  lemma {:induction false} TakenWhole(s: Sub, r: seq<Envelope>)
    requires forall k :: 0 <= k < |r| ==> r[k].sequenceNumber > s.last
    requires forall j, k :: 0 <= j < k < |r| ==> r[j].sequenceNumber < r[k].sequenceNumber
    ensures Taken(s, r) == s.(last := if r == [] then s.last else r[|r|-1].sequenceNumber, pushed := s.pushed + r)
    decreases |r|
  {
    if r != [] {
      TakenWhole(s.(last := r[0].sequenceNumber, pushed := s.pushed + [r[0]]), r[1..]);
      assert (s.pushed + [r[0]]) + r[1..] == s.pushed + r;
    } else {
      assert s.pushed + r == s.pushed;
    }
  }

  // ---- Losing a message ------------------------------------------------------------------------

  /** A subscriber that is not recovering, no answer under way, a message `end` that it is not the next one to take, and
      a message before that one which is not written yet. */
  predicate MayLose(s: Net, end: nat) {
    && !s.awaiting && !s.sub.recovering && s.job.Idle? && 0 <= s.sub.last
    && s.sub.last + 1 < end <= |s.log| && s.drained + 1 < end
  }

  /** The message `end` arrives, the request for what is missing is answered, and writing catches up after the first key
      that was not written: every message up to `end` is taken but the one under that key. */
  lemma LosesFrom(t: Trace, s0: nat, end: nat) returns (u: Trace)
    requires IsRun(t, s0) && MayLose(Now(t), end)
    ensures IsRun(u, s0) && Continues(t, u)
    ensures var s, s' := Now(t), Now(u); var miss := Missed(s.sub.last + 1, s.drained);
            && s'.log == s.log && s'.own == s.own && s'.polled == s.polled && !s'.awaiting
            && s.sub.last < miss < end
            && s'.sub == Sub(end, false, s.sub.pushed + (AllReceived(s.log[s.sub.last..miss-1]) + AllReceived(s.log[miss..end])))
  {
    hide Run, Received, Storable, KeyByKey, Taken, Picks, SubOK, JobOK, LogOK, Inv, OnReply, Begun, Fetched, AllReceived;
    var s := Now(t);
    var start, miss := s.sub.last + 1, Missed(s.sub.last + 1, s.drained);
    StateInv(t, s0);
    ArrivalAsks(s, s0, end);
    u := Further(t, s0, Arrive(end - 1));
    u := Further(u, s0, BeginAnswer(RecoveryRequest(start, end)));
    u := ReadLate(u, s0, miss, end);
    StateInv(u, s0);
    var job := Now(u).job;
    JobHolds(Now(u), s0, AllBut(start, miss, end));
    ReplyTaken(s.log, s.sub, job.got, miss, end);
    u := Further(u, s0, EndAnswer);
    u := Further(u, s0, Receive(job.got));
  }

  /** Keys up to the missed one are read, then writing catches up, then the rest is read. */
  lemma ReadLate(t: Trace, s0: nat, miss: nat, end: nat) returns (u: Trace)
    requires IsRun(t, s0) && Now(t).job.Reading? && Now(t).job == Reading(Now(t).job.from, end, Now(t).drained, [], [])
    requires 1 <= Now(t).job.from && miss == Missed(Now(t).job.from, Now(t).drained) < end <= |Now(t).log|
    ensures IsRun(u, s0) && Continues(t, u) && Now(u).job.Reading?
    ensures var j, j' := Now(t).job, Now(u).job;
            && Now(u) == Now(t).(drained := end, job := j') && j'.from == j.from && j'.last == end
            && |j'.seen| == end + 1 - j.from
            && KeyByKey(j.from, j'.seen) == AllBut(j.from, miss, end)
  {
    hide Run, KeyByKey;
    var start, drained := Now(t).job.from, Now(t).drained;
    u := ReadMore(t, s0, miss - start + 1);
    u := DrainTo(u, s0, end);
    u := ReadMore(u, s0, end - miss);
    assert [] + Copies(miss - start + 1, drained) == Copies(miss - start + 1, drained);
    KeysSkip(start, end, drained);
  }

  lemma StateInv(t: Trace, s0: nat)
    requires IsRun(t, s0)
    ensures Inv(Now(t), s0)
  {
    RunInv(t.states, t.steps, s0, |t.steps|);
  }

  lemma ArrivalAsks(s: Net, s0: nat, end: nat)
    requires Inv(s, s0) && MayLose(s, end)
    ensures var q := RecoveryRequest(s.sub.last + 1, end);
            var asks := s.(sub := s.sub.(recovering := true), awaiting := true, asked := s.asked + {q});
            && Can(s, Arrive(end - 1)) && Do(s, Arrive(end - 1)) == asks
            && Begun(asks, q) == Reading(s.sub.last + 1, end, s.drained, [], [])
  {
    hide Received, Storable, Picks, KeyByKey, JobOK, SubOK;
    LogOfInv(s, s0);
    LoggedNumber(s.log, end);
    NumberInRange(s.log, end);
  }

  lemma JobHolds(s: Net, s0: nat, ns: seq<nat>)
    requires Inv(s, s0) && s.job.Reading? && KeyByKey(s.job.from, s.job.seen) == ns
    ensures LogOK(s.log) && forall k :: 0 <= k < |ns| ==> 1 <= ns[k] <= |s.log|
    ensures s.job.got == Fetched(s.log, ns) && AllReceived(s.job.got) == s.job.got
  {
    hide Received, Picks, KeyByKey, LogOK, SubOK;
    KeyByKeyAscends(s.job.from, s.job.seen);
    FetchedPicks(s.log, ns);
  }

  lemma ReplyNumbers(log: seq<Envelope>, got: seq<Envelope>, a: nat, miss: nat, end: nat)
    requires LogOK(log) && 1 <= a <= miss < end <= |log| && got == Fetched(log, AllBut(a, miss, end))
    ensures forall k :: 0 <= k < |got| ==> got[k].sequenceNumber == AllBut(a, miss, end)[k]
  {
    hide Received, LogOK;
    forall k | 0 <= k < |got| ensures got[k].sequenceNumber == AllBut(a, miss, end)[k] {
      LoggedNumber(log, AllBut(a, miss, end)[k]);
    }
  }

  lemma ReplyParts(log: seq<Envelope>, a: nat, miss: nat, end: nat)
    requires 1 <= a <= miss < end <= |log|
    ensures Fetched(log, AllBut(a, miss, end)) == AllReceived(log[a-1..miss-1]) + AllReceived(log[miss..end])
  {
    hide Received, Fetched, AllReceived;
    FetchedBoth(log, Between(a, miss), Between(miss + 1, end + 1));
    FetchedBetween(log, a, miss);
    FetchedBetween(log, miss + 1, end + 1);
  }

  lemma ReplyTaken(log: seq<Envelope>, sub: Sub, got: seq<Envelope>, miss: nat, end: nat)
    requires LogOK(log) && 0 <= sub.last < miss < end <= |log| && got == Fetched(log, AllBut(sub.last + 1, miss, end))
    ensures OnReply(sub.(recovering := true), Some(got))
            == Sub(end, false, sub.pushed + (AllReceived(log[sub.last..miss-1]) + AllReceived(log[miss..end])))
  {
    hide Received, LogOK, Taken, AllReceived;
    ReplyNumbers(log, got, sub.last + 1, miss, end);
    TakenWhole(sub.(recovering := true), got);
    ReplyParts(log, sub.last + 1, miss, end);
  }

  lemma {:induction false} EscapeShort(s: Bytes)
    ensures |Escape(s)| <= 6 * |s|
  {
    if s != [] { EscapeShort(s[1..]); }
  }

  lemma {:induction false} MembersShort(ms: seq<Member>)
    requires forall k :: 0 <= k < |ms| ==> |ms[k].name| <= 14 && |Printed(ms[k].value, true, 1)| <= 100
    ensures |PrintedMembers(ms, true, 1)| <= 300 * |ms|
  {
    hide Printed;
    if ms != [] {
      EscapeShort(ms[0].name);
      MembersShort(ms[1..]);
    }
  }

  /** An envelope with empty strings. */
  const PLAIN := Envelope([], [], 0, 0, true, [], [])

  lemma PlainValues(v: Json)
    requires v == Text([]) || v == True || v == Number(0.0) || v == Number(1.0) || v == Number(2.0)
    ensures |Printed(v, true, 1)| <= 100
  {
    PrintedParts(v, true, 1);
  }

  lemma PlainIsStorable(n: nat)
    requires n == 1 || n == 2
    ensures Storable(Numbered(PLAIN, n))
  {
    hide Printed, PrintedMembers;
    var v := ToJson(Numbered(PLAIN, n));
    forall k | 0 <= k < |v.members| ensures |v.members[k].name| <= 14 && |Printed(v.members[k].value, true, 1)| <= 100 {
      PlainValues(v.members[k].value);
    }
    MembersShort(v.members);
    PrintedParts(v, true, 0);
  }

  /** A run from the empty log, with answers read key by key, after which the first message is passed over and the
      subscriber's own storage has the second one under number 1. */
  lemma LosingRun() returns (states: seq<Net>, steps: seq<Step>)
    ensures Run(states, steps, 0) && states[0].log == []
    ensures var t := states[|states|-1]; var two := Received(Numbered(PLAIN, 2));
            |t.log| == 2 && t.sub.last == 2 && t.sub.pushed == [two] && t.own == [Numbered(two, 1)]
  {
    hide Received, Storable;
    var t := Trace([Net([], 0, Idle, Sub(0, false, []), false, [], 0, {}, {})], []);
    EmptyStart(t);
    PlainIsStorable(1);
    PlainIsStorable(2);
    t := Further(t, 0, Publish(PLAIN));
    t := Further(t, 0, Publish(PLAIN));
    t := LosesFrom(t, 0, 2);
    LosingEnd(Now(t));
    t := Further(t, 0, Poll);
    states, steps := t.states, t.steps;
  }

  lemma EmptyStart(t: Trace)
    requires t == Trace([Net([], 0, Idle, Sub(0, false, []), false, [], 0, {}, {})], [])
    ensures IsRun(t, 0)
  {
    assert AllReceived([][..0]) == [];
  }

  lemma LosingEnd(s: Net)
    requires |s.log| == 2 && s.polled == 0 && s.own == []
    requires s.sub.pushed == [] + (AllReceived(s.log[0..0]) + AllReceived(s.log[1..2]))
    ensures s.sub.pushed == [Received(s.log[1])] && Can(s, Poll) && Do(s, Poll).own == [Numbered(Received(s.log[1]), 1)]
  {
    hide Received;
    assert s.log[1..2] == [s.log[1]];
  }
}
