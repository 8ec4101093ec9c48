/** Insert and overwrite (mdb_cursor_put) with page splits (mdb_page_split), on plain databases. */
module BTreePut {
  import opened Keys
  import opened SplitPoint
  import opened BTree

  /** What happened to a page: it still fits, it was cut in two, or the page-full error. */
  datatype Change = Fits(t: Tree) | Split(left: Tree, sep: Key, right: Tree) | Full

  // ---- Lookup on one page ------------------------------------------------------------------

  /** Number of leading pairs whose key is below `k`. */
  function Pos(ps: seq<Pair>, k: Key): (p: nat)
    ensures p <= |ps|
  {
    if ps == [] || !Less(ps[0].key, k) then 0 else 1 + Pos(ps[1..], k)
  }

  /** The child to follow for `k`: the last one whose separator is not above it. */
  function KidIndex(kids: seq<Kid>, k: Key): (i: nat)
    requires kids != []
    ensures i < |kids|
  {
    if |kids| == 1 || Less(k, kids[1].sep) then 0 else 1 + KidIndex(kids[1..], k)
  }

  // ---- The operation -----------------------------------------------------------------------

  function NewEntry(env: Env, k: Key, v: seq<byte>): Entry
    requires env.Valid()
  {
    if NODESIZE + |k| + |v| > env.NodeMax() then Entry(k, v, env.OvPages(|v|)) else Entry(k, v, 0)
  }

  function SplitLeaf(env: Env, ents: seq<Entry>, newindx: nat): Change
    requires env.Valid() && newindx < |ents|
  {
    var xs := LeafSizes(ents);
    if |xs| < 3 || !NodesFit(xs, env.PMax()) then Full
    else
      var s := SplitIndex(xs, newindx, true, env.PMax());
      if s == 0 || Sum(xs[..s]) > env.PMax() || RightUsed(xs, s, true) > env.PMax() then Full
      else Split(Leaf(ents[..s]), ents[s].key, Leaf(ents[s..]))
  }

  function PlaceLeaf(env: Env, ents: seq<Entry>, i: nat, e: Entry): Change
    requires env.Valid() && i <= |ents|
  {
    var all := ents[..i] + [e] + ents[i..];
    if env.PMax() - LeafUsed(ents) < LeafSize(e) then SplitLeaf(env, all, i) else Fits(Leaf(all))
  }

  /** Overwrite node `i` with `e`; `reuse` tells that its overflow pages are written in place. */
  function LeafOverwrite(env: Env, ents: seq<Entry>, i: nat, e: Entry, reuse: bool): Change
    requires env.Valid() && i < |ents|
  {
    var o := ents[i];
    if reuse || (o.ovpages == 0 && |e.val| == |o.val|) then Fits(Leaf(ents[i := Entry(e.key, e.val, o.ovpages)]))
    else PlaceLeaf(env, ents[..i] + ents[i+1..], i, e)
  }

  /** `dirty` tells whether this transaction already owns the overflow pages of the entry at `k`. */
  function LeafPut(env: Env, ents: seq<Entry>, k: Key, v: seq<byte>, dirty: bool): Change
    requires env.Valid()
  {
    var i := Pos(Pairs(ents), k);
    var e := NewEntry(env, k, v);
    if i < |ents| && ents[i].key == k then
      LeafOverwrite(env, ents, i, e, 0 < ents[i].ovpages && ents[i].ovpages >= env.OvPages(|v|) && dirty)
    else
      PlaceLeaf(env, ents, i, e)
  }

  /** Cut a branch page; the key of the right page's first child moves up and leaves an empty slot 0. */
  function SplitBranch(env: Env, kids: seq<Kid>, newindx: nat): Change
    requires env.Valid() && newindx < |kids|
  {
    var xs := BranchSizes(kids);
    if |xs| < 3 || !NodesFit(xs, env.PMax()) then Full
    else
      var s := SplitIndex(xs, newindx, false, env.PMax());
      if s == 0 || Sum(xs[..s]) > env.PMax() || RightUsed(xs, s, false) > env.PMax() then Full
      else Split(Branch(kids[..s]), kids[s].sep, Branch([Kid([], kids[s].tree)] + kids[s+1..]))
  }

  function PlaceKid(env: Env, kids: seq<Kid>, j: nat, sep: Key, t: Tree): Change
    requires env.Valid() && j <= |kids|
  {
    var all := kids[..j] + [Kid(sep, t)] + kids[j..];
    if env.PMax() - BranchUsed(kids) < NODESIZE + |sep| + SLOT then SplitBranch(env, all, j) else Fits(Branch(all))
  }

  function Put(env: Env, t: Tree, k: Key, v: seq<byte>, dirty: bool): Change
    requires env.Valid()
    decreases t
  {
    match t
    case Leaf(ents) => LeafPut(env, ents, k, v, dirty)
    case Branch(kids) =>
      if kids == [] then Full
      else
        var i := KidIndex(kids, k);
        AfterChild(env, kids, i, Put(env, kids[i].tree, k, v, dirty))
  }

  /** Put a changed child back at slot `i`, and its new right sibling after it. */
  function AfterChild(env: Env, kids: seq<Kid>, i: nat, c: Change): Change
    requires env.Valid() && i < |kids|
  {
    match c
    case Full => Full
    case Fits(t) => Fits(Branch(kids[i := Kid(kids[i].sep, t)]))
    case Split(l, s, r) => PlaceKid(env, kids[i := Kid(kids[i].sep, l)], i + 1, s, r)
  }

  // ---- What it must do ---------------------------------------------------------------------

  /** Insert or overwrite in a sorted run of pairs. */
  function SeqPut(ps: seq<Pair>, k: Key, v: seq<byte>): seq<Pair> {
    if ps == [] then [Pair(k, v)]
    else if Less(ps[0].key, k) then [ps[0]] + SeqPut(ps[1..], k, v)
    else if ps[0].key == k then [Pair(k, v)] + ps[1..]
    else [Pair(k, v)] + ps
  }

  predicate KeyOK(k: Key) { 1 <= |k| <= MAXKEYSIZE }

  predicate ChangeOK(env: Env, c: Change, h: nat, lo: Key, hi: Option<Key>, ps: seq<Pair>)
    requires env.Valid()
  {
    match c
    case Fits(t) => TreeOK(env, t, h, lo, hi) && Flatten(t) == ps
    case Split(l, s, r) =>
      && TreeOK(env, l, h, lo, Some(s)) && TreeOK(env, r, h, s, hi)
      && Flatten(l) + Flatten(r) == ps && |s| <= MAXKEYSIZE
    case Full => true
  }

  // ---- When a put is refused ---------------------------------------------------------------

  /** Adding `e` at `i` needs a split that is taken by count and leaves a half over the page. */
  predicate LeafRefused(env: Env, prior: seq<Entry>, i: nat, e: Entry)
    requires env.Valid()
  {
    && i <= |prior| && env.PMax() - LeafUsed(prior) < LeafSize(e)
    && CountedOverfull(LeafSizes(prior[..i] + [e] + prior[i..]), i, true, env.PMax())
  }

  predicate OverwriteRefused(env: Env, ents: seq<Entry>, i: nat, e: Entry, reuse: bool)
    requires env.Valid() && i < |ents|
  {
    && !reuse && !(ents[i].ovpages == 0 && |e.val| == |ents[i].val|)
    && LeafRefused(env, ents[..i] + ents[i+1..], i, e)
  }

  predicate LeafPutRefused(env: Env, ents: seq<Entry>, k: Key, v: seq<byte>, dirty: bool)
    requires env.Valid()
  {
    var i := Pos(Pairs(ents), k);
    var e := NewEntry(env, k, v);
    if i < |ents| && ents[i].key == k then
      OverwriteRefused(env, ents, i, e, 0 < ents[i].ovpages && ents[i].ovpages >= env.OvPages(|v|) && dirty)
    else
      LeafRefused(env, ents, i, e)
  }

  /** The same for a separator added to a branch page. */
  predicate KidRefused(env: Env, kids: seq<Kid>, j: nat, k: Kid)
    requires env.Valid()
  {
    && j <= |kids| && env.PMax() - BranchUsed(kids) < BranchSize(k.sep)
    && CountedOverfull(BranchSizes(kids[..j] + [k] + kids[j..]), j, false, env.PMax())
  }

  predicate AfterChildRefused(env: Env, kids: seq<Kid>, i: nat, c: Change)
    requires env.Valid() && i < |kids|
  {
    c.Split? && KidRefused(env, kids[i := Kid(kids[i].sep, c.left)], i + 1, Kid(c.sep, c.right))
  }

  /** The leaf for the key, or a branch page on the way to it that a split reaches, refuses. */
  predicate PutRefused(env: Env, t: Tree, k: Key, v: seq<byte>, dirty: bool)
    requires env.Valid()
    decreases t
  {
    match t
    case Leaf(ents) => LeafPutRefused(env, ents, k, v, dirty)
    case Branch(kids) =>
      kids != [] &&
      var i := KidIndex(kids, k);
      PutRefused(env, kids[i].tree, k, v, dirty)
      || AfterChildRefused(env, kids, i, Put(env, kids[i].tree, k, v, dirty))
  }

  // ---- Positions ---------------------------------------------------------------------------

  lemma {:induction false} PosSpec(ps: seq<Pair>, k: Key)
    requires Sorted(ps)
    ensures var p := Pos(ps, k);
            && (forall i :: 0 <= i < p ==> Less(ps[i].key, k))
            && (forall i :: p <= i < |ps| ==> !Less(ps[i].key, k))
            && (forall i :: p < i < |ps| ==> Less(k, ps[i].key))
            && (p < |ps| ==> ps[p].key == k || Less(k, ps[p].key))
  {
    if ps == [] {
    } else if Less(ps[0].key, k) {
      PosSpec(ps[1..], k);
    } else {
      LessTotal(ps[0].key, k);
      forall i | 0 < i < |ps| ensures Less(k, ps[i].key) && !Less(ps[i].key, k) {
        if ps[0].key != k { LessTransitive(k, ps[0].key, ps[i].key); }
        LessIrreflexive(k);
        if Less(ps[i].key, k) { LessTransitive(k, ps[i].key, k); }
      }
    }
  }

  /** A position is the only index with smaller keys before it and no smaller key from it on. */
  lemma {:induction false} PosUnique(ps: seq<Pair>, k: Key, p: nat)
    requires p <= |ps|
    requires forall i :: 0 <= i < p ==> Less(ps[i].key, k)
    requires p < |ps| ==> !Less(ps[p].key, k)
    ensures Pos(ps, k) == p
  {
    if p > 0 { PosUnique(ps[1..], k, p - 1); }
  }

  predicate AllBelow(ps: seq<Pair>, k: Key) {
    forall i :: 0 <= i < |ps| ==> Less(ps[i].key, k)
  }

  predicate AllAbove(ps: seq<Pair>, k: Key) {
    forall i :: 0 <= i < |ps| ==> Less(k, ps[i].key)
  }

  lemma ConsSlices<T>(xs: seq<T>, p: nat, q: nat, x: T)
    requires p <= q < |xs|
    ensures [xs[0]] + (xs[1..][..p] + [x] + xs[1..][q..]) == xs[..p+1] + [x] + xs[q+1..]
  {
  }

  lemma PutHere(ps: seq<Pair>, k: Key, v: seq<byte>)
    ensures if ps != [] && Less(ps[0].key, k) then
              Pos(ps, k) == 1 + Pos(ps[1..], k) && SeqPut(ps, k, v) == [ps[0]] + SeqPut(ps[1..], k, v)
            else
              Pos(ps, k) == 0 && SeqPut(ps, k, v) == ps[..0] + [Pair(k, v)] + ps[if ps != [] && ps[0].key == k then 1 else 0..]
  {
    hide Less;
  }

  lemma {:induction false} SeqPutAt(ps: seq<Pair>, k: Key, v: seq<byte>)
    ensures var p := Pos(ps, k);
            SeqPut(ps, k, v) == ps[..p] + [Pair(k, v)] + ps[if p < |ps| && ps[p].key == k then p + 1 else p..]
  {
    hide Less, SeqPut, Pos;
    PutHere(ps, k, v);
    if ps != [] && Less(ps[0].key, k) {
      LessIrreflexive(k);
      var rest := ps[1..];
      var p := Pos(rest, k);
      SeqPutAt(rest, k, v);
      var q := if p < |rest| && rest[p].key == k then p + 1 else p;
      ConsSlices(ps, p, q, Pair(k, v));
    }
  }

  lemma {:induction false} PutAfter(a: seq<Pair>, b: seq<Pair>, k: Key, v: seq<byte>)
    requires AllBelow(a, k)
    ensures SeqPut(a + b, k, v) == a + SeqPut(b, k, v)
  {
    hide Less;
    if a == [] {
      assert a + b == b;
    } else {
      assert (a + b)[1..] == a[1..] + b;
      PutAfter(a[1..], b, k, v);
    }
  }

  lemma {:induction false} PutBefore(b: seq<Pair>, c: seq<Pair>, k: Key, v: seq<byte>)
    requires c != [] ==> Less(k, c[0].key)
    ensures SeqPut(b + c, k, v) == SeqPut(b, k, v) + c
  {
    hide Less;
    if b == [] {
      assert b + c == c;
      LessIrreflexive(k);
      if c != [] { LessAsymmetric(k, c[0].key); }
    } else {
      assert (b + c)[1..] == b[1..] + c;
      PutBefore(b[1..], c, k, v);
    }
  }

  lemma PutMiddle(a: seq<Pair>, b: seq<Pair>, c: seq<Pair>, k: Key, v: seq<byte>)
    requires AllBelow(a, k)
    requires AllAbove(c, k)
    ensures SeqPut(a + b + c, k, v) == a + SeqPut(b, k, v) + c
  {
    PutBefore(a + b, c, k, v);
    PutAfter(a, b, k, v);
  }

  /** The map a run of pairs stands for; with distinct keys the order of insertion does not matter. */
  function ToMap(ps: seq<Pair>): map<Key, seq<byte>> {
    if ps == [] then map[] else ToMap(ps[1..])[ps[0].key := ps[0].val]
  }

  // ---- Pages -------------------------------------------------------------------------------

  /** Lower and upper bound of a run of children `m` with the runs `a` before and `c` after it. */
  function LoOf(a: seq<Kid>, m: seq<Kid>, lo: Key): Key
    requires m != []
  {
    if a == [] then lo else m[0].sep
  }

  function HiOf(c: seq<Kid>, hi: Option<Key>): Option<Key> {
    if c == [] then hi else Some(c[0].sep)
  }

  predicate Around(env: Env, a: seq<Kid>, sep: Key, c: seq<Kid>, h: nat, lo: Key, hi: Option<Key>)
    requires env.Valid()
  {
    (a == [] || KidsOK(env, a, h, lo, Some(sep))) && (c == [] || KidsOK(env, c, h, c[0].sep, hi))
  }

  /** A run of children is well-formed between its own separator and the next one's, and independent of the rest. */
  lemma Middle(env: Env, a: seq<Kid>, m: seq<Kid>, c: seq<Kid>, h: nat, lo: Key, hi: Option<Key>)
    requires env.Valid() && m != []
    ensures KidsOK(env, a + m + c, h, lo, hi)
            <==> Around(env, a, m[0].sep, c, h, lo, hi) && KidsOK(env, m, h, LoOf(a, m, lo), HiOf(c, hi))
    ensures FlattenKids(a + m + c) == FlattenKids(a) + FlattenKids(m) + FlattenKids(c)
  {
    FlattenAppend(a + m, c);
    FlattenAppend(a, m);
    if c == [] {
      assert a + m + c == a + m;
    } else {
      KidsAppend(env, a + m, c, h, lo, hi);
    }
    if a == [] {
      assert a + m == m;
    } else {
      KidsAppend(env, a, m, h, lo, HiOf(c, hi));
    }
  }

  lemma EntryBounds(env: Env, e: Entry)
    requires env.Valid() && EntryOK(env, e)
    ensures 12 <= LeafSize(e) <= env.PMax() / 2 && LeafSize(e) % 2 == 0
  {
  }

  lemma InsertedSizes(env: Env, ents: seq<Entry>, i: nat, e: Entry)
    requires i <= |ents|
    ensures var all := ents[..i] + [e] + ents[i..];
            LeafUsed(all) == LeafUsed(ents) + LeafSize(e) && LeafSizes(all)[i] == LeafSize(e)
  {
    var all := ents[..i] + [e] + ents[i..];
    var ys := Inserted(LeafSizes(ents), i, LeafSize(e));
    assert LeafSizes(all) == ys;
  }

  lemma InsertedKidSizes(kids: seq<Kid>, j: nat, k: Kid)
    requires j <= |kids|
    ensures var all := kids[..j] + [k] + kids[j..];
            BranchUsed(all) == BranchUsed(kids) + BranchSize(k.sep) && BranchSizes(all)[j] == BranchSize(k.sep)
  {
    var all := kids[..j] + [k] + kids[j..];
    var ys := Inserted(BranchSizes(kids), j, BranchSize(k.sep));
    assert BranchSizes(all) == ys;
  }

  predicate EntriesOK(env: Env, ents: seq<Entry>)
    requires env.Valid()
  {
    forall i :: 0 <= i < |ents| ==> EntryOK(env, ents[i])
  }

  lemma LeafSplittable(env: Env, prior: seq<Entry>, newindx: nat, e: Entry)
    requires env.Valid() && newindx <= |prior| && LeafUsed(prior) <= env.PMax() < LeafUsed(prior) + LeafSize(e)
    requires EntryOK(env, e) && EntriesOK(env, prior)
    ensures var xs := LeafSizes(prior[..newindx] + [e] + prior[newindx..]);
            NodesFit(xs, env.PMax()) && Splittable(xs, newindx, true, env.PMax())
  {
    var all := prior[..newindx] + [e] + prior[newindx..];
    InsertedSizes(env, prior, newindx, e);
    forall i | 0 <= i < |all| ensures 12 <= LeafSize(all[i]) <= env.PMax() / 2 {
      EntryBounds(env, all[i]);
    }
    SumAtMost(LeafSizes(prior), env.PMax() / 2);
  }

  /** A full leaf is cut into two leaves, unless the split point is taken by count and a half overflows. */
  lemma SplitLeafOK(env: Env, prior: seq<Entry>, newindx: nat, e: Entry, lo: Key, hi: Option<Key>)
    requires env.Valid() && newindx <= |prior| && LeafUsed(prior) <= env.PMax() < LeafUsed(prior) + LeafSize(e)
    requires EntryOK(env, e) && EntriesOK(env, prior)
    requires var all := prior[..newindx] + [e] + prior[newindx..];
             Sorted(Pairs(all)) && AllInRange(Pairs(all), lo, hi)
    ensures var all := prior[..newindx] + [e] + prior[newindx..];
            var c := SplitLeaf(env, all, newindx);
            ChangeOK(env, c, 0, lo, hi, Pairs(all)) && (c.Full? <==> LeafRefused(env, prior, newindx, e))
  {
    hide Sum, CountedOverfull, Less, SplitIndex, Sorted, AllInRange, TreeOK;
    var all := prior[..newindx] + [e] + prior[newindx..];
    var pmax := env.PMax();
    var xs := LeafSizes(all);
    LeafSplittable(env, prior, newindx, e);
    var s := SplitIndex(xs, newindx, true, pmax);
    SplitFailsExactly(xs, newindx, true, pmax);
    if 0 < s && Sum(xs[..s]) <= pmax && RightUsed(xs, s, true) <= pmax {
      SlicedLeaf(env, all, s, lo, hi);
    }
  }

  lemma SlicedLeaf(env: Env, ents: seq<Entry>, s: nat, lo: Key, hi: Option<Key>)
    requires env.Valid() && 0 < s < |ents| && EntriesOK(env, ents)
    requires Sorted(Pairs(ents)) && AllInRange(Pairs(ents), lo, hi)
    requires Sum(LeafSizes(ents)[..s]) <= env.PMax() && Sum(LeafSizes(ents)[s..]) <= env.PMax()
    ensures TreeOK(env, Leaf(ents[..s]), 0, lo, Some(ents[s].key)) && TreeOK(env, Leaf(ents[s..]), 0, ents[s].key, hi)
    ensures Pairs(ents[..s]) + Pairs(ents[s..]) == Pairs(ents)
  {
    hide Sum, Less, Sorted, AllInRange;
    var ps := Pairs(ents);
    assert LeafSizes(ents[..s]) == LeafSizes(ents)[..s] && LeafSizes(ents[s..]) == LeafSizes(ents)[s..];
    assert Pairs(ents[..s]) == ps[..s] && Pairs(ents[s..]) == ps[s..];
    SortedSlices(ps, s, lo, hi);
  }

  lemma SortedSlices(ps: seq<Pair>, s: nat, lo: Key, hi: Option<Key>)
    requires 0 < s < |ps| && Sorted(ps) && AllInRange(ps, lo, hi)
    ensures Sorted(ps[..s]) && AllInRange(ps[..s], lo, Some(ps[s].key))
    ensures Sorted(ps[s..]) && AllInRange(ps[s..], ps[s].key, hi)
  {
  }

  lemma PlaceLeafOK(env: Env, prior: seq<Entry>, i: nat, e: Entry, lo: Key, hi: Option<Key>)
    requires env.Valid() && i <= |prior| && LeafUsed(prior) <= env.PMax()
    requires EntryOK(env, e) && EntriesOK(env, prior)
    requires var ps := Pairs(prior[..i] + [e] + prior[i..]); Sorted(ps) && AllInRange(ps, lo, hi)
    ensures var c := PlaceLeaf(env, prior, i, e);
            ChangeOK(env, c, 0, lo, hi, Pairs(prior[..i] + [e] + prior[i..]))
            && (c.Full? <==> LeafRefused(env, prior, i, e))
  {
    InsertedSizes(env, prior, i, e);
    if env.PMax() - LeafUsed(prior) < LeafSize(e) {
      SplitLeafOK(env, prior, i, e, lo, hi);
    }
  }

  lemma NewEntryOK(env: Env, k: Key, v: seq<byte>)
    requires env.Valid() && KeyOK(k)
    ensures EntryOK(env, NewEntry(env, k, v))
  {
  }

  /** Same size: the node is overwritten where it is. */
  lemma InPlaceOK(env: Env, ents: seq<Entry>, i: nat, e: Entry, lo: Key, hi: Option<Key>)
    requires env.Valid() && ents != [] && LeafOK(env, ents, lo, hi) && i < |ents|
    requires e.key == ents[i].key && EntryOK(env, e) && LeafSize(e) == LeafSize(ents[i])
    ensures TreeOK(env, Leaf(ents[i := e]), 0, lo, hi)
    ensures Pairs(ents[i := e]) == Pairs(ents)[..i] + [Pair(e.key, e.val)] + Pairs(ents)[i+1..]
  {
    assert LeafSizes(ents[i := e]) == LeafSizes(ents);
    SameKeys(Pairs(ents), i, Pair(e.key, e.val), lo, hi);
    assert Pairs(ents[i := e]) == Pairs(ents)[i := Pair(e.key, e.val)];
  }

  lemma SameKeys(ps: seq<Pair>, i: nat, p: Pair, lo: Key, hi: Option<Key>)
    requires Sorted(ps) && AllInRange(ps, lo, hi) && i < |ps| && p.key == ps[i].key
    ensures Sorted(ps[i := p]) && AllInRange(ps[i := p], lo, hi)
    ensures ps[i := p] == ps[..i] + [p] + ps[i+1..]
  {
  }

  /** Different size: the node is deleted and added again. */
  lemma RewriteOK(env: Env, ents: seq<Entry>, i: nat, e: Entry, lo: Key, hi: Option<Key>)
    requires env.Valid() && LeafOK(env, ents, lo, hi) && i < |ents|
    requires e.key == ents[i].key && EntryOK(env, e)
    ensures var c := PlaceLeaf(env, ents[..i] + ents[i+1..], i, e);
            ChangeOK(env, c, 0, lo, hi, Pairs(ents)[..i] + [Pair(e.key, e.val)] + Pairs(ents)[i+1..])
            && (c.Full? <==> LeafRefused(env, ents[..i] + ents[i+1..], i, e))
  {
    var prior := ents[..i] + ents[i+1..];
    assert EntriesOK(env, prior);
    assert prior[..i] + [e] + prior[i..] == ents[i := e];
    SameKeys(Pairs(ents), i, Pair(e.key, e.val), lo, hi);
    assert Pairs(ents[i := e]) == Pairs(ents)[i := Pair(e.key, e.val)];
    RemovedSizes(ents, i);
    PlaceLeafOK(env, prior, i, e, lo, hi);
  }

  lemma LeafPutOK(env: Env, ents: seq<Entry>, lo: Key, hi: Option<Key>, k: Key, v: seq<byte>, dirty: bool)
    requires env.Valid() && LeafOK(env, ents, lo, hi) && KeyOK(k) && InRange(k, lo, hi)
    ensures var c := LeafPut(env, ents, k, v, dirty);
            ChangeOK(env, c, 0, lo, hi, SeqPut(Pairs(ents), k, v))
            && (c.Full? <==> LeafPutRefused(env, ents, k, v, dirty))
  {
    var ps := Pairs(ents);
    var i := Pos(ps, k);
    NewEntryOK(env, k, v);
    SeqPutAt(ps, k, v);
    if i < |ents| && ents[i].key == k {
      assert SeqPut(ps, k, v) == ps[..i] + [Pair(k, v)] + ps[i+1..];
      var reuse := 0 < ents[i].ovpages && ents[i].ovpages >= env.OvPages(|v|) && dirty;
      OverwriteOK(env, ents, i, NewEntry(env, k, v), reuse, lo, hi);
    } else {
      assert SeqPut(ps, k, v) == ps[..i] + [Pair(k, v)] + ps[i..];
      InsertOK(env, ents, i, NewEntry(env, k, v), lo, hi);
    }
  }

  lemma OverwriteOK(env: Env, ents: seq<Entry>, i: nat, e: Entry, reuse: bool, lo: Key, hi: Option<Key>)
    requires env.Valid() && LeafOK(env, ents, lo, hi) && EntryOK(env, e)
    requires i < |ents| && ents[i].key == e.key && (reuse ==> ents[i].ovpages > 0)
    ensures var c := LeafOverwrite(env, ents, i, e, reuse);
            ChangeOK(env, c, 0, lo, hi, Pairs(ents)[..i] + [Pair(e.key, e.val)] + Pairs(ents)[i+1..])
            && (c.Full? <==> OverwriteRefused(env, ents, i, e, reuse))
  {
    var o := ents[i];
    assert EntryOK(env, o);
    if reuse || (o.ovpages == 0 && |e.val| == |o.val|) {
      InPlaceOK(env, ents, i, Entry(e.key, e.val, o.ovpages), lo, hi);
    } else {
      RewriteOK(env, ents, i, e, lo, hi);
    }
  }

  lemma InsertOK(env: Env, ents: seq<Entry>, i: nat, e: Entry, lo: Key, hi: Option<Key>)
    requires env.Valid() && LeafOK(env, ents, lo, hi) && EntryOK(env, e) && InRange(e.key, lo, hi)
    requires i == Pos(Pairs(ents), e.key) && (i < |ents| ==> ents[i].key != e.key)
    ensures var c := PlaceLeaf(env, ents, i, e);
            ChangeOK(env, c, 0, lo, hi, Pairs(ents)[..i] + [Pair(e.key, e.val)] + Pairs(ents)[i..])
            && (c.Full? <==> LeafRefused(env, ents, i, e))
  {
    hide PlaceLeaf, Sum, Less, EntryOK;
    var ps := Pairs(ents);
    PosSpec(ps, e.key);
    assert Pairs(ents[..i] + [e] + ents[i..]) == ps[..i] + [Pair(e.key, e.val)] + ps[i..];
    InsertedSorted(ps, i, Pair(e.key, e.val), lo, hi);
    PlaceLeafOK(env, ents, i, e, lo, hi);
  }

  lemma InsertedSorted(ps: seq<Pair>, i: nat, p: Pair, lo: Key, hi: Option<Key>)
    requires Sorted(ps) && AllInRange(ps, lo, hi) && InRange(p.key, lo, hi) && i <= |ps|
    requires forall j :: 0 <= j < i ==> Less(ps[j].key, p.key)
    requires forall j :: i <= j < |ps| ==> Less(p.key, ps[j].key)
    ensures Sorted(ps[..i] + [p] + ps[i..]) && AllInRange(ps[..i] + [p] + ps[i..], lo, hi)
  {
  }

  lemma RemovedSizes(ents: seq<Entry>, i: nat)
    requires i < |ents|
    ensures LeafUsed(ents[..i] + ents[i+1..]) + LeafSize(ents[i]) == LeafUsed(ents)
  {
    var prior := ents[..i] + ents[i+1..];
    InsertedSizes(Env(4096), prior, i, ents[i]);
    assert prior[..i] + [ents[i]] + prior[i..] == ents;
  }

  // ---- Branch pages ------------------------------------------------------------------------

  lemma BranchSplittable(env: Env, kids: seq<Kid>, j: nat, k: Kid)
    requires env.Valid() && 1 <= j <= |kids| && SepsOK(kids) && |k.sep| <= MAXKEYSIZE
    requires BranchUsed(kids) <= env.PMax() < BranchUsed(kids) + BranchSize(k.sep)
    ensures var xs := BranchSizes(kids[..j] + [k] + kids[j..]);
            NodesFit(xs, env.PMax()) && Splittable(xs, j, false, env.PMax())
            && 2 <= SplitIndex(xs, j, false, env.PMax()) <= |xs| - 2
  {
    var all := kids[..j] + [k] + kids[j..];
    var xs := BranchSizes(all);
    InsertedKidSizes(kids, j, k);
    forall i | 0 <= i < |all| ensures 10 <= xs[i] <= 522 {
      assert |all[i].sep| <= MAXKEYSIZE;
    }
    ManyNodes(xs, env.PMax(), 522);
    BranchHalvesHaveTwo(xs, j, env.PMax(), 522);
  }

  /** A full branch page is cut into two with two children at least, unless it is cut by count and overflows. */
  lemma SplitBranchOK(env: Env, kids: seq<Kid>, j: nat, k: Kid, h: nat, lo: Key, hi: Option<Key>)
    requires env.Valid() && 1 <= j <= |kids| && SepsOK(kids) && kids[0].sep == [] && |k.sep| <= MAXKEYSIZE
    requires BranchUsed(kids) <= env.PMax() < BranchUsed(kids) + BranchSize(k.sep)
    requires KidsOK(env, kids[..j] + [k] + kids[j..], h, lo, hi)
    ensures var all := kids[..j] + [k] + kids[j..];
            var c := SplitBranch(env, all, j);
            ChangeOK(env, c, h + 1, lo, hi, FlattenKids(all)) && (c.Full? <==> KidRefused(env, kids, j, k))
  {
    hide Sum, KidsOK, FlattenKids, SplitBranch, CountedOverfull;
    var all := kids[..j] + [k] + kids[j..];
    BranchSplittable(env, kids, j, k);
    CutBranchOK(env, all, j, h, lo, hi);
  }

  lemma CutBranchOK(env: Env, kids: seq<Kid>, j: nat, h: nat, lo: Key, hi: Option<Key>)
    requires env.Valid() && kids != [] && SepsOK(kids) && kids[0].sep == [] && KidsOK(env, kids, h, lo, hi)
    requires NodesFit(BranchSizes(kids), env.PMax()) && Splittable(BranchSizes(kids), j, false, env.PMax())
    requires 2 <= SplitIndex(BranchSizes(kids), j, false, env.PMax()) <= |kids| - 2
    ensures var c := SplitBranch(env, kids, j);
            ChangeOK(env, c, h + 1, lo, hi, FlattenKids(kids))
            && (c.Full? <==> CountedOverfull(BranchSizes(kids), j, false, env.PMax()))
  {
    hide Sum, KidsOK, FlattenKids, BranchSize, Forward, Backward, CountedOverfull;
    var xs := BranchSizes(kids);
    var s := SplitIndex(xs, j, false, env.PMax());
    SplitFailsExactly(xs, j, false, env.PMax());
    if Sum(xs[..s]) <= env.PMax() && RightUsed(xs, s, false) <= env.PMax() {
      SlicedBranch(env, kids, s, h, lo, hi);
    }
  }

  lemma SlicedPages(kids: seq<Kid>, s: nat)
    requires 2 <= s <= |kids| - 2 && SepsOK(kids)
    ensures var left, right := kids[..s], [Kid([], kids[s].tree)] + kids[s+1..];
            && SepsOK(left) && SepsOK(right)
            && BranchUsed(left) == Sum(BranchSizes(kids)[..s]) && BranchUsed(right) == RightUsed(BranchSizes(kids), s, false)
  {
    hide Sum;
    var left, right := kids[..s], [Kid([], kids[s].tree)] + kids[s+1..];
    assert BranchSizes(left) == BranchSizes(kids)[..s];
    var rest := BranchSizes(kids)[s+1..];
    assert BranchSizes(right) == [10] + rest;
    SumOne(10);
    SumAppend([10], rest);
  }

  lemma SlicedBranch(env: Env, kids: seq<Kid>, s: nat, h: nat, lo: Key, hi: Option<Key>)
    requires env.Valid() && 2 <= s <= |kids| - 2 && SepsOK(kids) && kids[0].sep == []
    requires KidsOK(env, kids, h, lo, hi)
    requires Sum(BranchSizes(kids)[..s]) <= env.PMax() && RightUsed(BranchSizes(kids), s, false) <= env.PMax()
    ensures var left, right := kids[..s], [Kid([], kids[s].tree)] + kids[s+1..];
            TreeOK(env, Branch(left), h + 1, lo, Some(kids[s].sep)) && TreeOK(env, Branch(right), h + 1, kids[s].sep, hi)
            && FlattenKids(left) + FlattenKids(right) == FlattenKids(kids)
  {
    hide FlattenKids, Sum, RightUsed, SepsOK, BranchUsed, KidsOK, Less;
    var left, tail := kids[..s], kids[s..];
    assert kids == left + tail && tail[1..] == kids[s+1..];
    KidsAppend(env, left, tail, h, lo, hi);
    FlattenAppend(left, tail);
    SlotZeroFree(env, tail, [], h, kids[s].sep, hi);
    SlicedPages(kids, s);
  }

  lemma PlaceKidOK(env: Env, kids: seq<Kid>, j: nat, k: Kid, h: nat, lo: Key, hi: Option<Key>)
    requires env.Valid() && 1 <= j <= |kids| && BranchPageOK(env, kids) && |k.sep| <= MAXKEYSIZE
    requires KidsOK(env, kids[..j] + [k] + kids[j..], h, lo, hi)
    ensures var all := kids[..j] + [k] + kids[j..];
            var c := PlaceKid(env, kids, j, k.sep, k.tree);
            ChangeOK(env, c, h + 1, lo, hi, FlattenKids(all)) && (c.Full? <==> KidRefused(env, kids, j, k))
  {
    hide Sum, KidsOK, FlattenKids, SplitBranch, CountedOverfull;
    InsertedKidSizes(kids, j, k);
    EvenUsed(kids);
    if env.PMax() - BranchUsed(kids) < NODESIZE + |k.sep| + SLOT {
      SplitBranchOK(env, kids, j, k, h, lo, hi);
    }
  }

  /** Node sizes are even, so comparing with an unrounded size is comparing with the rounded one. */
  lemma {:induction false} EvenUsed(kids: seq<Kid>)
    ensures BranchUsed(kids) % 2 == 0
  {
    if kids != [] {
      assert BranchSizes(kids)[1..] == BranchSizes(kids[1..]);
      EvenUsed(kids[1..]);
    }
  }

  // ---- The whole tree ----------------------------------------------------------------------

  lemma {:induction false} KidIndexSpec(kids: seq<Kid>, k: Key)
    requires kids != []
    ensures var i := KidIndex(kids, k);
            (i > 0 ==> AtMost(kids[i].sep, k)) && (i + 1 < |kids| ==> Less(k, kids[i+1].sep))
  {
    if |kids| > 1 && !Less(k, kids[1].sep) {
      LessTotal(k, kids[1].sep);
      KidIndexSpec(kids[1..], k);
    }
  }

  /** Exchange child `i` for the run `m` that carries its separator. */
  lemma Exchange(env: Env, kids: seq<Kid>, i: nat, m: seq<Kid>, h: nat, lo: Key, hi: Option<Key>)
    requires env.Valid() && i < |kids| && KidsOK(env, kids, h, lo, hi)
    requires m != [] && m[0].sep == kids[i].sep
    requires KidsOK(env, m, h, LoOf(kids[..i], [kids[i]], lo), HiOf(kids[i+1..], hi))
    ensures KidsOK(env, kids[..i] + m + kids[i+1..], h, lo, hi)
    ensures FlattenKids(kids[..i] + m + kids[i+1..]) == FlattenKids(kids[..i]) + FlattenKids(m) + FlattenKids(kids[i+1..])
  {
    assert kids == kids[..i] + [kids[i]] + kids[i+1..];
    Middle(env, kids[..i], [kids[i]], kids[i+1..], h, lo, hi);
    Middle(env, kids[..i], m, kids[i+1..], h, lo, hi);
  }

  lemma NewChildOK(env: Env, kids: seq<Kid>, i: nat, t: Tree, h: nat, lo: Key, hi: Option<Key>)
    requires env.Valid() && i < |kids| && |kids| >= 2 && BranchPageOK(env, kids) && KidsOK(env, kids, h, lo, hi)
    requires TreeOK(env, t, h, LoOf(kids[..i], [kids[i]], lo), HiOf(kids[i+1..], hi))
    ensures var kids' := kids[i := Kid(kids[i].sep, t)];
            TreeOK(env, Branch(kids'), h + 1, lo, hi)
            && FlattenKids(kids') == FlattenKids(kids[..i]) + Flatten(t) + FlattenKids(kids[i+1..])
  {
    var m := [Kid(kids[i].sep, t)];
    var kids' := kids[i := Kid(kids[i].sep, t)];
    Exchange(env, kids, i, m, h, lo, hi);
    assert kids' == kids[..i] + m + kids[i+1..];
    FlattenKidsOne(m[0]);
    SamePage(env, kids, i, t);
  }

  lemma TwoKids(env: Env, a: Kid, b: Kid, h: nat, lo: Key, hi: Option<Key>)
    requires env.Valid()
    ensures KidsOK(env, [a, b], h, lo, hi)
            <==> TreeOK(env, a.tree, h, lo, Some(b.sep)) && TreeOK(env, b.tree, h, b.sep, hi)
    ensures FlattenKids([a, b]) == Flatten(a.tree) + Flatten(b.tree)
  {
    assert [a, b][1..] == [b];
    FlattenKidsOne(b);
  }

  lemma TwoChildrenOK(env: Env, kids: seq<Kid>, i: nat, l: Tree, s: Key, r: Tree, h: nat, lo: Key, hi: Option<Key>)
    requires env.Valid() && i < |kids| && |kids| >= 2 && BranchPageOK(env, kids) && KidsOK(env, kids, h, lo, hi)
    requires ChangeOK(env, Split(l, s, r), h, LoOf(kids[..i], [kids[i]], lo), HiOf(kids[i+1..], hi), Flatten(l) + Flatten(r))
    ensures var kids' := kids[i := Kid(kids[i].sep, l)];
            var c := PlaceKid(env, kids', i + 1, s, r);
            ChangeOK(env, c, h + 1, lo, hi, FlattenKids(kids[..i]) + (Flatten(l) + Flatten(r)) + FlattenKids(kids[i+1..]))
            && (c.Full? <==> KidRefused(env, kids', i + 1, Kid(s, r)))
  {
    hide KidsOK, TreeOK, FlattenKids, BranchPageOK, PlaceKid;
    var kids' := kids[i := Kid(kids[i].sep, l)];
    var m := [Kid(kids[i].sep, l), Kid(s, r)];
    var a, z := kids[..i], kids[i+1..];
    TwoKids(env, m[0], m[1], h, LoOf(a, [kids[i]], lo), HiOf(z, hi));
    Exchange(env, kids, i, m, h, lo, hi);
    assert kids'[..i+1] + [Kid(s, r)] + kids'[i+1..] == a + m + z;
    SamePage(env, kids, i, l);
    PlaceKidOK(env, kids', i + 1, Kid(s, r), h, lo, hi);
  }

  lemma SamePage(env: Env, kids: seq<Kid>, i: nat, t: Tree)
    requires env.Valid() && i < |kids| && BranchPageOK(env, kids)
    ensures BranchPageOK(env, kids[i := Kid(kids[i].sep, t)])
  {
    assert BranchSizes(kids[i := Kid(kids[i].sep, t)]) == BranchSizes(kids);
  }

  lemma AfterChildOK(env: Env, kids: seq<Kid>, i: nat, c: Change, h: nat, lo: Key, hi: Option<Key>, ps: seq<Pair>)
    requires env.Valid() && i < |kids| && |kids| >= 2 && BranchPageOK(env, kids) && KidsOK(env, kids, h, lo, hi)
    requires ChangeOK(env, c, h, LoOf(kids[..i], [kids[i]], lo), HiOf(kids[i+1..], hi), ps)
    ensures var r := AfterChild(env, kids, i, c);
            ChangeOK(env, r, h + 1, lo, hi, FlattenKids(kids[..i]) + ps + FlattenKids(kids[i+1..]))
            && (r.Full? <==> c.Full? || AfterChildRefused(env, kids, i, c))
  {
    match c
    case Full =>
    case Fits(t) => NewChildOK(env, kids, i, t, h, lo, hi);
    case Split(l, s, r) => TwoChildrenOK(env, kids, i, l, s, r, h, lo, hi);
  }

  /** Everything before the chosen child is below the key, everything after it above. */
  lemma ChildBounds(env: Env, kids: seq<Kid>, k: Key, h: nat, lo: Key, hi: Option<Key>)
    requires env.Valid() && kids != [] && KidsOK(env, kids, h, lo, hi) && InRange(k, lo, hi)
    ensures var i := KidIndex(kids, k);
            var lo', hi' := LoOf(kids[..i], [kids[i]], lo), HiOf(kids[i+1..], hi);
            && TreeOK(env, kids[i].tree, h, lo', hi') && InRange(k, lo', hi')
            && FlattenKids(kids) == FlattenKids(kids[..i]) + Flatten(kids[i].tree) + FlattenKids(kids[i+1..])
            && AllBelow(FlattenKids(kids[..i]), k) && AllAbove(FlattenKids(kids[i+1..]), k)
  {
    hide TreeOK, KidIndex;
    var i := KidIndex(kids, k);
    KidIndexSpec(kids, k);
    var a, z := kids[..i], kids[i+1..];
    assert kids == a + [kids[i]] + z;
    Middle(env, a, [kids[i]], z, h, lo, hi);
    FlattenKidsOne(kids[i]);
    if a != [] {
      KidsContents(env, a, h, lo, Some(kids[i].sep));
      var ps := FlattenKids(a);
      forall j | 0 <= j < |ps| ensures Less(ps[j].key, k) {
        if kids[i].sep != k { LessTransitive(ps[j].key, kids[i].sep, k); }
      }
    }
    if z != [] {
      KidsContents(env, z, h, z[0].sep, hi);
      var ps := FlattenKids(z);
      forall j | 0 <= j < |ps| ensures Less(k, ps[j].key) {
        if z[0].sep != ps[j].key { LessTransitive(k, z[0].sep, ps[j].key); }
      }
    }
  }

  /** Put on a page and everything below it: the change is well-formed and holds exactly the new contents,
      and it fails exactly when a page on the way is cut by count with a half over the page. */
  lemma {:induction false} PutOK(env: Env, t: Tree, h: nat, lo: Key, hi: Option<Key>, k: Key, v: seq<byte>, dirty: bool)
    requires env.Valid() && TreeOK(env, t, h, lo, hi) && KeyOK(k) && InRange(k, lo, hi)
    ensures ChangeOK(env, Put(env, t, k, v, dirty), h, lo, hi, SeqPut(Flatten(t), k, v))
    ensures Put(env, t, k, v, dirty).Full? <==> PutRefused(env, t, k, v, dirty)
    decreases h
  {
    hide KidsOK, BranchPageOK, ChangeOK, AfterChild, SeqPut, AllBelow, AllAbove, LeafPut, LeafPutRefused, AfterChildRefused;
    match t
    case Leaf(ents) => LeafPutOK(env, ents, lo, hi, k, v, dirty);
    case Branch(kids) =>
      var i := KidIndex(kids, k);
      var a, z := kids[..i], kids[i+1..];
      var child := kids[i].tree;
      ChildBounds(env, kids, k, h - 1, lo, hi);
      PutOK(env, child, h - 1, LoOf(a, [kids[i]], lo), HiOf(z, hi), k, v, dirty);
      PutMiddle(FlattenKids(a), Flatten(child), FlattenKids(z), k, v);
      AfterChildOK(env, kids, i, Put(env, child, k, v, dirty), h - 1, lo, hi, SeqPut(Flatten(child), k, v));
  }

  // ---- The database ------------------------------------------------------------------------

  datatype Db = Empty | Root(tree: Tree, depth: nat)
  datatype PutResult = Ok(db: Db) | BadValSize | PageFull

  predicate DbOK(env: Env, db: Db)
    requires env.Valid()
  {
    db.Root? ==> TreeOK(env, db.tree, db.depth, [], None)
  }

  function Contents(db: Db): seq<Pair> {
    if db.Empty? then [] else Flatten(db.tree)
  }

  function PutDb(env: Env, db: Db, k: Key, v: seq<byte>, dirty: bool): PutResult
    requires env.Valid()
  {
    if !KeyOK(k) then BadValSize
    else if db.Empty? then Ok(Root(Leaf([NewEntry(env, k, v)]), 0))
    else
      match Put(env, db.tree, k, v, dirty)
      case Fits(t) => Ok(Root(t, db.depth))
      case Split(l, s, r) => Ok(Root(Branch([Kid([], l), Kid(s, r)]), db.depth + 1))
      case Full => PageFull
  }

  lemma {:induction false} ToMapOfPut(ps: seq<Pair>, k: Key, v: seq<byte>)
    ensures ToMap(SeqPut(ps, k, v)) == ToMap(ps)[k := v]
  {
    LessIrreflexive(k);
    if ps != [] && Less(ps[0].key, k) { ToMapOfPut(ps[1..], k, v); }
  }

  /** A put that succeeds leaves a well-formed tree holding exactly the old map with the key set. */
  lemma PutRefinesMap(env: Env, db: Db, k: Key, v: seq<byte>, dirty: bool)
    requires env.Valid() && DbOK(env, db)
    ensures match PutDb(env, db, k, v, dirty)
            case Ok(db') =>
              && DbOK(env, db') && Contents(db') == SeqPut(Contents(db), k, v)
              && ToMap(Contents(db')) == ToMap(Contents(db))[k := v]
            case _ => true
    ensures PutDb(env, db, k, v, dirty).BadValSize? <==> |k| == 0 || |k| > 511
    ensures PutDb(env, db, k, v, dirty).PageFull? <==> KeyOK(k) && db.Root? && PutRefused(env, db.tree, k, v, dirty)
  {
    if KeyOK(k) {
      ToMapOfPut(Contents(db), k, v);
      if db.Empty? {
        var e := NewEntry(env, k, v);
        NewEntryOK(env, k, v);
        EntryBounds(env, e);
        InsertedSizes(env, [], 0, e);
        assert [] + [e] + [] == [e];
      } else {
        PutOK(env, db.tree, db.depth, [], None, k, v, dirty);
        var c := Put(env, db.tree, k, v, dirty);
        if c.Split? { NewRootOK(env, c.left, c.sep, c.right, db.depth); }
      }
    }
  }

  lemma NewRootOK(env: Env, l: Tree, s: Key, r: Tree, h: nat)
    requires env.Valid() && |s| <= MAXKEYSIZE && TreeOK(env, l, h, [], Some(s)) && TreeOK(env, r, h, s, None)
    ensures TreeOK(env, Branch([Kid([], l), Kid(s, r)]), h + 1, [], None)
    ensures FlattenKids([Kid([], l), Kid(s, r)]) == Flatten(l) + Flatten(r)
  {
    var kids := [Kid([], l), Kid(s, r)];
    TwoKids(env, kids[0], kids[1], h, [], None);
    var xs := BranchSizes(kids);
    assert xs[1..] == [BranchSize(s)] && xs[1..][1..] == [];
    assert Sum(xs[1..]) == BranchSize(s);
  }

  // ---- Lookup ------------------------------------------------------------------------------

  function Get(t: Tree, k: Key): Option<seq<byte>>
    decreases t
  {
    match t
    case Leaf(ents) =>
      var i := Pos(Pairs(ents), k);
      if i < |ents| && ents[i].key == k then Some(ents[i].val) else None
    case Branch(kids) => if kids == [] then None else Get(kids[KidIndex(kids, k)].tree, k)
  }

  lemma {:induction false} ToMapHas(ps: seq<Pair>, k: Key)
    requires Sorted(ps)
    ensures var i := Pos(ps, k); var m := ToMap(ps);
            (k in m <==> i < |ps| && ps[i].key == k) && (k in m ==> m[k] == ps[i].val)
  {
    LessIrreflexive(k);
    if ps != [] {
      ToMapHas(ps[1..], k);
      if !Less(ps[0].key, k) && ps[0].key != k {
        PosSpec(ps, k);
        PosUnique(ps[1..], k, 0);
      }
    }
  }

  lemma ToMapAppend(a: seq<Pair>, b: seq<Pair>, c: seq<Pair>, k: Key)
    requires Sorted(a + b + c)
    requires AllBelow(a, k)
    requires AllAbove(c, k)
    ensures Sorted(b)
    ensures k in ToMap(a + b + c) <==> k in ToMap(b)
    ensures k in ToMap(b) ==> ToMap(a + b + c)[k] == ToMap(b)[k]
  {
    var whole := a + b + c;
    forall i, j | 0 <= i < j < |b| ensures Less(b[i].key, b[j].key) {
      assert whole[|a| + i] == b[i] && whole[|a| + j] == b[j];
    }
    PosSpec(b, k);
    ToMapHas(b, k);
    ToMapHas(whole, k);
    LessIrreflexive(k);
    if c != [] { LessAsymmetric(k, c[0].key); }
    PosUnique(whole, k, |a| + Pos(b, k));
  }

  /** A lookup finds exactly what the map holds. */
  lemma {:induction false} GetFinds(env: Env, t: Tree, h: nat, lo: Key, hi: Option<Key>, k: Key)
    requires env.Valid() && TreeOK(env, t, h, lo, hi) && InRange(k, lo, hi)
    ensures var m := ToMap(Flatten(t)); Get(t, k) == if k in m then Some(m[k]) else None
    decreases h
  {
    TreeContents(env, t, h, lo, hi);
    match t
    case Leaf(ents) => ToMapHas(Pairs(ents), k);
    case Branch(kids) =>
      var i := KidIndex(kids, k);
      ChildBounds(env, kids, k, h - 1, lo, hi);
      GetFinds(env, kids[i].tree, h - 1, LoOf(kids[..i], [kids[i]], lo), HiOf(kids[i+1..], hi), k);
      ToMapAppend(FlattenKids(kids[..i]), Flatten(kids[i].tree), FlattenKids(kids[i+1..]), k);
  }
}
