/** The engine's B+tree for a plain database: pages with byte-accurate sizes, and what a lookup means.

    A page is the sequence of its nodes. A branch node is a child with the separator key in front of it;
    slot 0 of a branch page always carries the empty key. */
module BTree {
  import opened Keys
  import opened SplitPoint

  const PAGEHDRSZ := 16
  const NODESIZE := 8
  const SLOT := 2
  const PGNOSIZE := 8
  const MAXKEYSIZE := 511

  function Quotient(a: nat, b: nat): nat
    requires b > 0
  {
    a / b
  }

  datatype Env = Env(psize: nat) {
    predicate Valid() {
      4096 <= psize <= 0x8000 && psize % 2 == 0
    }

    /** Room for nodes and their slots on an empty page. */
    function PMax(): nat
      requires Valid()
    {
      psize - PAGEHDRSZ
    }

    /** Largest node kept on a leaf page; two of them always share a page. */
    function NodeMax(): nat
      requires Valid()
    {
      PMax() / 2 - PMax() / 2 % 2 - SLOT
    }

    /** Pages an overflow run needs for `size` bytes of data. */
    function OvPages(size: nat): nat
      requires Valid()
    {
      Quotient(PAGEHDRSZ - 1 + size, psize) + 1
    }
  }

  /** A leaf node; `ovpages` counts the overflow pages its data sits on, 0 when the data is in the node. */
  datatype Entry = Entry(key: Key, val: seq<byte>, ovpages: nat)
  datatype Kid = Kid(sep: Key, tree: Tree)
  datatype Tree = Leaf(ents: seq<Entry>) | Branch(kids: seq<Kid>)
  datatype Pair = Pair(key: Key, val: seq<byte>)

  function LeafSize(e: Entry): nat {
    Even(NODESIZE + |e.key| + (if e.ovpages > 0 then PGNOSIZE else |e.val|)) + SLOT
  }

  function BranchSize(sep: Key): nat {
    Even(NODESIZE + |sep|) + SLOT
  }

  function LeafSizes(ents: seq<Entry>): (xs: seq<nat>)
    ensures |xs| == |ents| && forall i :: 0 <= i < |ents| ==> xs[i] == LeafSize(ents[i])
  {
    seq(|ents|, i requires 0 <= i < |ents| => LeafSize(ents[i]))
  }

  function BranchSizes(kids: seq<Kid>): (xs: seq<nat>)
    ensures |xs| == |kids| && forall i :: 0 <= i < |kids| ==> xs[i] == BranchSize(kids[i].sep)
  {
    seq(|kids|, i requires 0 <= i < |kids| => BranchSize(kids[i].sep))
  }

  function LeafUsed(ents: seq<Entry>): nat { Sum(LeafSizes(ents)) }

  function BranchUsed(kids: seq<Kid>): nat { Sum(BranchSizes(kids)) }

  // ---- Contents ----------------------------------------------------------------------------

  function Pairs(ents: seq<Entry>): (ps: seq<Pair>)
    ensures |ps| == |ents| && forall i :: 0 <= i < |ents| ==> ps[i] == Pair(ents[i].key, ents[i].val)
  {
    seq(|ents|, i requires 0 <= i < |ents| => Pair(ents[i].key, ents[i].val))
  }

  /** Every pair of the tree, in page order. */
  function Flatten(t: Tree): seq<Pair>
    decreases t, 0
  {
    match t
    case Leaf(ents) => Pairs(ents)
    case Branch(kids) => FlattenKids(kids)
  }

  function FlattenKids(kids: seq<Kid>): seq<Pair>
    decreases kids, 1
  {
    if kids == [] then [] else Flatten(kids[0].tree) + FlattenKids(kids[1..])
  }

  predicate InRange(k: Key, lo: Key, hi: Option<Key>) {
    AtMost(lo, k) && (hi.Some? ==> Less(k, hi.value))
  }

  predicate AllInRange(ps: seq<Pair>, lo: Key, hi: Option<Key>) {
    forall i :: 0 <= i < |ps| ==> InRange(ps[i].key, lo, hi)
  }

  predicate Sorted(ps: seq<Pair>) {
    forall i, j :: 0 <= i < j < |ps| ==> Less(ps[i].key, ps[j].key)
  }

  // ---- Well-formed trees -------------------------------------------------------------------

  predicate EntryOK(env: Env, e: Entry)
    requires env.Valid()
  {
    1 <= |e.key| <= MAXKEYSIZE && (e.ovpages == 0 ==> NODESIZE + |e.key| + |e.val| <= env.NodeMax())
  }

  predicate LeafOK(env: Env, ents: seq<Entry>, lo: Key, hi: Option<Key>)
    requires env.Valid()
  {
    && (forall i :: 0 <= i < |ents| ==> EntryOK(env, ents[i]))
    && Sorted(Pairs(ents)) && AllInRange(Pairs(ents), lo, hi)
    && LeafUsed(ents) <= env.PMax()
  }

  /** What a branch page holds, apart from how its children are ordered. */
  predicate BranchPageOK(env: Env, kids: seq<Kid>)
    requires env.Valid()
  {
    && kids != [] && kids[0].sep == []
    && SepsOK(kids)
    && BranchUsed(kids) <= env.PMax()
  }

  predicate SepsOK(kids: seq<Kid>) {
    forall i :: 0 <= i < |kids| ==> |kids[i].sep| <= MAXKEYSIZE
  }

  /** A page of height `h` that is not the root: keys within bounds, at least one entry or two children. */
  predicate TreeOK(env: Env, t: Tree, h: nat, lo: Key, hi: Option<Key>)
    requires env.Valid()
    decreases h, 0, 0
  {
    match t
    case Leaf(ents) => h == 0 && ents != [] && LeafOK(env, ents, lo, hi)
    case Branch(kids) => h > 0 && |kids| >= 2 && BranchPageOK(env, kids) && KidsOK(env, kids, h - 1, lo, hi)
  }

  /** Consecutive children, each bounded by its own separator and the next one's; slot 0's is not looked at. */
  predicate KidsOK(env: Env, kids: seq<Kid>, h: nat, lo: Key, hi: Option<Key>)
    requires env.Valid() && kids != []
    decreases h, 1, |kids|
  {
    if |kids| == 1 then TreeOK(env, kids[0].tree, h, lo, hi)
    else TreeOK(env, kids[0].tree, h, lo, Some(kids[1].sep)) && KidsOK(env, kids[1..], h, kids[1].sep, hi)
  }

  lemma {:induction false} KidsAppend(env: Env, a: seq<Kid>, b: seq<Kid>, h: nat, lo: Key, hi: Option<Key>)
    requires env.Valid() && a != [] && b != []
    ensures KidsOK(env, a + b, h, lo, hi)
            <==> KidsOK(env, a, h, lo, Some(b[0].sep)) && KidsOK(env, b, h, b[0].sep, hi)
  {
    if |a| == 1 {
      assert (a + b)[1..] == b;
    } else {
      assert (a + b)[1..] == a[1..] + b;
      KidsAppend(env, a[1..], b, h, a[1].sep, hi);
    }
  }

  lemma FlattenKidsOne(k: Kid)
    ensures FlattenKids([k]) == Flatten(k.tree)
  {
    assert [k][1..] == [];
  }

  lemma {:induction false} FlattenAppend(a: seq<Kid>, b: seq<Kid>)
    ensures FlattenKids(a + b) == FlattenKids(a) + FlattenKids(b)
  {
    if a == [] {
      assert a + b == b;
    } else {
      assert (a + b)[1..] == a[1..] + b;
      FlattenAppend(a[1..], b);
    }
  }

  /** Separators of slot 0 carry no meaning. */
  lemma SlotZeroFree(env: Env, kids: seq<Kid>, sep: Key, h: nat, lo: Key, hi: Option<Key>)
    requires env.Valid() && kids != []
    ensures var free := [Kid(sep, kids[0].tree)] + kids[1..];
            KidsOK(env, free, h, lo, hi) == KidsOK(env, kids, h, lo, hi)
            && FlattenKids(free) == FlattenKids(kids)
  {
    assert ([Kid(sep, kids[0].tree)] + kids[1..])[1..] == kids[1..];
  }

  lemma RangeTransitive(k: Key, lo: Key, lo': Key, hi: Option<Key>, hi': Option<Key>)
    requires InRange(k, lo, hi)
    requires AtMost(lo', lo) && (hi'.Some? ==> hi.Some? && AtMost(hi.value, hi'.value))
    ensures InRange(k, lo', hi')
  {
    if lo' != lo && lo != k { LessTransitive(lo', lo, k); }
    if hi'.Some? && hi != hi' { LessTransitive(k, hi.value, hi'.value); }
  }

  /** The contents of a well-formed page are nonempty, sorted and within its bounds. */
  lemma {:induction false} TreeContents(env: Env, t: Tree, h: nat, lo: Key, hi: Option<Key>)
    requires env.Valid() && TreeOK(env, t, h, lo, hi)
    ensures Flatten(t) != [] && Sorted(Flatten(t)) && AllInRange(Flatten(t), lo, hi)
    decreases h, 0, 0
  {
    match t
    case Leaf(_) =>
    case Branch(kids) => KidsContents(env, kids, h - 1, lo, hi);
  }

  lemma {:induction false} KidsContents(env: Env, kids: seq<Kid>, h: nat, lo: Key, hi: Option<Key>)
    requires env.Valid() && kids != [] && KidsOK(env, kids, h, lo, hi)
    ensures FlattenKids(kids) != [] && Sorted(FlattenKids(kids)) && AllInRange(FlattenKids(kids), lo, hi)
    decreases h, 1, |kids|
  {
    var first := Flatten(kids[0].tree);
    if |kids| == 1 {
      TreeContents(env, kids[0].tree, h, lo, hi);
      assert FlattenKids(kids) == first + FlattenKids([]);
    } else {
      var rest := FlattenKids(kids[1..]);
      var mid := kids[1].sep;
      TreeContents(env, kids[0].tree, h, lo, Some(mid));
      KidsContents(env, kids[1..], h, mid, hi);
      Join(first, rest, lo, mid, hi);
    }
  }

  /** Sorted runs on the two sides of a separator join into one. */
  lemma Join(a: seq<Pair>, b: seq<Pair>, lo: Key, mid: Key, hi: Option<Key>)
    requires a != [] && b != [] && Sorted(a) && Sorted(b)
    requires AllInRange(a, lo, Some(mid)) && AllInRange(b, mid, hi)
    ensures Sorted(a + b) && AllInRange(a + b, lo, hi)
  {
    forall i, j | 0 <= i < |a| && 0 <= j < |b| ensures Less(a[i].key, b[j].key) {
      if mid != b[j].key { LessTransitive(a[i].key, mid, b[j].key); }
    }
    forall i | 0 <= i < |a| ensures InRange(a[i].key, lo, hi) {
      if hi.Some? { LessTransitive(a[i].key, b[0].key, hi.value); }
    }
    forall j | 0 <= j < |b| ensures InRange(b[j].key, lo, hi) {
      if lo != a[0].key { LessTransitive(lo, a[0].key, b[j].key); }
    }
  }
}
