/** Two databases of 4096-byte pages in order that refuse a put and a delete: their pages are cut by count,
    and most of the bytes are on the side of the new node. */
module BTreeRefusals {
  import opened Keys
  import opened SplitPoint
  import opened BTree
  import opened BTreePut
  import opened BTreeDelete
  import opened BTreeRuns

  const PAGE := Env(4096)

  function Zeros(n: nat): (z: seq<byte>)
    ensures |z| == n && forall i :: 0 <= i < n ==> z[i] == 0
  {
    seq(n, _ => 0)
  }

  /** Key number `i` among those of `len` bytes. */
  function KeyOf(i: nat, len: nat): (k: Key)
    requires i < 256 && len >= 1
    ensures |k| == len && k[0] == i
  {
    [i as byte] + Zeros(len - 1)
  }

  lemma KeysInOrder(i: nat, len: nat, j: nat, len': nat)
    requires i < j < 256 && len >= 1 && len' >= 1
    ensures Less(KeyOf(i, len), KeyOf(j, len'))
  {
  }

  // ---- A put ---------------------------------------------------------------------------------

  function CrowdedLeaf(): (ents: seq<Entry>)
    ensures |ents| == 32
    ensures forall i :: 0 <= i < 32 ==> ents[i] == Entry(KeyOf(i + 1, 1), if i < 2 then Zeros(1849) else [], 0)
  {
    seq(32, i requires 0 <= i < 32 => Entry(KeyOf(i + 1, 1), if i < 2 then Zeros(1849) else [], 0))
  }

  lemma CrowdedSizes()
    ensures LeafSizes(CrowdedLeaf()) == [1860, 1860] + Twelves(30)
    ensures LeafUsed(CrowdedLeaf()) == PAGE.PMax()
  {
    assert LeafSizes(CrowdedLeaf()) == [1860, 1860] + Twelves(30);
    TwoAnd(1860, 1860, 30);
  }

  lemma TwoAnd(a: nat, b: nat, n: nat)
    ensures Sum([a, b] + Twelves(n)) == a + b + 12 * n
  {
    hide Sum;
    SumTwelves(n);
    SumOne(a);
    SumSnoc([a], b);
    assert [a] + [b] == [a, b];
    SumAppend([a, b], Twelves(n));
  }

  lemma CrowdedLeafOK()
    ensures TreeOK(PAGE, Leaf(CrowdedLeaf()), 0, [], None)
  {
    hide Sum, Less, KeyOf;
    var ents := CrowdedLeaf();
    CrowdedSizes();
    forall i, j | 0 <= i < j < 32 ensures Less(ents[i].key, ents[j].key) {
      KeysInOrder(i + 1, 1, j + 1, 1);
    }
    forall i | 0 <= i < 32 ensures EntryOK(PAGE, ents[i]) && AtMost([], ents[i].key) {
      LowestOfAll(i + 1, 1);
    }
  }

  lemma LowestOfAll(i: nat, len: nat)
    requires i < 256 && len >= 1
    ensures AtMost([], KeyOf(i, len)) && |KeyOf(i, len)| == len
  {
  }

  lemma CrowdedRefuses(e: Entry)
    requires LeafSize(e) == 206
    ensures LeafRefused(PAGE, CrowdedLeaf(), 0, e)
  {
    hide Sum;
    var ents := CrowdedLeaf();
    var xs := LeafSizes([] + [e] + ents);
    CrowdedSizes();
    assert ents[..0] + [e] + ents[0..] == [] + [e] + ents;
    assert xs == [206] + ([1860, 1860] + Twelves(30));
    assert xs[..16] == [206] + ([1860, 1860] + Twelves(13));
    SumOne(206);
    TwoAnd(1860, 1860, 13);
    SumAppend([206], [1860, 1860] + Twelves(13));
  }

  /** A database in order that refuses a small entry with a new key. */
  lemma RefusedPut() returns (db: Db, k: Key, v: seq<byte>)
    ensures DbOK(PAGE, db) && KeyOK(k) && PutDb(PAGE, db, k, v, false) == PageFull
    ensures db == Root(Leaf(CrowdedLeaf()), 0)
  {
    hide Sum, TreeOK, LeafRefused;
    db, k, v := Root(Leaf(CrowdedLeaf()), 0), KeyOf(0, 1), Zeros(195);
    CrowdedLeafOK();
    CrowdedRefuses(NewEntry(PAGE, k, v));
    assert Pairs(CrowdedLeaf())[0].key == KeyOf(1, 1);
    PutRefinesMap(PAGE, db, k, v, false);
  }

  /** The puts that fill that leaf, in ascending order. */
  function CrowdingPuts(n: nat): (ops: seq<Op>)
    requires n <= 32
    ensures |ops| == n && forall i :: 0 <= i < n ==> ops[i] == PutOp(CrowdedLeaf()[i].key, CrowdedLeaf()[i].val, false)
  {
    seq(n, i requires 0 <= i < n => PutOp(CrowdedLeaf()[i].key, CrowdedLeaf()[i].val, false))
  }

  /** The leaf's entries up to `n` leave room for the next one. */
  lemma CrowdedRoom(n: nat)
    requires n < 32
    ensures LeafUsed(CrowdedLeaf()[..n]) + LeafSize(CrowdedLeaf()[n]) <= PAGE.PMax()
  {
    hide Sum;
    var xs := LeafSizes(CrowdedLeaf());
    CrowdedSizes();
    SumRemove(xs, n);
    assert LeafSizes(CrowdedLeaf()[..n]) == xs[..n];
  }

  lemma CrowdedStep(n: nat)
    requires 1 <= n < 32
    ensures var ents := CrowdedLeaf();
            PutDb(PAGE, Root(Leaf(ents[..n]), 0), ents[n].key, ents[n].val, false) == Ok(Root(Leaf(ents[..n + 1]), 0))
  {
    hide Sum, Less, KeyOf;
    var ents := CrowdedLeaf();
    forall i | 0 <= i < n ensures Less(ents[i].key, ents[n].key) { KeysInOrder(i + 1, 1, n + 1, 1); }
    PosUnique(Pairs(ents[..n]), ents[n].key, n);
    CrowdedRoom(n);
    assert NewEntry(PAGE, ents[n].key, ents[n].val) == ents[n];
    assert ents[..n][..n] + [ents[n]] + ents[..n][n..] == ents[..n + 1];
  }

  lemma {:induction false} CrowdedByRun(n: nat)
    requires 1 <= n <= 32
    ensures After(PAGE, CrowdingPuts(n)) == Some(Root(Leaf(CrowdedLeaf()[..n]), 0))
  {
    hide PutDb, CrowdedLeaf;
    assert CrowdingPuts(n)[..n - 1] == CrowdingPuts(n - 1);
    if n == 1 {
      FirstPut();
    } else {
      CrowdedByRun(n - 1);
      CrowdedStep(n - 1);
    }
  }

  lemma FirstPut()
    ensures var ents := CrowdedLeaf(); PutDb(PAGE, Empty, ents[0].key, ents[0].val, false) == Ok(Root(Leaf(ents[..1]), 0))
  {
    var ents := CrowdedLeaf();
    assert NewEntry(PAGE, ents[0].key, ents[0].val) == ents[0];
    assert ents[..1] == [ents[0]];
  }

  lemma AfterOneMore(ops: seq<Op>, op: Op)
    ensures After(PAGE, ops + [op]) ==
            match After(PAGE, ops)
            case None => None
            case Some(db) => Step(PAGE, db, op)
  {
    assert (ops + [op])[..|ops|] == ops;
  }

  /** A run from the empty database that ends in a refused put: 32 ascending keys, then one in front of them. */
  lemma RefusedRun() returns (ops: seq<Op>, k: Key, v: seq<byte>)
    ensures After(PAGE, ops).Some? && KeyOK(k) && After(PAGE, ops + [PutOp(k, v, false)]).None?
  {
    hide PutDb, After, CrowdedLeaf;
    ops := CrowdingPuts(32);
    CrowdedByRun(32);
    var ents := CrowdedLeaf();
    assert ents[..32] == ents;
    var db;
    db, k, v := RefusedPut();
    AfterOneMore(ops, PutOp(k, v, false));
  }

  // ---- A delete ------------------------------------------------------------------------------

  /** Lengths of the separators behind slot 0. */
  function SepLength(i: nat): (n: nat)
    ensures 1 <= n <= MAXKEYSIZE
  {
    if 2 <= i <= 8 then 511 else if i == 9 then 118 else 1
  }

  function SepOf(i: nat): Key
    requires i < 256
  {
    if i == 0 then [] else KeyOf(i, SepLength(i))
  }

  /** One entry on each leaf but the second, whose second key is long. */
  function LeafAt(i: nat): seq<Entry>
    requires i < 256
  {
    if i == 0 then [Entry(KeyOf(0, 1), [], 0)]
    else if i == 1 then [Entry(KeyOf(1, 1), Zeros(1500), 0), Entry(KeyOf(1, 208), [], 0)]
    else [Entry(SepOf(i), [], 0)]
  }

  function CrowdedKids(): (kids: seq<Kid>)
    ensures |kids| == 33
    ensures forall i :: 0 <= i < 33 ==> kids[i] == Kid(SepOf(i), Leaf(LeafAt(i)))
  {
    seq(33, i requires 0 <= i < 33 => Kid(SepOf(i), Leaf(LeafAt(i))))
  }

  function SepSizes(): seq<nat> {
    [522, 522, 522, 522, 522, 522, 522, 128] + Twelves(6)
  }

  lemma SepSum()
    ensures Sum(SepSizes()) == 3854
  {
    var a: seq<nat> := [522, 522, 522, 522, 522, 522, 522, 128];
    SumEight(a);
    SumTwelves(6);
    SumAppend(a, Twelves(6));
  }

  lemma SumEight(a: seq<nat>)
    requires |a| == 8
    ensures Sum(a) == a[0] + a[1] + a[2] + a[3] + a[4] + a[5] + a[6] + a[7]
  {
    hide Sum;
    SumTo(a, 0, 0); SumTo(a, 0, 1); SumTo(a, 0, 2); SumTo(a, 0, 3);
    SumTo(a, 0, 4); SumTo(a, 0, 5); SumTo(a, 0, 6); SumTo(a, 0, 7);
    assert a[0..0] == [] && a[0..8] == a;
    SumOne(0);
  }

  /** Sizes on the page when the second separator takes `n` bytes. */
  lemma KidSizes(all: seq<Kid>, n: nat)
    requires |all| == 33 && all[0].sep == [] && BranchSize(all[1].sep) == n
    requires forall i :: 2 <= i < 33 ==> all[i].sep == SepOf(i)
    ensures BranchSizes(all) == [10, n] + SepSizes() + Twelves(17)
    ensures BranchUsed(all) == 10 + n + 3854 + 204
    ensures Sum(BranchSizes(all)[..16]) == 10 + n + 3854
  {
    hide Sum;
    var xs := BranchSizes(all);
    assert xs == [10, n] + SepSizes() + Twelves(17);
    SumOne(10);
    SumSnoc([10], n);
    assert [10] + [n] == [10, n];
    SepSum();
    SumTwelves(17);
    SumAppend([10, n], SepSizes());
    SumAppend([10, n] + SepSizes(), Twelves(17));
    assert xs[..16] == [10, n] + SepSizes();
  }

  lemma LeafSizeAt(e: Entry)
    requires e.ovpages == 0 && 1 <= |e.key| <= 511 && |e.val| <= 1500
    ensures EntryOK(PAGE, e) && LeafSize(e) <= 2022
  {
  }

  lemma OneEntry(e: Entry, lo: Key, hi: Option<Key>)
    requires e.ovpages == 0 && 1 <= |e.key| <= 511 && |e.val| <= 1500 && InRange(e.key, lo, hi)
    ensures TreeOK(PAGE, Leaf([e]), 0, lo, hi)
  {
    LeafSizeAt(e);
    assert LeafSizes([e]) == [LeafSize(e)];
    SumOne(LeafSize(e));
  }

  lemma TwoEntries(a: Entry, b: Entry, lo: Key, hi: Option<Key>)
    requires a.ovpages == 0 && 1 <= |a.key| <= 511 && |a.val| <= 1500 && InRange(a.key, lo, hi)
    requires b.ovpages == 0 && 1 <= |b.key| <= 511 && |b.val| <= 1500 && InRange(b.key, lo, hi)
    requires Less(a.key, b.key)
    ensures TreeOK(PAGE, Leaf([a, b]), 0, lo, hi) && LeafUsed([a, b]) == LeafSize(a) + LeafSize(b)
  {
    hide Less, Sum;
    LeafSizeAt(a);
    LeafSizeAt(b);
    assert LeafSizes([a, b]) == [LeafSize(a)] + [LeafSize(b)];
    SumOne(LeafSize(a));
    SumSnoc([LeafSize(a)], LeafSize(b));
  }

  lemma {:induction false} TailOK(i: nat)
    requires 2 <= i < 33
    ensures KidsOK(PAGE, CrowdedKids()[i..], 0, SepOf(i), None)
    decreases 33 - i
  {
    hide Less, KeyOf, SepLength;
    var kids := CrowdedKids();
    var tail := kids[i..];
    if i == 32 {
      OneEntry(Entry(SepOf(i), [], 0), SepOf(i), None);
    } else {
      KeysInOrder(i, SepLength(i), i + 1, SepLength(i + 1));
      OneEntry(Entry(SepOf(i), [], 0), SepOf(i), Some(SepOf(i + 1)));
      TailOK(i + 1);
      assert tail[1..] == kids[i+1..];
    }
  }

  lemma SecondLeaf()
    ensures TreeOK(PAGE, Leaf(LeafAt(1)), 0, SepOf(1), Some(SepOf(2)))
    ensures LeafUsed(LeafAt(1)) == 1512 + 218
  {
    hide TreeOK;
    var a, b := LeafAt(1)[0], LeafAt(1)[1];
    KeysInOrder(1, 1, 2, 511);
    KeysInOrder(1, 208, 2, 511);
    assert Less(a.key, b.key) by { assert a.key == [1]; assert b.key[1..] == Zeros(207) && a.key[1..] == []; }
    TwoEntries(a, b, SepOf(1), Some(SepOf(2)));
  }

  lemma FirstLeaf()
    ensures TreeOK(PAGE, Leaf(LeafAt(0)), 0, [], Some(SepOf(1)))
  {
    KeysInOrder(0, 1, 1, 1);
    OneEntry(LeafAt(0)[0], [], Some(SepOf(1)));
  }

  lemma CrowdedTreeOK()
    ensures TreeOK(PAGE, Branch(CrowdedKids()), 1, [], None)
  {
    hide Less, KeyOf, SepLength, Sum, LeafAt;
    var kids := CrowdedKids();
    SecondSize();
    KidSizes(kids, 12);
    FirstLeaf();
    SecondLeaf();
    TailOK(2);
    assert kids[1..][1..] == kids[2..];
    assert KidsOK(PAGE, kids[1..], 0, SepOf(1), None);
    SepsShort();
  }

  lemma SecondSize()
    ensures BranchSize(SepOf(1)) == 12 && SepOf(0) == []
  {
  }

  lemma SepsShort()
    ensures forall i :: 0 <= i < 33 ==> |SepOf(i)| <= MAXKEYSIZE
  {
  }

  /** The long key does not fit beside the others on the half it falls on. */
  lemma LongKeyRefused()
    ensures UpdateRefused(PAGE, CrowdedKids(), 1, KeyOf(1, 208))
  {
    hide Sum, SepLength;
    var kids := CrowdedKids();
    var sep := KeyOf(1, 208);
    var all := kids[1 := Kid(sep, kids[1].tree)];
    SecondSize();
    KidSizes(kids, 12);
    KidSizes(all, 218);
  }

  lemma SecondCanGive()
    ensures CanGive(PAGE, Leaf(LeafAt(1)), Leaf([])) && !Filled(PAGE, Leaf([]))
  {
    SecondLeaf();
    hide Sum, LeafSizes;
  }

  lemma MovedKey()
    ensures MoveLeft(PAGE, Leaf([]), Leaf(LeafAt(1))).Shifted?
    ensures MoveLeft(PAGE, Leaf([]), Leaf(LeafAt(1))).sep == KeyOf(1, 208)
  {
    hide Sum;
    var e := LeafAt(1)[0];
    LeafSizeAt(e);
    assert LeafSizes([] + [e]) == [LeafSize(e)];
    SumOne(LeafSize(e));
  }

  lemma FirstDeleted()
    ensures Delete(PAGE, Leaf(LeafAt(0)), KeyOf(0, 1)) == Check(Leaf([]))
    ensures KidIndex(CrowdedKids(), KeyOf(0, 1)) == 0
  {
    var ents := LeafAt(0);
    LessIrreflexive(KeyOf(0, 1));
    KeysInOrder(0, 1, 1, 1);
    assert ents[..0] + ents[1..] == [];
  }

  /** A database in order that refuses to delete a key: its leaf must borrow an entry,
      and the separator this needs is too long for the page above. */
  lemma RefusedDelete() returns (db: Db, k: Key)
    ensures DbOK(PAGE, db) && k in ToMap(Contents(db)) && DeleteDb(PAGE, db, k) == DelFull
  {
    hide Sum, TreeOK, UpdateRefused, CanGive, Filled, MoveLeft, Delete, KidIndex, LeafAt;
    var kids := CrowdedKids();
    db, k := Root(Branch(kids), 1), KeyOf(0, 1);
    CrowdedTreeOK();
    FirstDeleted();
    LongKeyRefused();
    SecondCanGive();
    MovedKey();
    assert RebalanceRefused(PAGE, kids, 0, Leaf([]));
    FirstStored();
    DeleteRefinesMap(PAGE, db, k);
    CrowdedRefusesDelete();
  }

  lemma CrowdedRefusesDelete()
    requires RebalanceRefused(PAGE, CrowdedKids(), 0, Leaf([]))
    ensures DeleteRefused(PAGE, Branch(CrowdedKids()), KeyOf(0, 1))
  {
    hide RebalanceRefused, KidIndex, Sum;
    FirstDeleted();
  }

  lemma FirstStored()
    ensures KeyOf(0, 1) in ToMap(Contents(Root(Branch(CrowdedKids()), 1)))
  {
    hide TreeOK, Sum;
    var kids := CrowdedKids();
    var k := KeyOf(0, 1);
    CrowdedTreeOK();
    GetFinds(PAGE, Branch(kids), 1, [], None, k);
    FirstDeleted();
    LessIrreflexive(k);
  }
}
