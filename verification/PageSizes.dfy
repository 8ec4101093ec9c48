/** Sizes in bytes: where an entry's data is put, when pages split, what an overwrite keeps, and how a node lies in memory. */
module PageSizes {
  import opened Keys
  import opened SplitPoint
  import opened BTree
  import opened BTreePut
  import opened SlottedPage

  // ---- Overflow runs ---------------------------------------------------------------------------

  /** An overflow run has the fewest pages that hold one page header and the data. */
  lemma RunLeast(env: Env, size: nat)
    requires env.Valid()
    ensures var m := env.OvPages(size); (m - 1) * env.psize < 16 + size <= m * env.psize
  {
    var a, b := PAGEHDRSZ - 1 + size, env.psize;
    var q := Quotient(a, b);
    assert q == a / b && a == q * b + a % b;
    assert (q + 1) * b == q * b + b;
  }

  /** The limit is the largest even size of which two nodes with their slots share a page. */
  lemma NodeMaxLargest(env: Env)
    requires env.Valid()
    ensures env.NodeMax() % 2 == 0
    ensures 2 * (env.NodeMax() + 2) <= env.psize - 16 < 2 * (env.NodeMax() + 2 + 2)
  {
  }

  /** Data stays in its node exactly when two nodes of that size, slots included, share a page; otherwise the node holds the
      number of a run that is as short as can be. */
  lemma EntryPlaced(env: Env, k: Key, v: seq<byte>)
    requires env.Valid()
    ensures var e := NewEntry(env, k, v); var inside := Even(8 + |k| + |v|) + 2;
            && e.key == k && e.val == v
            && (e.ovpages == 0 <==> 2 * inside <= env.psize - 16)
            && (e.ovpages > 0 ==> (e.ovpages - 1) * env.psize < 16 + |v| <= e.ovpages * env.psize)
            && LeafSize(e) == if e.ovpages == 0 then inside else Even(8 + |k| + 8) + 2
  {
    hide Quotient;
    RunLeast(env, |v|);
    OneRun(env, |v|);
    NodeMaxLargest(env);
  }

  lemma OneRun(env: Env, size: nat)
    requires env.Valid()
    ensures env.OvPages(size) > 0
  {
  }

  // ---- When pages split ------------------------------------------------------------------------

  /** A leaf takes a new entry without a split exactly when all its entries then fit the page. */
  lemma LeafSplitsWhenFull(env: Env, ents: seq<Entry>, i: nat, e: Entry)
    requires env.Valid() && i <= |ents| && LeafUsed(ents) <= env.PMax()
    ensures var all := ents[..i] + [e] + ents[i..];
            PlaceLeaf(env, ents, i, e) == Fits(Leaf(all)) <==> LeafUsed(all) <= env.psize - 16
  {
    hide Sum, LeafSize, SplitIndex, RightUsed, NodesFit;
    InsertedSizes(env, ents, i, e);
  }

  lemma {:induction false} EvenSum(xs: seq<nat>)
    requires forall i :: 0 <= i < |xs| ==> xs[i] % 2 == 0
    ensures Sum(xs) % 2 == 0
  {
    if xs != [] { EvenSum(xs[1..]); }
  }

  /** So does a branch page a new child, although the size of its node is not rounded up in the test. */
  lemma BranchSplitsWhenFull(env: Env, kids: seq<Kid>, j: nat, sep: Key, t: Tree)
    requires env.Valid() && j <= |kids| && BranchUsed(kids) <= env.PMax()
    ensures var all := kids[..j] + [Kid(sep, t)] + kids[j..];
            PlaceKid(env, kids, j, sep, t) == Fits(Branch(all)) <==> BranchUsed(all) <= env.psize - 16
  {
    hide Sum, SplitIndex, RightUsed, NodesFit;
    InsertedKidSizes(kids, j, Kid(sep, t));
    EvenSum(BranchSizes(kids));
  }

  // ---- Overwriting -----------------------------------------------------------------------------

  /** Data of the same length is written over the old data in its node, and data that an overflow run of the transaction has
      room for over that run; the page keeps its layout and the put cannot be refused. */
  lemma OverwrittenInPlace(env: Env, ents: seq<Entry>, i: nat, v: seq<byte>, dirty: bool)
    requires env.Valid() && i < |ents| && Sorted(Pairs(ents))
    requires var o := ents[i];
             if o.ovpages == 0 then Even(8 + |o.key| + |v|) + 2 <= (env.psize - 16) / 2 && |v| == |o.val|
             else dirty && 16 + |v| <= o.ovpages * env.psize
    ensures LeafPut(env, ents, ents[i].key, v, dirty) == Fits(Leaf(ents[i := Entry(ents[i].key, v, ents[i].ovpages)]))
  {
    hide Less, Sum, Quotient;
    var k, ps := ents[i].key, Pairs(ents);
    forall x | 0 <= x < i ensures Less(ps[x].key, k) { assert Less(ps[x].key, ps[i].key); }
    LessIrreflexive(k);
    PosUnique(ps, k, i);
    if ents[i].ovpages > 0 { RunFits(env, |v|, ents[i].ovpages); }
  }

  lemma RunFits(env: Env, size: nat, pages: nat)
    requires env.Valid() && 16 + size <= pages * env.psize
    ensures env.OvPages(size) <= pages
  {
    hide Quotient;
    RunLeast(env, size);
    if env.OvPages(size) > pages { Scaled(pages, env.OvPages(size) - 1, env.psize); }
  }

  lemma Scaled(m: nat, n: nat, b: nat)
    requires m <= n
    ensures m * b <= n * b
  {
  }

  // ---- A node in memory ------------------------------------------------------------------------

  /** A leaf node: 32 bits of data length, 16 bits of flags, 16 bits of key length, low byte first; then the key and the
      data, or with the lowest flag set 8 bytes that name an overflow page. */
  lemma LeafNodeBytes(b: seq<byte>, o: nat, n: PageNode)
    requires Holds(b, o, n, true)
    ensures o + 8 + |n.key| + |n.payload| <= |b|
    ensures n.DataSize() == b[o] as int + 256 * (b[o+1] as int) + 65536 * (b[o+2] as int + 256 * (b[o+3] as int))
    ensures (n.BigData() <==> b[o+4] % 2 == 1) && |n.key| == b[o+6] as int + 256 * (b[o+7] as int)
    ensures b[o+8..o+8+|n.key|] == n.key && b[o+8+|n.key|..o+8+|n.key|+|n.payload|] == n.payload
    ensures |n.payload| == if n.BigData() then 8 else n.DataSize()
  {
  }

  /** A branch node: 48 bits of child page number, 16 bits of key length, and the key. */
  lemma BranchNodeBytes(b: seq<byte>, o: nat, n: PageNode)
    requires Holds(b, o, n, false)
    ensures o + 8 + |n.key| <= |b| && n.payload == []
    ensures n.ChildPage() == (b[o] as int + 256 * (b[o+1] as int)) + 0x1_0000 * (b[o+2] as int + 256 * (b[o+3] as int))
                             + 0x1_0000_0000 * (b[o+4] as int + 256 * (b[o+5] as int))
    ensures |n.key| == b[o+6] as int + 256 * (b[o+7] as int) && b[o+8..o+8+|n.key|] == n.key
  {
  }
}
