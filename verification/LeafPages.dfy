/** A leaf of the tree and the page that holds it: the room on the page is what the tree's size accounting says, an
    entry is refused for lack of room exactly when the tree splits the leaf, and adding and deleting agree. */
module LeafPages {
  import opened Keys
  import opened SplitPoint
  import opened BTree
  import opened BTreePut
  import opened SlottedPage

  /** The node of an entry; one with overflow pages holds the number of the first of them. */
  predicate Holding(n: PageNode, e: Entry) {
    && n.key == e.key && n.DataSize() == |e.val| && (e.ovpages > 0 <==> n.BigData())
    && (if e.ovpages > 0 then |n.payload| == PGNOSIZE else n.payload == e.val)
  }

  predicate HoldingAll(ns: seq<PageNode>, ents: seq<Entry>) {
    |ns| == |ents| && forall i :: 0 <= i < |ns| ==> Holding(ns[i], ents[i])
  }

  lemma NodeIsEntry(n: PageNode, e: Entry)
    requires Holding(n, e)
    ensures NodeBytes(n) + SLOT == LeafSize(e)
  {
  }

  lemma {:induction false} NodesAreLeaf(ns: seq<PageNode>, ents: seq<Entry>)
    requires HoldingAll(ns, ents)
    ensures TotalBytes(ns) + SLOT * |ns| == LeafUsed(ents)
    decreases |ns|
  {
    hide Holding, NodeBytes, LeafSize;
    if ns == [] {
      assert LeafSizes(ents) == [];
    } else {
      NodeIsEntry(ns[0], ents[0]);
      NodesAreLeaf(ns[1..], ents[1..]);
      assert LeafSizes(ents)[1..] == LeafSizes(ents[1..]);
    }
  }

  /** The free bytes of the page are those the tree counts. */
  lemma RoomIsCounted(page: Page, ents: seq<Entry>)
    requires page.Valid() && HoldingAll(page.nodes, ents)
    ensures page.SizeLeft() == page.env.PMax() - LeafUsed(ents)
  {
    hide HoldingAll, Stored, InBounds, NoOverlap, TotalBytes, LeafUsed;
    NodesAreLeaf(page.nodes, ents);
  }

  /** A new entry on its leaf: the page is full exactly when the tree splits, and otherwise holds the leaf the tree
      then has. */
  method AddEntry(page: Page, i: nat, k: Key, v: seq<byte>, newPage: seq<byte>, ghost ents: seq<Entry>)
    returns (full: bool)
    requires page.Valid() && page.leaf && HoldingAll(page.nodes, ents) && i <= |ents|
    requires |v| < WORD * WORD && |newPage| == PGNOSIZE
    modifies page, page.bytes, page.ptrs
    ensures page.Valid()
    ensures full <==> page.env.PMax() - LeafUsed(ents) < LeafSize(NewEntry(page.env, k, v))
    ensures full ==> HoldingAll(page.nodes, ents)
    ensures !full ==> HoldingAll(page.nodes, ents[..i] + [NewEntry(page.env, k, v)] + ents[i..])
    ensures !full ==> PlaceLeaf(page.env, ents, i, NewEntry(page.env, k, v))
                      == Fits(Leaf(ents[..i] + [NewEntry(page.env, k, v)] + ents[i..]))
  {
    hide Holding, Carries, LeafUsed, LeafSize, Need, Page.Valid, SplitLeaf;
    EnvOf(page);
    ghost var ns := page.nodes;
    RoomIsCounted(page, ents);
    NeedOfEntry(page.env, k, v);
    full := page.AddNode(i, k, Inline(v), 0, newPage);
    if !full {
      CarriedIsHeld(page.nodes[i], page.env, k, v, newPage);
      assert page.nodes == ns[..i] + [page.nodes[i]] + ns[i..];
    }
  }

  lemma EnvOf(page: Page)
    requires page.Valid()
    ensures page.env.Valid()
  {
  }

  lemma NeedOfEntry(env: Env, k: Key, v: seq<byte>)
    requires env.Valid()
    ensures Need(k, Inline(v), env) + SLOT == LeafSize(NewEntry(env, k, v))
  {
    OverflowRuns(env, v);
    hide Even, LeafSize, Need;
    NeedIsLeafSize(NewEntry(env, k, v), env);
  }

  lemma OverflowRuns(env: Env, v: seq<byte>)
    requires env.Valid()
    ensures env.OvPages(|v|) > 0
  {
  }

  lemma CarriedIsHeld(n: PageNode, env: Env, k: Key, v: seq<byte>, newPage: seq<byte>)
    requires env.Valid() && Carries(n, k, Inline(v), 0, newPage, env) && |newPage| == PGNOSIZE
    ensures Holding(n, NewEntry(env, k, v))
  {
    OverflowRuns(env, v);
  }

  /** An entry taken off its leaf. */
  method DeleteEntry(page: Page, i: nat, ghost ents: seq<Entry>)
    requires page.Valid() && HoldingAll(page.nodes, ents) && i < |ents|
    modifies page, page.bytes, page.ptrs
    ensures page.Valid() && HoldingAll(page.nodes, ents[..i] + ents[i+1..])
    ensures page.SizeLeft() == page.env.PMax() - LeafUsed(ents[..i] + ents[i+1..])
  {
    hide Holding, LeafUsed, Page.Valid;
    page.DelNode(i);
    assert HoldingAll(page.nodes, ents[..i] + ents[i+1..]);
    RoomIsCounted(page, ents[..i] + ents[i+1..]);
  }
}
