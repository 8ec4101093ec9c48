/** A branch page of the tree and the page that holds it: the room on the page is what the tree's size accounting says,
    a separator is refused for lack of room exactly when the tree splits the page, and adding a child, changing a
    separator and removing a child agree. */
module BranchPages {
  import opened Keys
  import opened SplitPoint
  import opened BTree
  import opened BTreePut
  import opened BTreeDelete
  import opened SlottedPage

  /** The node of a child: its separator and its page number. */
  predicate Holding(n: PageNode, kid: Kid, number: nat) {
    n.key == kid.sep && n.ChildPage() == number && n.payload == []
  }

  /** The nodes of a branch page; `numbers` lists the pages of the children. */
  predicate HoldingAll(ns: seq<PageNode>, kids: seq<Kid>, numbers: seq<nat>) {
    |ns| == |kids| == |numbers| && forall i :: 0 <= i < |ns| ==> Holding(ns[i], kids[i], numbers[i])
  }

  lemma NodeIsKid(n: PageNode, kid: Kid, number: nat)
    requires Holding(n, kid, number)
    ensures NodeBytes(n) + SLOT == BranchSize(kid.sep)
  {
  }

  lemma {:induction false} NodesAreBranch(ns: seq<PageNode>, kids: seq<Kid>, numbers: seq<nat>)
    requires HoldingAll(ns, kids, numbers)
    ensures TotalBytes(ns) + SLOT * |ns| == BranchUsed(kids)
    decreases |ns|
  {
    hide Holding, NodeBytes, BranchSize;
    if ns == [] {
      assert BranchSizes(kids) == [];
    } else {
      NodeIsKid(ns[0], kids[0], numbers[0]);
      NodesAreBranch(ns[1..], kids[1..], numbers[1..]);
      assert BranchSizes(kids)[1..] == BranchSizes(kids[1..]);
    }
  }

  /** The free bytes of the page are those the tree counts, and an even number. */
  lemma RoomIsCounted(page: Page, kids: seq<Kid>, numbers: seq<nat>)
    requires page.Valid() && HoldingAll(page.nodes, kids, numbers)
    ensures page.SizeLeft() == page.env.PMax() - BranchUsed(kids) && page.SizeLeft() % 2 == 0
  {
    hide HoldingAll, Stored, InBounds, NoOverlap, TotalBytes, BranchUsed;
    NodesAreBranch(page.nodes, kids, numbers);
  }

  /** With an even room, rounding a node's size up does not change whether it fits. */
  lemma RoundedFits(room: int, sep: Key, env: Env)
    requires room % 2 == 0 && env.Valid()
    ensures room < Need(sep, Child(0), env) + SLOT <==> room < NODESIZE + |sep| + SLOT
  {
  }

  lemma NeedOfChild(sep: Key, number: nat, env: Env)
    requires env.Valid()
    ensures Need(sep, Child(number), env) == Need(sep, Child(0), env)
  {
  }

  lemma EnvOf(page: Page)
    requires page.Valid()
    ensures page.env.Valid()
  {
  }

  lemma CarriedIsHeld(n: PageNode, env: Env, kid: Kid, number: nat, newPage: seq<byte>)
    requires env.Valid() && Carries(n, kid.sep, Child(number), 0, newPage, env)
    ensures Holding(n, kid, number)
  {
  }

  /** A new child on its branch page: the page is full exactly when the tree splits it, and otherwise holds the page the
      tree then has. */
  method AddKid(page: Page, j: nat, sep: Key, number: nat, newPage: seq<byte>, ghost t: Tree, ghost kids: seq<Kid>,
                ghost numbers: seq<nat>) returns (full: bool)
    requires page.Valid() && !page.leaf && HoldingAll(page.nodes, kids, numbers) && j <= |kids|
    requires FitsFields(Child(number), false) && |newPage| == PGNOSIZE
    modifies page, page.bytes, page.ptrs
    ensures page.Valid()
    ensures full <==> page.env.PMax() - BranchUsed(kids) < NODESIZE + |sep| + SLOT
    ensures full ==> HoldingAll(page.nodes, kids, numbers)
    ensures full ==> PlaceKid(page.env, kids, j, sep, t) == SplitBranch(page.env, kids[..j] + [Kid(sep, t)] + kids[j..], j)
    ensures !full ==> HoldingAll(page.nodes, kids[..j] + [Kid(sep, t)] + kids[j..], numbers[..j] + [number] + numbers[j..])
    ensures !full ==> PlaceKid(page.env, kids, j, sep, t) == Fits(Branch(kids[..j] + [Kid(sep, t)] + kids[j..]))
  {
    hide Holding, Carries, BranchUsed, Need, Page.Valid, SplitBranch;
    EnvOf(page);
    ghost var ns := page.nodes;
    RoomIsCounted(page, kids, numbers);
    NeedOfChild(sep, number, page.env);
    RoundedFits(page.SizeLeft(), sep, page.env);
    full := page.AddNode(j, sep, Child(number), 0, newPage);
    if !full {
      CarriedIsHeld(page.nodes[j], page.env, Kid(sep, t), number, newPage);
      assert page.nodes == ns[..j] + [page.nodes[j]] + ns[j..];
    }
  }

  lemma Rekeyed(n: PageNode, kid: Kid, number: nat, sep: Key)
    requires Holding(n, kid, number)
    ensures Holding(n.(key := sep), Kid(sep, kid.tree), number) && |n.key| == |kid.sep|
  {
  }

  /** A separator changed in place: it fits exactly when the tree does not split, and the page then holds the page the
      tree has. */
  method ChangeSep(page: Page, j: nat, sep: Key, ghost kids: seq<Kid>, ghost numbers: seq<nat>) returns (fits: bool)
    requires page.Valid() && !page.leaf && HoldingAll(page.nodes, kids, numbers) && j < |kids| && |sep| < WORD
    modifies page, page.bytes, page.ptrs
    ensures page.Valid()
    ensures !fits ==> HoldingAll(page.nodes, kids, numbers)
    ensures !fits ==> UpdateKey(page.env, kids, j, sep) == SplitBranch(page.env, kids[j := Kid(sep, kids[j].tree)], j)
    ensures fits ==> HoldingAll(page.nodes, kids[j := Kid(sep, kids[j].tree)], numbers)
    ensures fits ==> UpdateKey(page.env, kids, j, sep) == Fits(Branch(kids[j := Kid(sep, kids[j].tree)]))
  {
    hide Holding, BranchUsed, Page.Valid, SplitBranch, Even;
    EnvOf(page);
    RoomIsCounted(page, kids, numbers);
    NotOverfull(page);
    Rekeyed(page.nodes[j], kids[j], numbers[j], sep);
    fits := page.UpdateKey(j, sep);
  }

  lemma NotOverfull(page: Page)
    requires page.Valid()
    ensures page.SizeLeft() >= 0
  {
  }

  /** A child taken off its branch page. */
  method RemoveKid(page: Page, j: nat, ghost kids: seq<Kid>, ghost numbers: seq<nat>)
    requires page.Valid() && HoldingAll(page.nodes, kids, numbers) && j < |kids|
    modifies page, page.bytes, page.ptrs
    ensures page.Valid() && HoldingAll(page.nodes, kids[..j] + kids[j+1..], numbers[..j] + numbers[j+1..])
    ensures page.SizeLeft() == page.env.PMax() - BranchUsed(kids[..j] + kids[j+1..])
  {
    hide Holding, BranchUsed, Page.Valid;
    page.DelNode(j);
    assert HoldingAll(page.nodes, kids[..j] + kids[j+1..], numbers[..j] + numbers[j+1..]);
    RoomIsCounted(page, kids[..j] + kids[j+1..], numbers[..j] + numbers[j+1..]);
  }
}
