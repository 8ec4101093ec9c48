/** What rebalancing does with a child that shrank, in bytes and nodes: which pages are left alone, which take a node from
    their neighbour, and which are merged with it. */
module Rebalancing {
  import opened Keys
  import opened SplitPoint
  import opened BTree
  import opened BTreePut
  import opened BTreeDelete

  /** Full enough to be left alone: a leaf with an entry and a quarter of its page in use, a branch page with two children
      and a thousandth in use. */
  predicate Enough(env: Env, t: Tree)
    requires env.Valid()
  {
    match t
    case Leaf(ents) => ents != [] && 4 * LeafUsed(ents) >= env.PMax()
    case Branch(kids) => |kids| >= 2 && 1000 * BranchUsed(kids) >= env.PMax()
  }

  /** The same and a node to spare. */
  predicate Lends(env: Env, t: Tree)
    requires env.Valid()
  {
    match t
    case Leaf(ents) => |ents| > 1 && 4 * LeafUsed(ents) >= env.PMax()
    case Branch(kids) => |kids| > 2 && 1000 * BranchUsed(kids) >= env.PMax()
  }

  lemma QuotientAtLeast(a: nat, b: nat, q: nat)
    requires b > 0
    ensures Quotient(a, b) >= q <==> a >= q * b
  {
    var r := Quotient(a, b);
    assert a == r * b + a % b;
    if r >= q { Scale(q, r, b); } else { Scale(r + 1, q, b); }
  }

  lemma EnoughIsFilled(env: Env, t: Tree)
    requires env.Valid()
    ensures Filled(env, t) <==> Enough(env, t)
  {
    hide LeafUsed, BranchUsed;
    QuotientAtLeast(1000 * Used(t), env.PMax(), Threshold(t));
  }

  lemma LendsIsGiving(env: Env, t: Tree, like: Tree)
    requires env.Valid() && t.Leaf? == like.Leaf?
    ensures CanGive(env, t, like) <==> Lends(env, t)
  {
    hide LeafUsed, BranchUsed;
    QuotientAtLeast(1000 * Used(t), env.PMax(), Threshold(like));
  }

  // ---- Nodes -----------------------------------------------------------------------------------

  datatype Node = EntryNode(e: Entry) | ChildNode(t: Tree)

  /** The nodes of a page, separators left away. */
  function Nodes(t: Tree): (ns: seq<Node>)
    ensures |ns| == Count(t)
  {
    match t
    case Leaf(ents) => seq(|ents|, i requires 0 <= i < |ents| => EntryNode(ents[i]))
    case Branch(kids) => seq(|kids|, i requires 0 <= i < |kids| => ChildNode(kids[i].tree))
  }

  /** The child pages of what a change left. */
  function ChildPages(c: Change): seq<Node> {
    match c
    case Fits(t) => Nodes(t)
    case Split(l, _, r) => Nodes(l) + Nodes(r)
    case Full => []
  }

  /** The pages below a parent, with the pair at `j` replaced. */
  function WithPair(kids: seq<Kid>, j: nat, pair: seq<Node>): seq<Node>
    requires j + 1 < |kids|
  {
    Nodes(Branch(kids))[..j] + pair + Nodes(Branch(kids))[j+2..]
  }

  lemma UpdateKeepsPages(env: Env, kids: seq<Kid>, j: nat, sep: Key)
    requires env.Valid() && j < |kids|
    ensures var c := UpdateKey(env, kids, j, sep); c.Full? || ChildPages(c) == Nodes(Branch(kids))
  {
    hide Sum, SplitIndex, RightUsed, NodesFit, BranchUsed, Even, BranchSizes;
    var all := kids[j := Kid(sep, kids[j].tree)];
    assert Nodes(Branch(all)) == Nodes(Branch(kids));
    SplitKeepsPages(env, all, j);
  }

  lemma SplitKeepsPages(env: Env, kids: seq<Kid>, j: nat)
    requires env.Valid() && j < |kids|
    ensures var c := SplitBranch(env, kids, j); c.Full? || ChildPages(c) == Nodes(Branch(kids))
  {
    hide Sum, SplitIndex, RightUsed, NodesFit, BranchSizes;
    var xs := BranchSizes(kids);
    SizesLength(kids);
    if |xs| >= 3 && NodesFit(xs, env.PMax()) {
      var s := SplitIndex(xs, j, false, env.PMax());
      SplitInside(xs, j, env.PMax());
      assert Nodes(Branch(kids[..s])) + Nodes(Branch([Kid([], kids[s].tree)] + kids[s+1..])) == Nodes(Branch(kids));
    }
  }

  lemma SizesLength(kids: seq<Kid>)
    ensures |BranchSizes(kids)| == |kids|
  {
  }

  lemma SplitInside(xs: seq<nat>, j: nat, pmax: nat)
    requires |xs| >= 3 && j < |xs| && NodesFit(xs, pmax)
    ensures SplitIndex(xs, j, false, pmax) < |xs|
  {
  }

  // ---- The three outcomes ----------------------------------------------------------------------

  /** A child that is full enough is left alone. Otherwise it takes exactly one node from a neighbour (the right one for the
      first child, the left one for any other) that has a node to spare, or else the two become one page and the parent
      has a child fewer. */
  ghost predicate Outcome(env: Env, kids: seq<Kid>, i: nat, t: Tree, r: Removal)
    requires env.Valid() && i < |kids| && |kids| >= 2
  {
    var j := if i == 0 then 0 else i - 1;
    var nb := if i == 0 then kids[1].tree else kids[j].tree;
    if Enough(env, t) then r == Stable(Fits(Branch(kids[i := Kid(kids[i].sep, t)])))
    else if Lends(env, nb) then
      r.Stable? && (r.c.Full? || exists x, y ::
        && ChildPages(r.c) == WithPair(kids, j, [ChildNode(x), ChildNode(y)])
        && (if i == 0 then Nodes(x) == Nodes(t) + Nodes(nb)[..1] && Nodes(y) == Nodes(nb)[1..]
            else Nodes(x) == Nodes(nb)[..|Nodes(nb)|-1] && Nodes(y) == Nodes(nb)[|Nodes(nb)|-1..] + Nodes(t)))
    else
      r.Check? && exists m ::
        && Nodes(r.t) == WithPair(kids, j, [ChildNode(m)])
        && Nodes(m) == if i == 0 then Nodes(t) + Nodes(nb) else Nodes(nb) + Nodes(t)
  }

  lemma MovedLeft(env: Env, l: Tree, r: Tree)
    requires env.Valid() && MoveLeft(env, l, r).Shifted?
    ensures var s := MoveLeft(env, l, r);
            Count(r) > 1 && Nodes(s.left) == Nodes(l) + Nodes(r)[..1] && Nodes(s.right) == Nodes(r)[1..]
  {
    hide LeafUsed, BranchUsed, Lowest;
  }

  lemma MovedRight(env: Env, l: Tree, r: Tree)
    requires env.Valid() && MoveRight(env, l, r).Shifted?
    ensures var s := MoveRight(env, l, r); var n := |Nodes(l)| - 1;
            n >= 0 && Nodes(s.left) == Nodes(l)[..n] && Nodes(s.right) == Nodes(l)[n..] + Nodes(r)
  {
    hide LeafUsed, BranchUsed, Lowest;
  }

  lemma JoinedNodes(l: Tree, r: Tree)
    requires l.Leaf? == r.Leaf? && (r.Branch? ==> r.kids != [])
    ensures Nodes(Joined(l, r)) == Nodes(l) + Nodes(r)
  {
    hide Lowest;
  }

  lemma PairOfShift(env: Env, kids: seq<Kid>, j: nat, s: Shift)
    requires env.Valid() && j + 1 < |kids| && s.Shifted? && AfterMove(env, kids, j, s) != Stable(Full)
    ensures var r := AfterMove(env, kids, j, s);
            r.Stable? && ChildPages(r.c) == WithPair(kids, j, [ChildNode(s.left), ChildNode(s.right)])
  {
    hide UpdateKey;
    var all := kids[j := Kid(kids[j].sep, s.left)][j + 1 := Kid(kids[j+1].sep, s.right)];
    UpdateKeepsPages(env, all, j + 1, s.sep);
    assert Nodes(Branch(all)) == WithPair(kids, j, [ChildNode(s.left), ChildNode(s.right)]);
  }

  lemma PairOfMerge(env: Env, kids: seq<Kid>, j: nat, l: Tree, r: Tree)
    requires env.Valid() && j + 1 < |kids| && Merge(env, kids, j, l, r) != Stable(Full)
    ensures var x := Merge(env, kids, j, l, r); x.Check? && Nodes(x.t) == WithPair(kids, j, [ChildNode(Joined(l, r))])
  {
    hide Used, Joined;
    var m := Joined(l, r);
    assert Nodes(Branch(kids[..j] + [Kid(kids[j].sep, m)] + kids[j+2..])) == WithPair(kids, j, [ChildNode(m)]);
  }

  lemma RebalanceDoes(env: Env, kids: seq<Kid>, i: nat, t: Tree, h: nat, lo: Key, hi: Option<Key>)
    requires env.Valid() && i < |kids| && |kids| >= 2 && BranchPageOK(env, kids) && KidsOK(env, kids, h, lo, hi)
    requires UnderOK(env, t, h, LoOf(kids[..i], [kids[i]], lo), HiOf(kids[i+1..], hi))
    ensures Outcome(env, kids, i, t, Rebalance(env, kids, i, t))
  {
    hide KidsOK, BranchPageOK, UnderOK, RemovalOK, Filled, CanGive, AfterMove, Merge, MoveLeft, MoveRight,
         Enough, Lends, Joined, Nodes, WithPair, ChildPages;
    var j := if i == 0 then 0 else i - 1;
    var nb := if i == 0 then kids[1].tree else kids[j].tree;
    EnoughIsFilled(env, t);
    RebalanceOK(env, kids, i, t, h, lo, hi);
    KidKinds(env, kids, h, lo, hi, if i == 0 then 1 else j);
    UnderKind(env, t, h, LoOf(kids[..i], [kids[i]], lo), HiOf(kids[i+1..], hi));
    LendsIsGiving(env, nb, t);
    if Enough(env, t) {
    } else if Lends(env, nb) {
      var s := if i == 0 then MoveLeft(env, t, nb) else MoveRight(env, nb, t);
      if AfterMove(env, kids, j, s) != Stable(Full) {
        NoRoomIsFull(env, kids, j, s);
        if i == 0 { MovedLeft(env, t, nb); } else { MovedRight(env, nb, t); }
        PairOfShift(env, kids, j, s);
      } else {
        assert AfterMove(env, kids, j, s).Stable?;
      }
    } else if i == 0 {
      JoinedNodes(t, nb);
      PairOfMerge(env, kids, j, t, nb);
    } else {
      JoinedNodes(nb, t);
      PairOfMerge(env, kids, j, nb, t);
    }
  }

  lemma NoRoomIsFull(env: Env, kids: seq<Kid>, j: nat, s: Shift)
    requires env.Valid() && j + 1 < |kids| && AfterMove(env, kids, j, s) != Stable(Full)
    ensures s.Shifted?
  {
  }

  // ---- Delete ----------------------------------------------------------------------------------

  /** On a leaf exactly the node of the key goes, and its parent must look at what is left. */
  lemma LeafLoses(env: Env, ents: seq<Entry>, k: Key, i: nat)
    requires env.Valid() && i < |ents| && ents[i].key == k && Sorted(Pairs(ents))
    ensures Delete(env, Leaf(ents), k) == Check(Leaf(ents[..i] + ents[i+1..]))
  {
    hide Less;
    var ps := Pairs(ents);
    forall x | 0 <= x < i ensures Less(ps[x].key, k) { assert Less(ps[x].key, ps[i].key); }
    LessIrreflexive(k);
    PosUnique(ps, k, i);
  }

  /** Every branch page on the way up rebalances the child that shrank. */
  lemma DeleteRebalances(env: Env, kids: seq<Kid>, h: nat, lo: Key, hi: Option<Key>, k: Key)
    requires env.Valid() && TreeOK(env, Branch(kids), h, lo, hi) && InRange(k, lo, hi)
    requires Delete(env, kids[KidIndex(kids, k)].tree, k).Check?
    ensures var i := KidIndex(kids, k);
            Outcome(env, kids, i, Delete(env, kids[i].tree, k).t, Delete(env, Branch(kids), k))
  {
    hide KidsOK, BranchPageOK, UnderOK, Rebalance, Outcome, SeqRemove, KidIndex, AllBelow, AllAbove, ChangeOK;
    var i := KidIndex(kids, k);
    ChildBounds(env, kids, k, h - 1, lo, hi);
    var lo', hi' := LoOf(kids[..i], [kids[i]], lo), HiOf(kids[i+1..], hi);
    DeleteOK(env, kids[i].tree, h - 1, lo', hi', k);
    RebalanceDoes(env, kids, i, Delete(env, kids[i].tree, k).t, h - 1, lo, hi);
  }
}
