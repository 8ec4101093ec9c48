/** Delete on the tree with its page numbers: pages touched on the way down, neighbours touched when a node moves or pages
    merge, merged pages given up, and the root page freed when the tree loses it. */
module PageTreeDelete {
  import opened Keys
  import opened SplitPoint
  import opened BTree
  import opened BTreePut
  import opened BTreeDelete
  import opened PageTree

  datatype PRemoval = PStable(c: PChange) | PCheck(t: PTree)
  datatype PShift = PShifted(left: PTree, sep: Key, right: PTree) | PNoRoom

  function BareRemoval(r: PRemoval): Removal {
    match r
    case PStable(c) => Stable(BareChange(c))
    case PCheck(t) => Check(Bare(t))
  }

  function BareShift(s: PShift): Shift {
    match s
    case PShifted(l, sep, r) => Shifted(Bare(l), sep, Bare(r))
    case PNoRoom => NoRoom
  }

  function LowestKey(kid: PKid): PKid { PKid(Lowest(Bare(kid.tree)), kid.tree) }

  /** Move the first node of the right page; both pages are touched (mdb_node_move). */
  function ShiftLeft(env: Env, l: PTree, r: PTree, a: Alloc): (PShift, Alloc)
    requires env.Valid()
  {
    var q, a' := Touched(a, r.page), Touch(a, r.page);
    var p, a'' := Touched(a', l.page), Touch(a', l.page);
    if l.PLeaf? && r.PLeaf? && |r.ents| > 1 then
      var ents := l.ents + [r.ents[0]];
      if LeafUsed(ents) > env.PMax() then (PNoRoom, a'')
      else (PShifted(PLeaf(p, ents), r.ents[1].key, PLeaf(q, r.ents[1..])), a'')
    else if l.PBranch? && r.PBranch? && |r.kids| > 1 then
      var kids := l.kids + [LowestKey(r.kids[0])];
      if BranchUsed(BareKids(kids)) > env.PMax() then (PNoRoom, a'')
      else (PShifted(PBranch(p, kids), r.kids[1].sep, PBranch(q, [PKid([], r.kids[1].tree)] + r.kids[2..])), a'')
    else (PNoRoom, a'')
  }

  /** Move the last node of the left page. */
  function ShiftRight(env: Env, l: PTree, r: PTree, a: Alloc): (PShift, Alloc)
    requires env.Valid()
  {
    var p, a' := Touched(a, l.page), Touch(a, l.page);
    var q, a'' := Touched(a', r.page), Touch(a', r.page);
    if l.PLeaf? && r.PLeaf? && |l.ents| > 1 then
      var n := |l.ents| - 1;
      var ents := [l.ents[n]] + r.ents;
      if LeafUsed(ents) > env.PMax() then (PNoRoom, a'')
      else (PShifted(PLeaf(p, l.ents[..n]), l.ents[n].key, PLeaf(q, ents)), a'')
    else if l.PBranch? && r.PBranch? && |l.kids| > 1 && r.kids != [] then
      var n := |l.kids| - 1;
      var rest := [LowestKey(r.kids[0])] + r.kids[1..];
      if BranchUsed(BareKids([l.kids[n]] + rest)) > env.PMax() then (PNoRoom, a'')
      else (PShifted(PBranch(p, l.kids[..n]), l.kids[n].sep, PBranch(q, [PKid([], l.kids[n].tree)] + rest)), a'')
    else (PNoRoom, a'')
  }

  /** Both pages' nodes on page `p`. */
  function JoinedPage(p: nat, l: PTree, r: PTree): PTree {
    if l.PLeaf? && r.PLeaf? then PLeaf(p, l.ents + r.ents)
    else if l.PBranch? && r.PBranch? && r.kids != [] then PBranch(p, l.kids + ([LowestKey(r.kids[0])] + r.kids[1..]))
    else l
  }

  function UpdatePage(env: Env, p: nat, kids: seq<PKid>, j: nat, sep: Key, a: Alloc): (PChange, Alloc)
    requires env.Valid() && j < |kids|
  {
    var all := kids[j := PKid(sep, kids[j].tree)];
    var delta := Even(|sep|) - Even(|kids[j].sep|);
    if delta > 0 && env.PMax() - BranchUsed(BareKids(kids)) < delta then SplitPage(env, p, all, j, a)
    else (PFits(PBranch(p, all)), a)
  }

  function AfterShift(env: Env, p: nat, kids: seq<PKid>, j: nat, s: PShift, a: Alloc): (PRemoval, Alloc)
    requires env.Valid() && j + 1 < |kids|
  {
    match s
    case PNoRoom => (PStable(PFull), a)
    case PShifted(l, sep, r) =>
      var (c, a') := UpdatePage(env, p, kids[j := PKid(kids[j].sep, l)][j + 1 := PKid(kids[j+1].sep, r)], j + 1, sep, a);
      (PStable(c), a')
  }

  /** The right page's nodes go to the touched left page, and the right page is given up (mdb_page_merge). */
  function MergePages(env: Env, p: nat, kids: seq<PKid>, j: nat, l: PTree, r: PTree, a: Alloc): (PRemoval, Alloc)
    requires env.Valid() && j + 1 < |kids|
  {
    var m, a' := JoinedPage(Touched(a, l.page), l, r), Touch(a, l.page);
    if Used(Bare(m)) > env.PMax() then (PStable(PFull), a')
    else (PCheck(PBranch(p, kids[..j] + [PKid(kids[j].sep, m)] + kids[j+2..])), Loosened(a', r.page))
  }

  function RebalancePages(env: Env, p: nat, kids: seq<PKid>, i: nat, t: PTree, a: Alloc): (PRemoval, Alloc)
    requires env.Valid() && i < |kids|
  {
    if Filled(env, Bare(t)) then (PStable(PFits(PBranch(p, kids[i := PKid(kids[i].sep, t)]))), a)
    else if |kids| < 2 then (PStable(PFull), a)
    else if i == 0 then
      if CanGive(env, Bare(kids[1].tree), Bare(t)) then
        var (s, a') := ShiftLeft(env, t, kids[1].tree, a);
        AfterShift(env, p, kids, 0, s, a')
      else MergePages(env, p, kids, 0, t, kids[1].tree, a)
    else
      if CanGive(env, Bare(kids[i-1].tree), Bare(t)) then
        var (s, a') := ShiftRight(env, kids[i-1].tree, t, a);
        AfterShift(env, p, kids, i - 1, s, a')
      else MergePages(env, p, kids, i - 1, kids[i-1].tree, t, a)
  }

  /** Delete, touching every page from the root down to the leaf (mdb_cursor_touch). */
  function DeletePages(env: Env, t: PTree, k: Key, a: Alloc): (PRemoval, Alloc)
    requires env.Valid()
    decreases t
  {
    var p, a' := Touched(a, t.page), Touch(a, t.page);
    match t
    case PLeaf(_, ents) =>
      var i := Pos(Pairs(ents), k);
      if i < |ents| && ents[i].key == k then (PCheck(PLeaf(p, ents[..i] + ents[i+1..])), a')
      else (PStable(PFits(PLeaf(p, ents))), a')
    case PBranch(_, kids) =>
      if kids == [] then (PStable(PFull), a')
      else
        var i := KidIndex(BareKids(kids), k);
        var (r, a'') := DeletePages(env, kids[i].tree, k, a');
        match r
        case PStable(c) => (var (c', a3) := AfterPage(env, p, kids, i, c, a''); (PStable(c'), a3))
        case PCheck(t') => RebalancePages(env, p, kids, i, t', a'')
  }

  // ---- It is the delete of the tree without numbers --------------------------------------------

  lemma ShiftLeftBare(env: Env, l: PTree, r: PTree, a: Alloc)
    requires env.Valid()
    ensures BareShift(ShiftLeft(env, l, r, a).0) == MoveLeft(env, Bare(l), Bare(r))
  {
    hide Touch, Touched, LeafUsed, BranchUsed, BareKids, Lowest;
    if l.PBranch? && r.PBranch? {
      BareLength(l.kids);
      BareLength(r.kids);
      if |r.kids| > 1 {
        BareAppend(l.kids, [LowestKey(r.kids[0])]);
        BareOne(LowestKey(r.kids[0]));
        BareSlices(r.kids, 2);
        BareOne(PKid([], r.kids[1].tree));
        BareAppend([PKid([], r.kids[1].tree)], r.kids[2..]);
      }
    }
  }

  lemma ShiftRightBare(env: Env, l: PTree, r: PTree, a: Alloc)
    requires env.Valid()
    ensures BareShift(ShiftRight(env, l, r, a).0) == MoveRight(env, Bare(l), Bare(r))
  {
    hide Touch, Touched, LeafUsed, BranchUsed, BareKids, Lowest;
    if l.PBranch? && r.PBranch? {
      BareLength(l.kids);
      BareLength(r.kids);
      if |l.kids| > 1 && r.kids != [] {
        var n := |l.kids| - 1;
        var rest := [LowestKey(r.kids[0])] + r.kids[1..];
        BareSlices(l.kids, n);
        BareSlices(r.kids, 1);
        BareOne(LowestKey(r.kids[0]));
        BareAppend([LowestKey(r.kids[0])], r.kids[1..]);
        BareOne(l.kids[n]);
        BareAppend([l.kids[n]], rest);
        BareOne(PKid([], l.kids[n].tree));
        BareAppend([PKid([], l.kids[n].tree)], rest);
      }
    }
  }

  lemma JoinedBare(p: nat, l: PTree, r: PTree)
    ensures Bare(JoinedPage(p, l, r)) == Joined(Bare(l), Bare(r))
  {
    hide BareKids, Lowest;
    if l.PBranch? && r.PBranch? {
      BareLength(r.kids);
      if r.kids != [] {
        BareSlices(r.kids, 1);
        BareOne(LowestKey(r.kids[0]));
        BareAppend([LowestKey(r.kids[0])], r.kids[1..]);
        BareAppend(l.kids, [LowestKey(r.kids[0])] + r.kids[1..]);
      }
    }
  }

  lemma UpdatePageBare(env: Env, p: nat, kids: seq<PKid>, j: nat, sep: Key, a: Alloc)
    requires env.Valid() && j < |kids|
    ensures |BareKids(kids)| == |kids|
    ensures BareChange(UpdatePage(env, p, kids, j, sep, a).0) == UpdateKey(env, BareKids(kids), j, sep)
  {
    hide SplitPage, SplitBranch, BranchUsed, BareKids, Even;
    var all := kids[j := PKid(sep, kids[j].tree)];
    BareLength(kids);
    BareUpdate(kids, j, PKid(sep, kids[j].tree));
    SplitPageBare(env, p, all, j, a);
  }

  lemma AfterShiftBare(env: Env, p: nat, kids: seq<PKid>, j: nat, s: PShift, a: Alloc)
    requires env.Valid() && j + 1 < |kids|
    ensures |BareKids(kids)| == |kids|
    ensures BareRemoval(AfterShift(env, p, kids, j, s, a).0) == AfterMove(env, BareKids(kids), j, BareShift(s))
  {
    hide UpdatePage, UpdateKey, BareKids;
    BareLength(kids);
    if s.PShifted? {
      var kids' := kids[j := PKid(kids[j].sep, s.left)];
      BareUpdate(kids, j, PKid(kids[j].sep, s.left));
      BareUpdate(kids', j + 1, PKid(kids[j+1].sep, s.right));
      UpdatePageBare(env, p, kids'[j + 1 := PKid(kids[j+1].sep, s.right)], j + 1, s.sep, a);
    }
  }

  lemma MergePagesBare(env: Env, p: nat, kids: seq<PKid>, j: nat, l: PTree, r: PTree, a: Alloc)
    requires env.Valid() && j + 1 < |kids|
    ensures |BareKids(kids)| == |kids|
    ensures BareRemoval(MergePages(env, p, kids, j, l, r, a).0) == Merge(env, BareKids(kids), j, Bare(l), Bare(r))
  {
    hide JoinedPage, Joined, BareKids, Used, Touch, Touched, Loosened;
    var m := JoinedPage(Touched(a, l.page), l, r);
    JoinedBare(Touched(a, l.page), l, r);
    BareLength(kids);
    BareSlices(kids, j);
    BareSlices(kids, j + 2);
    BareOne(PKid(kids[j].sep, m));
    BareAppend(kids[..j], [PKid(kids[j].sep, m)]);
    BareAppend(kids[..j] + [PKid(kids[j].sep, m)], kids[j+2..]);
  }

  lemma RebalancePagesBare(env: Env, p: nat, kids: seq<PKid>, i: nat, t: PTree, a: Alloc)
    requires env.Valid() && i < |kids|
    ensures |BareKids(kids)| == |kids|
    ensures BareRemoval(RebalancePages(env, p, kids, i, t, a).0) == Rebalance(env, BareKids(kids), i, Bare(t))
  {
    hide BareKids, Filled, CanGive, AfterShift, AfterMove, MergePages, Merge, ShiftLeft, ShiftRight, MoveLeft, MoveRight;
    BareLength(kids);
    BareUpdate(kids, i, PKid(kids[i].sep, t));
    if |kids| >= 2 {
      if i == 0 {
        var (s, a') := ShiftLeft(env, t, kids[1].tree, a);
        ShiftLeftBare(env, t, kids[1].tree, a);
        AfterShiftBare(env, p, kids, 0, s, a');
        MergePagesBare(env, p, kids, 0, t, kids[1].tree, a);
      } else {
        var (s, a') := ShiftRight(env, kids[i-1].tree, t, a);
        ShiftRightBare(env, kids[i-1].tree, t, a);
        AfterShiftBare(env, p, kids, i - 1, s, a');
        MergePagesBare(env, p, kids, i - 1, kids[i-1].tree, t, a);
      }
    }
  }

  /** Without its page numbers, a delete is the delete of the tree. */
  lemma {:induction false} DeletePagesBare(env: Env, t: PTree, k: Key, a: Alloc)
    requires env.Valid()
    ensures BareRemoval(DeletePages(env, t, k, a).0) == Delete(env, Bare(t), k)
    decreases t
  {
    hide AfterPage, AfterChild, RebalancePages, Rebalance, Touch, Touched, Pos;
    match t
    case PLeaf(_, ents) =>
    case PBranch(_, kids) =>
      BareLength(kids);
      if kids != [] {
        var p, a' := Touched(a, t.page), Touch(a, t.page);
        var i := KidIndex(BareKids(kids), k);
        DeletePagesBare(env, kids[i].tree, k, a');
        var (r, a'') := DeletePages(env, kids[i].tree, k, a');
        match r
        case PStable(c) => AfterPageBare(env, p, kids, i, c, a'');
        case PCheck(t') => RebalancePagesBare(env, p, kids, i, t', a'');
      }
  }

  // ---- Where its pages come from and go --------------------------------------------------------

  function PagesLeft(r: PRemoval): multiset<nat> {
    match r
    case PStable(c) => PagesOf(c)
    case PCheck(t) => Pages(t)
  }

  function ImagesLeft(r: PRemoval): set<Image> {
    match r
    case PStable(c) => ImagesOf(c)
    case PCheck(t) => Images(t)
  }

  lemma RewrittenChain(m: multiset<nat>, was: set<Image>, a: Alloc, m': multiset<nat>, between: set<Image>, a': Alloc,
                       m'': multiset<nat>, now: set<Image>, a'': Alloc)
    requires Rewritten(m, was, a, m', between, a') && Rewritten(m', between, a', m'', now, a'')
    ensures Rewritten(m, was, a, m'', now, a'')
  {
    hide Accounted;
    AccountedChain(m, a, m', a', m'', a'');
    GrownDirty(m', a', m'', a'');
  }

  lemma RewrittenBeside(m: multiset<nat>, was: set<Image>, a: Alloc, m': multiset<nat>, now: set<Image>, a': Alloc,
                        c: multiset<nat>, cs: set<Image>)
    requires Rewritten(m, was, a, m', now, a')
    ensures Rewritten(c + m, cs + was, a, c + m', cs + now, a')
  {
    hide Accounted;
    AccountedBeside(m, a, m', a', c);
    assert m + c == c + m && m' + c == c + m';
  }

  /** The dirty page above its children. */
  lemma PageOver(m: multiset<nat>, was: set<Image>, a: Alloc, p: nat, kids: seq<PKid>, a': Alloc)
    requires Rewritten(m, was, a, multiset{p} + PagesKids(kids), ImagesKids(kids), a') && p in a'.dirty
    ensures Rewritten(m, was, a, Pages(PBranch(p, kids)), Images(PBranch(p, kids)), a')
  {
    hide Accounted, PagesKids, ImagesKids;
  }

  lemma TwoTouched(a: Alloc, x: nat, y: nat)
    ensures var a' := Touch(a, x); var a'' := Touch(a', y);
            && Accounted(multiset{x} + multiset{y}, a, multiset{Touched(a, x)} + multiset{Touched(a', y)}, a'')
            && Touched(a, x) in a''.dirty && Touched(a', y) in a''.dirty
  {
    hide Accounted, Touch, Touched;
    var a' := Touch(a, x);
    var a'' := Touch(a', y);
    TouchAccounted(a, x);
    TouchAccounted(a', y);
    AccountedBeside(multiset{x}, a, multiset{Touched(a, x)}, a', multiset{y});
    AccountedBeside(multiset{y}, a', multiset{Touched(a', y)}, a'', multiset{Touched(a, x)});
    GrownDirty(multiset{y}, a', multiset{Touched(a', y)}, a'');
    var mid := multiset{Touched(a, x)} + multiset{y};
    assert multiset{y} + multiset{Touched(a, x)} == mid;
    assert multiset{Touched(a', y)} + multiset{Touched(a, x)} == multiset{Touched(a, x)} + multiset{Touched(a', y)};
    AccountedChain(multiset{x} + multiset{y}, a, mid, a', multiset{Touched(a, x)} + multiset{Touched(a', y)}, a'');
  }

  lemma BothKept(kids: seq<PKid>, more: seq<PKid>, p: nat, kids': seq<PKid>, q: nat, more': seq<PKid>, d: set<nat>,
                 was: set<Image>)
    requires p in d && q in d && ImagesKids(kids) + ImagesKids(more) <= was
    requires ImagesKids(kids') + ImagesKids(more') == ImagesKids(kids) + ImagesKids(more)
    ensures Kept(was, d, Images(PBranch(p, kids')) + Images(PBranch(q, more')))
  {
    hide ImagesKids;
  }

  /** Two pages under new numbers, with the same children between them. */
  lemma BothRewritten(x: nat, kids: seq<PKid>, y: nat, more: seq<PKid>, p: nat, kids': seq<PKid>, q: nat, more': seq<PKid>,
                      a: Alloc, a': Alloc)
    requires Accounted(multiset{x} + multiset{y}, a, multiset{p} + multiset{q}, a') && p in a'.dirty && q in a'.dirty
    requires PagesKids(kids') + PagesKids(more') == PagesKids(kids) + PagesKids(more)
    requires ImagesKids(kids') + ImagesKids(more') == ImagesKids(kids) + ImagesKids(more)
    ensures var l, r, l', r' := PBranch(x, kids), PBranch(y, more), PBranch(p, kids'), PBranch(q, more');
            Rewritten(Pages(l) + Pages(r), Images(l) + Images(r), a, Pages(l') + Pages(r'), Images(l') + Images(r'), a')
  {
    hide Accounted, PagesKids, ImagesKids, Kept;
    BothKept(kids, more, p, kids', q, more', a'.dirty, Images(PBranch(x, kids)) + Images(PBranch(y, more)));
    var c := PagesKids(kids) + PagesKids(more);
    AccountedBeside(multiset{x} + multiset{y}, a, multiset{p} + multiset{q}, a', c);
    assert (multiset{x} + PagesKids(kids)) + (multiset{y} + PagesKids(more)) == multiset{x} + multiset{y} + c;
    assert (multiset{p} + PagesKids(kids')) + (multiset{q} + PagesKids(more')) == multiset{p} + multiset{q} + c;
  }

  /** The first node of the right page is as well the last of the left one. */
  lemma NodeLeft(kids: seq<PKid>, more: seq<PKid>)
    requires |more| > 1
    ensures var kids', more' := kids + [LowestKey(more[0])], [PKid([], more[1].tree)] + more[2..];
            && PagesKids(kids') + PagesKids(more') == PagesKids(kids) + PagesKids(more)
            && ImagesKids(kids') + ImagesKids(more') == ImagesKids(kids) + ImagesKids(more)
  {
    hide PagesKids, ImagesKids, Lowest;
    var x, y, y' := LowestKey(more[0]), more[1], PKid([], more[1].tree);
    assert more == [more[0]] + ([y] + more[2..]);
    PagesAppend(kids, [x]);
    PagesAppend([more[0]], [y] + more[2..]);
    PagesAppend([y], more[2..]);
    PagesAppend([y'], more[2..]);
    PagesOne(x);
    PagesOne(more[0]);
    PagesOne(y);
    PagesOne(y');
  }

  lemma NodeRight(kids: seq<PKid>, more: seq<PKid>)
    requires |kids| > 1 && more != []
    ensures var n := |kids| - 1;
            var kids', more' := kids[..n], [PKid([], kids[n].tree)] + ([LowestKey(more[0])] + more[1..]);
            && PagesKids(kids') + PagesKids(more') == PagesKids(kids) + PagesKids(more)
            && ImagesKids(kids') + ImagesKids(more') == ImagesKids(kids) + ImagesKids(more)
  {
    hide PagesKids, ImagesKids, Lowest;
    var n := |kids| - 1;
    var x, y, y' := PKid([], kids[n].tree), LowestKey(more[0]), more[0];
    assert kids == kids[..n] + [kids[n]] && more == [y'] + more[1..];
    PagesAppend(kids[..n], [kids[n]]);
    PagesAppend([x], [y] + more[1..]);
    PagesAppend([y], more[1..]);
    PagesAppend([y'], more[1..]);
    PagesOne(x);
    PagesOne(kids[n]);
    PagesOne(y);
    PagesOne(y');
  }

  lemma NodesJoined(kids: seq<PKid>, more: seq<PKid>)
    requires more != []
    ensures var all := kids + ([LowestKey(more[0])] + more[1..]);
            PagesKids(all) == PagesKids(kids) + PagesKids(more) && ImagesKids(all) == ImagesKids(kids) + ImagesKids(more)
  {
    hide PagesKids, ImagesKids, Lowest;
    var y, y' := LowestKey(more[0]), more[0];
    assert more == [y'] + more[1..];
    PagesAppend(kids, [y] + more[1..]);
    PagesAppend([y], more[1..]);
    PagesAppend([y'], more[1..]);
    PagesOne(y);
    PagesOne(y');
  }

  ghost predicate PairRewritten(l: PTree, r: PTree, a: Alloc, l': PTree, r': PTree, a': Alloc) {
    Rewritten(Pages(l) + Pages(r), Images(l) + Images(r), a, Pages(l') + Pages(r'), Images(l') + Images(r'), a')
  }

  lemma LeavesRewritten(x: nat, ents: seq<Entry>, y: nat, more: seq<Entry>, p: nat, ents': seq<Entry>, q: nat,
                        more': seq<Entry>, a: Alloc, a': Alloc)
    requires Accounted(multiset{x} + multiset{y}, a, multiset{p} + multiset{q}, a') && p in a'.dirty && q in a'.dirty
    ensures PairRewritten(PLeaf(x, ents), PLeaf(y, more), a, PLeaf(p, ents'), PLeaf(q, more'), a')
  {
    hide Accounted;
    assert Images(PLeaf(p, ents')) + Images(PLeaf(q, more')) == {LeafImage(p, ents'), LeafImage(q, more')};
  }

  lemma Swapped(x: nat, y: nat, a: Alloc, p: nat, q: nat, a': Alloc)
    requires Accounted(multiset{x} + multiset{y}, a, multiset{p} + multiset{q}, a')
    ensures Accounted(multiset{y} + multiset{x}, a, multiset{q} + multiset{p}, a')
  {
    hide Accounted;
    assert multiset{x} + multiset{y} == multiset{y} + multiset{x} && multiset{p} + multiset{q} == multiset{q} + multiset{p};
  }

  lemma ShiftLeftAccounted(env: Env, l: PTree, r: PTree, a: Alloc)
    requires env.Valid()
    ensures var (s, a') := ShiftLeft(env, l, r, a);
            s.PShifted? ==> PairRewritten(l, r, a, s.left, s.right, a')
  {
    hide Accounted, Touch, Touched, PagesKids, ImagesKids, BareKids, LeafUsed, BranchUsed, Lowest;
    var q, a' := Touched(a, r.page), Touch(a, r.page);
    var p, a'' := Touched(a', l.page), Touch(a', l.page);
    TwoTouched(a, r.page, l.page);
    Swapped(r.page, l.page, a, q, p, a'');
    var s := ShiftLeft(env, l, r, a).0;
    if s.PShifted? {
      if l.PLeaf? {
        LeavesRewritten(l.page, l.ents, r.page, r.ents, p, s.left.ents, q, s.right.ents, a, a'');
      } else {
        NodeLeft(l.kids, r.kids);
        BothRewritten(l.page, l.kids, r.page, r.kids, p, s.left.kids, q, s.right.kids, a, a'');
      }
    }
  }

  lemma ShiftRightAccounted(env: Env, l: PTree, r: PTree, a: Alloc)
    requires env.Valid()
    ensures var (s, a') := ShiftRight(env, l, r, a);
            s.PShifted? ==> PairRewritten(l, r, a, s.left, s.right, a')
  {
    hide Accounted, Touch, Touched, PagesKids, ImagesKids, BareKids, LeafUsed, BranchUsed, Lowest;
    var p, a' := Touched(a, l.page), Touch(a, l.page);
    var q, a'' := Touched(a', r.page), Touch(a', r.page);
    TwoTouched(a, l.page, r.page);
    var s := ShiftRight(env, l, r, a).0;
    if s.PShifted? {
      if l.PLeaf? {
        LeavesRewritten(l.page, l.ents, r.page, r.ents, p, s.left.ents, q, s.right.ents, a, a'');
      } else {
        NodeRight(l.kids, r.kids);
        BothRewritten(l.page, l.kids, r.page, r.kids, p, s.left.kids, q, s.right.kids, a, a'');
      }
    }
  }

  predicate SameKind(l: PTree, r: PTree) {
    (l.PLeaf? && r.PLeaf?) || (l.PBranch? && r.PBranch? && r.kids != [])
  }

  lemma TouchedAndGiven(a: Alloc, x: nat, y: nat)
    ensures var a' := Loosened(Touch(a, x), y);
            Accounted(multiset{x} + multiset{y}, a, multiset{Touched(a, x)}, a') && Touched(a, x) in a'.dirty
  {
    hide Accounted, Touch, Touched, Loosened;
    var p, a' := Touched(a, x), Touch(a, x);
    TouchAccounted(a, x);
    GivenBack(a', y);
    AccountedBeside(multiset{x}, a, multiset{p}, a', multiset{y});
    AccountedBeside(multiset{y}, a', multiset{}, Loosened(a', y), multiset{p});
    GrownDirty(multiset{y}, a', multiset{}, Loosened(a', y));
    assert multiset{p} + multiset{y} == multiset{y} + multiset{p} && multiset{} + multiset{p} == multiset{p};
    AccountedChain(multiset{x} + multiset{y}, a, multiset{p} + multiset{y}, a', multiset{p}, Loosened(a', y));
  }

  lemma JoinedAccounted(l: PTree, r: PTree, a: Alloc)
    requires SameKind(l, r)
    ensures var m, a' := JoinedPage(Touched(a, l.page), l, r), Loosened(Touch(a, l.page), r.page);
            Rewritten(Pages(l) + Pages(r), Images(l) + Images(r), a, Pages(m), Images(m), a')
  {
    hide Accounted, Touch, Touched, Loosened, PagesKids, ImagesKids, Lowest;
    var p, a' := Touched(a, l.page), Loosened(Touch(a, l.page), r.page);
    TouchedAndGiven(a, l.page, r.page);
    if l.PLeaf? {
      assert Images(JoinedPage(p, l, r)) == {LeafImage(p, l.ents + r.ents)};
    } else {
      NodesJoined(l.kids, r.kids);
      var c := PagesKids(l.kids) + PagesKids(r.kids);
      AccountedBeside(multiset{l.page} + multiset{r.page}, a, multiset{p}, a', c);
      assert (multiset{l.page} + PagesKids(l.kids)) + (multiset{r.page} + PagesKids(r.kids))
             == multiset{l.page} + multiset{r.page} + c;
    }
  }

  /** A dirty page with a changed separator, cut in two or not. */
  lemma UpdatePageAccounted(env: Env, p: nat, kids: seq<PKid>, j: nat, sep: Key, a: Alloc)
    requires env.Valid() && j < |kids| && p in a.dirty
    ensures var (c, a') := UpdatePage(env, p, kids, j, sep, a);
            !c.PFull? ==> Rewritten(multiset{p} + PagesKids(kids), ImagesKids(kids), a, PagesOf(c), ImagesOf(c), a')
  {
    hide SplitPage, BranchUsed, BareKids, Even, PagesKids, ImagesKids, Accounted;
    var all := kids[j := PKid(sep, kids[j].tree)];
    PagesAround(kids, j, kids[j]);
    PagesAround(kids, j, PKid(sep, kids[j].tree));
    assert kids[j := kids[j]] == kids;
    SplitPageAccounted(env, p, all, j, a);
    AccountedNothing(multiset{p} + PagesKids(all), a);
  }

  /** Around children `j` and `j + 1`. */
  lemma PairPages(kids: seq<PKid>, j: nat, x: PKid, y: PKid)
    requires j + 1 < |kids|
    ensures var low, high, now := kids[..j], kids[j+2..], kids[j := x][j + 1 := y];
            && PagesKids(now) == PagesKids(low) + (Pages(x.tree) + Pages(y.tree)) + PagesKids(high)
            && ImagesKids(now) == ImagesKids(low) + (Images(x.tree) + Images(y.tree)) + ImagesKids(high)
  {
    hide PagesKids, ImagesKids, Pages, Images;
    var low, high := kids[..j], kids[j+2..];
    assert kids[j := x][j + 1 := y] == low + ([x] + [y]) + high;
    PagesAppend(low + ([x] + [y]), high);
    PagesAppend(low, [x] + [y]);
    PagesAppend([x], [y]);
    PagesOne(x);
    PagesOne(y);
  }

  lemma MergedPages(kids: seq<PKid>, j: nat, x: PKid)
    requires j + 1 < |kids|
    ensures var low, high := kids[..j], kids[j+2..];
            && PagesKids(low + [x] + high) == PagesKids(low) + Pages(x.tree) + PagesKids(high)
            && ImagesKids(low + [x] + high) == ImagesKids(low) + Images(x.tree) + ImagesKids(high)
  {
    hide PagesKids, ImagesKids, Pages, Images;
    PagesAppend(kids[..j] + [x], kids[j+2..]);
    PagesAppend(kids[..j], [x]);
    PagesOne(x);
  }

  lemma AfterShiftAccounted(env: Env, p: nat, kids: seq<PKid>, j: nat, s: PShift, a: Alloc)
    requires env.Valid() && j + 1 < |kids| && p in a.dirty && s.PShifted?
    ensures var (r, a') := AfterShift(env, p, kids, j, s, a);
            r != PStable(PFull) ==>
              Rewritten(multiset{p} + (PagesKids(kids[..j]) + (Pages(s.left) + Pages(s.right)) + PagesKids(kids[j+2..])),
                        ImagesKids(kids[..j]) + (Images(s.left) + Images(s.right)) + ImagesKids(kids[j+2..]), a,
                        PagesLeft(r), ImagesLeft(r), a')
  {
    hide UpdatePage, Rewritten, PagesKids, ImagesKids, Pages, Images, PagesOf, ImagesOf;
    var x, y := PKid(kids[j].sep, s.left), PKid(kids[j+1].sep, s.right);
    PairPages(kids, j, x, y);
    UpdatePageAccounted(env, p, kids[j := x][j + 1 := y], j + 1, s.sep, a);
  }

  /** The page touched, a child of the pair changed, and then the pair itself. */
  lemma PairChain(q: nat, p: nat, low: multiset<nat>, high: multiset<nat>, m0: multiset<nat>, m1: multiset<nat>,
                  m2: multiset<nat>, a: Alloc, a1: Alloc, a2: Alloc, a3: Alloc)
    requires Accounted(multiset{q}, a, multiset{p}, a1) && Accounted(m0, a1, m1, a2) && Accounted(m1, a2, m2, a3)
    ensures Accounted(multiset{q} + (low + m0 + high), a, multiset{p} + (low + m2 + high), a3)
  {
    hide AllocOK;
  }

  lemma PairKept(low: set<Image>, high: set<Image>, i0: set<Image>, i1: set<Image>, i2: set<Image>, d2: set<nat>, d3: set<nat>)
    requires Kept(i0, d2, i1) && Kept(i1, d3, i2) && d2 <= d3
    ensures Kept(low + i0 + high, d3, low + i2 + high)
  {
  }

  lemma PairRebalanced(q: nat, p: nat, low: seq<PKid>, high: seq<PKid>, m0: multiset<nat>, i0: set<Image>, m1: multiset<nat>,
                       i1: set<Image>, m2: multiset<nat>, i2: set<Image>, a: Alloc, a1: Alloc, a2: Alloc, a3: Alloc)
    requires Accounted(multiset{q}, a, multiset{p}, a1) && p in a1.dirty
    requires Rewritten(m0, i0, a1, m1, i1, a2) && Rewritten(m1, i1, a2, m2, i2, a3)
    ensures Rewritten(multiset{q} + (PagesKids(low) + m0 + PagesKids(high)), ImagesKids(low) + i0 + ImagesKids(high), a,
                      multiset{p} + (PagesKids(low) + m2 + PagesKids(high)), ImagesKids(low) + i2 + ImagesKids(high), a3)
    ensures p in a3.dirty
  {
    hide Accounted, Kept, PagesKids, ImagesKids;
    PairChain(q, p, PagesKids(low), PagesKids(high), m0, m1, m2, a, a1, a2, a3);
    GrownDirty(m0, a1, m1, a2);
    GrownDirty(m1, a2, m2, a3);
    PairKept(ImagesKids(low), ImagesKids(high), i0, i1, i2, a2.dirty, a3.dirty);
  }

  lemma MergeAccounted(env: Env, p: nat, kids: seq<PKid>, j: nat, l: PTree, r: PTree, m: multiset<nat>, was: set<Image>,
                       a: Alloc, a': Alloc)
    requires env.Valid() && j + 1 < |kids| && SameKind(l, r)
    requires var now, a'' := JoinedPage(Touched(a', l.page), l, r), Loosened(Touch(a', l.page), r.page);
             && p in a''.dirty
             && Rewritten(m, was, a, multiset{p} + (PagesKids(kids[..j]) + Pages(now) + PagesKids(kids[j+2..])),
                          ImagesKids(kids[..j]) + Images(now) + ImagesKids(kids[j+2..]), a'')
    ensures var (r, a'') := MergePages(env, p, kids, j, l, r, a');
            r != PStable(PFull) ==> Rewritten(m, was, a, PagesLeft(r), ImagesLeft(r), a'')
  {
    hide Rewritten, PagesKids, ImagesKids, JoinedPage, Touch, Touched, Loosened, Used;
    var now, a'' := JoinedPage(Touched(a', l.page), l, r), Loosened(Touch(a', l.page), r.page);
    var x := PKid(kids[j].sep, now);
    MergedPages(kids, j, x);
    PageOver(m, was, a, p, kids[..j] + [x] + kids[j+2..], a'');
  }

  lemma PairAround(q: nat, kids: seq<PKid>, j: nat)
    requires j + 1 < |kids|
    ensures var low, high, l, r := kids[..j], kids[j+2..], kids[j].tree, kids[j+1].tree;
            && Pages(PBranch(q, kids)) == multiset{q} + (PagesKids(low) + (Pages(l) + Pages(r)) + PagesKids(high))
            && ImagesKids(low) + (Images(l) + Images(r)) + ImagesKids(high) <= Images(PBranch(q, kids))
  {
    hide PagesKids, ImagesKids;
    PairPages(kids, j, kids[j], kids[j+1]);
    assert kids[j := kids[j]][j + 1 := kids[j+1]] == kids;
  }

  lemma RewrittenWider(m: multiset<nat>, was: set<Image>, wide: set<Image>, a: Alloc, m': multiset<nat>, now: set<Image>,
                       a': Alloc)
    requires Rewritten(m, was, a, m', now, a') && was <= wide
    ensures Rewritten(m, wide, a, m', now, a')
  {
    hide Accounted;
  }

  /** A page whose children `j` and `j + 1` became `l` and `r` when one of them shrank. */
  ghost predicate PairChanged(q: nat, p: nat, kids: seq<PKid>, j: nat, l: PTree, r: PTree, a: Alloc, a1: Alloc, a2: Alloc)
    requires j + 1 < |kids|
  {
    && Accounted(multiset{q}, a, multiset{p}, a1) && p in a1.dirty
    && PairRewritten(kids[j].tree, kids[j+1].tree, a1, l, r, a2)
  }

  lemma ShiftCase(env: Env, q: nat, p: nat, kids: seq<PKid>, j: nat, l: PTree, r: PTree, s: PShift, a: Alloc, a1: Alloc,
                  a2: Alloc, a3: Alloc)
    requires env.Valid() && j + 1 < |kids| && PairChanged(q, p, kids, j, l, r, a, a1, a2)
    requires s.PShifted? && PairRewritten(l, r, a2, s.left, s.right, a3)
    ensures var t, (x, a4) := PBranch(q, kids), AfterShift(env, p, kids, j, s, a3);
            x != PStable(PFull) ==> Rewritten(Pages(t), Images(t), a, PagesLeft(x), ImagesLeft(x), a4)
  {
    hide Rewritten, Accounted, AfterShift, PagesKids, ImagesKids, Pages, Images, PagesLeft, ImagesLeft;
    var low, high, l0, r0 := kids[..j], kids[j+2..], kids[j].tree, kids[j+1].tree;
    var t := PBranch(q, kids);
    PairAround(q, kids, j);
    var i0 := Images(l0) + Images(r0);
    var m2, i2 := Pages(s.left) + Pages(s.right), Images(s.left) + Images(s.right);
    PairRebalanced(q, p, low, high, Pages(l0) + Pages(r0), i0, Pages(l) + Pages(r), Images(l) + Images(r), m2, i2, a, a1, a2, a3);
    var m, was := multiset{p} + (PagesKids(low) + m2 + PagesKids(high)), ImagesKids(low) + i2 + ImagesKids(high);
    RewrittenWider(Pages(t), ImagesKids(low) + i0 + ImagesKids(high), Images(t), a, m, was, a3);
    AfterShiftAccounted(env, p, kids, j, s, a3);
    var (x, a4) := AfterShift(env, p, kids, j, s, a3);
    if x != PStable(PFull) { RewrittenChain(Pages(t), Images(t), a, m, was, a3, PagesLeft(x), ImagesLeft(x), a4); }
  }

  lemma MergeCase(env: Env, q: nat, p: nat, kids: seq<PKid>, j: nat, l: PTree, r: PTree, a: Alloc, a1: Alloc, a2: Alloc)
    requires env.Valid() && j + 1 < |kids| && PairChanged(q, p, kids, j, l, r, a, a1, a2) && SameKind(l, r)
    ensures var t, (x, a3) := PBranch(q, kids), MergePages(env, p, kids, j, l, r, a2);
            x != PStable(PFull) ==> Rewritten(Pages(t), Images(t), a, PagesLeft(x), ImagesLeft(x), a3)
  {
    hide Rewritten, Accounted, MergePages, PagesKids, ImagesKids, Pages, Images, PagesLeft, ImagesLeft, JoinedPage,
         Touch, Touched, Loosened;
    var low, high, l0, r0 := kids[..j], kids[j+2..], kids[j].tree, kids[j+1].tree;
    var t := PBranch(q, kids);
    PairAround(q, kids, j);
    JoinedAccounted(l, r, a2);
    var now, a3 := JoinedPage(Touched(a2, l.page), l, r), Loosened(Touch(a2, l.page), r.page);
    var i0 := Images(l0) + Images(r0);
    PairRebalanced(q, p, low, high, Pages(l0) + Pages(r0), i0, Pages(l) + Pages(r), Images(l) + Images(r), Pages(now),
                   Images(now), a, a1, a2, a3);
    var m, was := multiset{p} + (PagesKids(low) + Pages(now) + PagesKids(high)), ImagesKids(low) + Images(now) + ImagesKids(high);
    RewrittenWider(Pages(t), ImagesKids(low) + i0 + ImagesKids(high), Images(t), a, m, was, a3);
    MergeAccounted(env, p, kids, j, l, r, Pages(t), Images(t), a, a2);
  }

  /** Of a pair one child changed and the other did not. */
  lemma OneOfPair(l: PTree, r: PTree, t: PTree, right: bool, a: Alloc, a': Alloc)
    requires var x := if right then r else l; Rewritten(Pages(x), Images(x), a, Pages(t), Images(t), a')
    ensures PairRewritten(l, r, a, if right then l else t, if right then t else r, a')
  {
    hide Rewritten, Pages, Images;
    if right {
      RewrittenBeside(Pages(r), Images(r), a, Pages(t), Images(t), a', Pages(l), Images(l));
    } else {
      RewrittenBeside(Pages(l), Images(l), a, Pages(t), Images(t), a', Pages(r), Images(r));
      assert Pages(r) + Pages(l) == Pages(l) + Pages(r) && Pages(r) + Pages(t) == Pages(t) + Pages(r);
      assert Images(r) + Images(l) == Images(l) + Images(r) && Images(r) + Images(t) == Images(t) + Images(r);
    }
  }

  lemma RebalanceAccounted(env: Env, q: nat, p: nat, kids: seq<PKid>, i: nat, t: PTree, a: Alloc, a1: Alloc, a2: Alloc)
    requires env.Valid() && i < |kids| && Accounted(multiset{q}, a, multiset{p}, a1) && p in a1.dirty
    requires Rewritten(Pages(kids[i].tree), Images(kids[i].tree), a1, Pages(t), Images(t), a2)
    requires |kids| >= 2 ==> if i == 0 then SameKind(t, kids[1].tree) else SameKind(kids[i-1].tree, t)
    ensures var above, (x, a3) := PBranch(q, kids), RebalancePages(env, p, kids, i, t, a2);
            x != PStable(PFull) ==> Rewritten(Pages(above), Images(above), a, PagesLeft(x), ImagesLeft(x), a3)
  {
    hide Rewritten, Accounted, Pages, Images, SameKind, Filled, CanGive, MergePages, ShiftLeft, ShiftRight, PairRewritten;
    if Filled(env, Bare(t)) {
      ChildAccounted(env, q, p, kids, i, PFits(t), a, a1, a2);
    } else if |kids| >= 2 {
      var j := if i == 0 then 0 else i - 1;
      var l0, r0 := kids[j].tree, kids[j+1].tree;
      OneOfPair(l0, r0, t, i > 0, a1, a2);
      if i == 0 {
        MergeCase(env, q, p, kids, 0, t, r0, a, a1, a2);
        var (s, a3) := ShiftLeft(env, t, r0, a2);
        ShiftLeftAccounted(env, t, r0, a2);
        if s.PShifted? { ShiftCase(env, q, p, kids, 0, t, r0, s, a, a1, a2, a3); }
      } else {
        MergeCase(env, q, p, kids, j, l0, t, a, a1, a2);
        var (s, a3) := ShiftRight(env, l0, t, a2);
        ShiftRightAccounted(env, l0, t, a2);
        if s.PShifted? { ShiftCase(env, q, p, kids, j, l0, t, s, a, a1, a2, a3); }
      }
    }
  }

  // ---- The whole delete ------------------------------------------------------------------------

  lemma Kinds(l: PTree, r: PTree)
    requires Bare(l).Leaf? == Bare(r).Leaf? && (Bare(r).Branch? ==> Bare(r).kids != [])
    ensures SameKind(l, r)
  {
    if r.PBranch? { BareLength(r.kids); }
  }

  /** From the child that was deleted from to the page above it. */
  lemma BranchAccounted(env: Env, q: nat, kids: seq<PKid>, k: Key, i: nat, a: Alloc)
    requires env.Valid() && kids != [] && i == KidIndex(BareKids(kids), k) < |kids|
    requires var (r, a'') := DeletePages(env, kids[i].tree, k, Touch(a, q));
             && (r != PStable(PFull) ==>
                   Rewritten(Pages(kids[i].tree), Images(kids[i].tree), Touch(a, q), PagesLeft(r), ImagesLeft(r), a''))
             && (r.PCheck? && |kids| >= 2 ==> if i == 0 then SameKind(r.t, kids[1].tree) else SameKind(kids[i-1].tree, r.t))
    ensures var t, (r, a') := PBranch(q, kids), DeletePages(env, PBranch(q, kids), k, a);
            r != PStable(PFull) ==> Rewritten(Pages(t), Images(t), a, PagesLeft(r), ImagesLeft(r), a')
  {
    hide PlacePage, RebalancePages, Rewritten, Accounted, Touch, Touched, Pages, Images, BareKids, SameKind, KidIndex;
    var p, a' := Touched(a, q), Touch(a, q);
    TouchAccounted(a, q);
    var (r, a'') := DeletePages(env, kids[i].tree, k, a');
    match r
    case PStable(c) => if !c.PFull? { ChildAccounted(env, q, p, kids, i, c, a, a', a''); }
    case PCheck(t') => RebalanceAccounted(env, q, p, kids, i, t', a, a', a'');
  }

  lemma LeafAccounted(env: Env, q: nat, ents: seq<Entry>, k: Key, a: Alloc)
    requires env.Valid()
    ensures var t, (r, a') := PLeaf(q, ents), DeletePages(env, PLeaf(q, ents), k, a);
            r != PStable(PFull) && Rewritten(Pages(t), Images(t), a, PagesLeft(r), ImagesLeft(r), a')
  {
    hide Accounted, Touch, Touched, Pos;
    TouchAccounted(a, q);
  }

  /** A delete accounts for every page of the subtree, and leaves every page alone that is not its own. */
  lemma {:induction false} DeleteAccounted(env: Env, t: PTree, h: nat, lo: Key, hi: Option<Key>, k: Key, a: Alloc)
    requires env.Valid() && TreeOK(env, Bare(t), h, lo, hi) && InRange(k, lo, hi)
    ensures var (r, a') := DeletePages(env, t, k, a);
            r != PStable(PFull) ==> Rewritten(Pages(t), Images(t), a, PagesLeft(r), ImagesLeft(r), a')
    decreases h
  {
    hide DeletePages, Rewritten, Touch, Pages, Images, BareKids, KidsOK, BranchPageOK, LeafOK, SameKind, AllBelow,
         AllAbove, FlattenKids;
    match t
    case PLeaf(q, ents) => LeafAccounted(env, q, ents, k, a);
    case PBranch(q, kids) =>
      var bare := BareKids(kids);
      BareLength(kids);
      var i := KidIndex(bare, k);
      ChildBounds(env, bare, k, h - 1, lo, hi);
      var lo', hi' := LoOf(bare[..i], [bare[i]], lo), HiOf(bare[i+1..], hi);
      DeleteAccounted(env, kids[i].tree, h - 1, lo', hi', k, Touch(a, q));
      if DeletePages(env, kids[i].tree, k, Touch(a, q)).0.PCheck? {
        ShrunkKind(env, kids, i, h - 1, lo, hi, lo', hi', k, Touch(a, q));
      }
      BranchAccounted(env, q, kids, k, i, a);
  }

  /** The child that shrank is a page of the same kind as its neighbours. */
  lemma ShrunkKind(env: Env, kids: seq<PKid>, i: nat, h: nat, lo: Key, hi: Option<Key>, lo': Key, hi': Option<Key>, k: Key,
                   a: Alloc)
    requires env.Valid() && i < |kids| && |BareKids(kids)| == |kids| && KidsOK(env, BareKids(kids), h, lo, hi)
    requires TreeOK(env, Bare(kids[i].tree), h, lo', hi') && InRange(k, lo', hi')
    requires DeletePages(env, kids[i].tree, k, a).0.PCheck?
    ensures var t := DeletePages(env, kids[i].tree, k, a).0.t;
            |kids| >= 2 ==> if i == 0 then SameKind(t, kids[1].tree) else SameKind(kids[i-1].tree, t)
  {
    hide TreeOK, KidsOK, Delete, DeletePages, BareKids, DeleteRefused, SameKind, SeqRemove;
    var t := DeletePages(env, kids[i].tree, k, a).0.t;
    DeletePagesBare(env, kids[i].tree, k, a);
    DeleteOK(env, Bare(kids[i].tree), h, lo', hi', k);
    UnderKind(env, Bare(t), h, lo', hi');
    BareLength(kids);
    if |kids| >= 2 {
      var j := if i == 0 then 1 else i - 1;
      KidKinds(env, BareKids(kids), h, lo, hi, j);
      if i == 0 { Kinds(t, kids[1].tree); } else { Kinds(kids[i-1].tree, t); }
    }
  }

  // ---- The database ----------------------------------------------------------------------------

  datatype PDelete = PDeleted(db: PDb) | PNotFound | PDelFull

  function BareDelete(r: PDelete): DelResult {
    match r
    case PDeleted(db) => Deleted(BareDb(db))
    case PNotFound => NotFound
    case PDelFull => DelFull
  }

  /** An empty root page is freed, and so is one that gives way to its only child. */
  function RootLeft(t: PTree, depth: nat, a: Alloc): (PDb, Alloc) {
    if Count(Bare(t)) == 0 then (PEmpty, Freed(a, t.page))
    else if t.PBranch? && |t.kids| == 1 && depth > 0 then (PRoot(t.kids[0].tree, depth - 1), Freed(a, t.page))
    else (PRoot(t, depth), a)
  }

  /** What becomes the root. */
  function Rooted(r: PRemoval, depth: nat, a: Alloc): (PDb, Alloc)
    requires r != PStable(PFull)
  {
    if r.PCheck? then RootLeft(r.t, depth, a) else NewRoot(r.c, depth, a)
  }

  function DeletePagesDb(env: Env, db: PDb, k: Key, a: Alloc): (PDelete, Alloc)
    requires env.Valid()
  {
    if db.PEmpty? || Get(Bare(db.tree), k).None? then (PNotFound, a)
    else
      var (r, a') := DeletePages(env, db.tree, k, a);
      if r == PStable(PFull) then (PDelFull, a')
      else
        var (db', a'') := Rooted(r, db.depth, a');
        (PDeleted(db'), a'')
  }

  lemma RootLeftBare(t: PTree, depth: nat, a: Alloc)
    ensures BareDb(RootLeft(t, depth, a).0) == RootAfter(Bare(t), depth)
  {
    hide BareKids;
    if t.PBranch? { BareLength(t.kids); }
  }

  lemma NoKids(t: PTree)
    requires Count(Bare(t)) == 0
    ensures Pages(t) == multiset{t.page}
  {
    if t.PBranch? { BareLength(t.kids); }
  }

  lemma OneKid(p: nat, kids: seq<PKid>)
    requires |kids| == 1
    ensures Pages(PBranch(p, kids)) == multiset{p} + Pages(kids[0].tree)
    ensures Images(kids[0].tree) <= Images(PBranch(p, kids))
  {
    assert kids == [kids[0]];
    PagesOne(kids[0]);
  }

  lemma RootLeftAccounted(t: PTree, depth: nat, a: Alloc)
    ensures var (db, a') := RootLeft(t, depth, a);
            Rewritten(Pages(t), Images(t), a, DbPages(db), DbImages(db), a')
  {
    hide Accounted, Pages, Images, Bare;
    FreedAccounted(t.page, DbPages(RootLeft(t, depth, a).0), a);
    AccountedNothing(Pages(t), a);
    if Count(Bare(t)) == 0 {
      NoKids(t);
      assert multiset{t.page} + multiset{} == multiset{t.page};
    } else if t.PBranch? && |t.kids| == 1 {
      OneKid(t.page, t.kids);
    }
  }

  lemma RootedBare(r: PRemoval, depth: nat, a: Alloc)
    requires r != PStable(PFull)
    ensures match BareRemoval(r)
            case Check(t) => BareDb(Rooted(r, depth, a).0) == RootAfter(t, depth)
            case Stable(Fits(t)) => BareDb(Rooted(r, depth, a).0) == Root(t, depth)
            case Stable(Split(l, s, z)) => BareDb(Rooted(r, depth, a).0) == Root(Branch([Kid([], l), Kid(s, z)]), depth + 1)
            case Stable(Full) => false
  {
    hide Bare, RootLeft, NewRoot, RootAfter;
    if r.PCheck? { RootLeftBare(r.t, depth, a); } else { NewRootBare(r.c, depth, a); }
  }

  lemma RootedAccounted(m: multiset<nat>, was: set<Image>, a: Alloc, r: PRemoval, depth: nat, a': Alloc)
    requires r != PStable(PFull) && Rewritten(m, was, a, PagesLeft(r), ImagesLeft(r), a')
    ensures var (db, a'') := Rooted(r, depth, a');
            Rewritten(m, was, a, DbPages(db), DbImages(db), a'')
  {
    hide Rewritten, Pages, Images, RootLeft, NewRoot, DbPages, DbImages;
    if r.PCheck? {
      RootLeftAccounted(r.t, depth, a');
      var (db, a'') := RootLeft(r.t, depth, a');
      RewrittenChain(m, was, a, PagesLeft(r), ImagesLeft(r), a', DbPages(db), DbImages(db), a'');
    } else {
      NewRootAccounted(m, was, a, r.c, depth, a');
    }
  }

  /** Delete on numbered pages is delete on the tree, with the same account of pages and the same pages left alone. */
  lemma DeleteCopies(env: Env, db: PDb, k: Key, a: Alloc)
    requires env.Valid() && DbOK(env, BareDb(db))
    ensures var (r, a') := DeletePagesDb(env, db, k, a);
            && BareDelete(r) == DeleteDb(env, BareDb(db), k)
            && (r.PDeleted? ==> Rewritten(DbPages(db), DbImages(db), a, DbPages(r.db), DbImages(r.db), a'))
  {
    hide DeletePages, Delete, Rooted, RootAfter, Rewritten, Pages, Images, Bare, TreeOK, Get, PagesLeft, ImagesLeft;
    if db.PRoot? {
      LessTotal([], k);
      DeletePagesBare(env, db.tree, k, a);
      DeleteAccounted(env, db.tree, db.depth, [], None, k, a);
      var (r, a') := DeletePages(env, db.tree, k, a);
      if r != PStable(PFull) {
        RootedBare(r, db.depth, a');
        RootedAccounted(Pages(db.tree), Images(db.tree), a, r, db.depth, a');
      }
    }
  }
}
