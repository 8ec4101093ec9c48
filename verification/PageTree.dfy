/** The tree with its page numbers: which pages a put touches, copies and takes, and that it writes to none but its own.

    Pages are copied before they are written (mdb_page_touch): a page that this transaction does not own is given a
    number of its own, and the old one is freed. */
module PageTree {
  import opened Keys
  import opened SplitPoint
  import opened BTree
  import opened BTreePut

  datatype PTree = PLeaf(page: nat, ents: seq<Entry>) | PBranch(page: nat, kids: seq<PKid>)
  datatype PKid = PKid(sep: Key, tree: PTree)

  /** The tree without its page numbers. */
  function Bare(t: PTree): Tree
    decreases t, 0
  {
    match t
    case PLeaf(_, ents) => Leaf(ents)
    case PBranch(_, kids) => Branch(BareKids(kids))
  }

  function BareKids(kids: seq<PKid>): (r: seq<Kid>)
    ensures |r| == |kids| && forall i :: 0 <= i < |kids| ==> r[i] == Kid(kids[i].sep, Bare(kids[i].tree))
    decreases kids, 1
  {
    if kids == [] then [] else [Kid(kids[0].sep, Bare(kids[0].tree))] + BareKids(kids[1..])
  }

  /** The page numbers of a tree, as often as they occur. */
  function Pages(t: PTree): multiset<nat>
    decreases t, 0
  {
    match t
    case PLeaf(p, _) => multiset{p}
    case PBranch(p, kids) => multiset{p} + PagesKids(kids)
  }

  function PagesKids(kids: seq<PKid>): multiset<nat>
    decreases kids, 1
  {
    if kids == [] then multiset{} else Pages(kids[0].tree) + PagesKids(kids[1..])
  }

  /** What a page of the tree holds: entries, or separators and the numbers of child pages. */
  datatype Image = LeafImage(page: nat, ents: seq<Entry>) | BranchImage(page: nat, links: seq<Link>)
  datatype Link = Link(sep: Key, page: nat)

  function Links(kids: seq<PKid>): seq<Link> {
    seq(|kids|, i requires 0 <= i < |kids| => Link(kids[i].sep, kids[i].tree.page))
  }

  function Images(t: PTree): set<Image>
    decreases t, 0
  {
    match t
    case PLeaf(p, ents) => {LeafImage(p, ents)}
    case PBranch(p, kids) => {BranchImage(p, Links(kids))} + ImagesKids(kids)
  }

  function ImagesKids(kids: seq<PKid>): set<Image>
    decreases kids, 1
  {
    if kids == [] then {} else Images(kids[0].tree) + ImagesKids(kids[1..])
  }

  // ---- Taking and giving back pages ------------------------------------------------------------

  /** `pick` lists the pages the allocator hands out, the first `used` of which are taken; `owned` are the transaction's
      dirty pages at the start of the call and `dirty` those it has now. */
  datatype Alloc = Alloc(
    pick: nat -> nat, used: nat, owned: set<nat>, dirty: set<nat>, taken: multiset<nat>, freed: multiset<nat>,
    loose: multiset<nat>)

  function Next(a: Alloc): nat { a.pick(a.used) }

  /** A new page (mdb_page_new). */
  function Take(a: Alloc): Alloc {
    a.(used := a.used + 1, dirty := a.dirty + {Next(a)}, taken := a.taken + multiset{Next(a)})
  }

  /** The number under which a page may be written (mdb_page_touch): its own if it is dirty, otherwise that of a copy. */
  function Touched(a: Alloc, p: nat): nat { if p in a.dirty then p else Next(a) }

  function Touch(a: Alloc, p: nat): Alloc { if p in a.dirty then a else Freed(Take(a), p) }

  function Freed(a: Alloc, p: nat): Alloc { a.(freed := a.freed + multiset{p}) }

  /** A page no longer used (mdb_page_loose). */
  function Loosened(a: Alloc, p: nat): Alloc {
    if p in a.dirty then a.(loose := a.loose + multiset{p}) else Freed(a, p)
  }

  function Picks(pick: nat -> nat, n: nat): multiset<nat> {
    if n == 0 then multiset{} else Picks(pick, n - 1) + multiset{pick(n - 1)}
  }

  ghost predicate AllocOK(a: Alloc) {
    && a.taken == Picks(a.pick, a.used)
    && (forall p :: p in a.dirty <==> p in a.owned || p in a.taken)
    && forall p :: p in a.loose ==> p in a.dirty
  }

  /** Between `a` and `a'` the pages `m` became `m'`: every page is still there, given back, or newly taken, once each. */
  ghost predicate Accounted(m: multiset<nat>, a: Alloc, m': multiset<nat>, a': Alloc) {
    && a'.pick == a.pick && a'.owned == a.owned && a.dirty <= a'.dirty && (AllocOK(a) ==> AllocOK(a'))
    && forall p :: m'[p] + a'.freed[p] + a'.loose[p] + a.taken[p] == m[p] + a.freed[p] + a.loose[p] + a'.taken[p]
  }

  /** Pages hold what they held, but for the dirty ones. */
  ghost predicate Kept(was: set<Image>, dirty: set<nat>, now: set<Image>) {
    forall m :: m in now ==> m.page in dirty || m in was
  }

  lemma AccountedChain(m: multiset<nat>, a: Alloc, m': multiset<nat>, a': Alloc, m'': multiset<nat>, a'': Alloc)
    requires Accounted(m, a, m', a') && Accounted(m', a', m'', a'')
    ensures Accounted(m, a, m'', a'')
  {
    hide AllocOK;
  }

  lemma AccountedBeside(m: multiset<nat>, a: Alloc, m': multiset<nat>, a': Alloc, c: multiset<nat>)
    requires Accounted(m, a, m', a')
    ensures Accounted(m + c, a, m' + c, a')
  {
    hide AllocOK;
  }

  lemma TakeAccounted(a: Alloc)
    ensures Accounted(multiset{}, a, multiset{Next(a)}, Take(a)) && Next(a) in Take(a).dirty
  {
  }

  lemma TouchAccounted(a: Alloc, p: nat)
    ensures Accounted(multiset{p}, a, multiset{Touched(a, p)}, Touch(a, p)) && Touched(a, p) in Touch(a, p).dirty
  {
    hide Accounted, Take;
    if p in a.dirty {
      AccountedNothing(multiset{p}, a);
    } else {
      var q := multiset{Next(a)};
      TakenBeside(multiset{p}, a);
      FreedAccounted(p, q, Take(a));
      AccountedChain(multiset{p}, a, multiset{p} + q, Take(a), q, Freed(Take(a), p));
    }
  }

  lemma AccountedNothing(m: multiset<nat>, a: Alloc)
    ensures Accounted(m, a, m, a)
  {
  }

  lemma TakenBeside(m: multiset<nat>, a: Alloc)
    ensures Accounted(m, a, m + multiset{Next(a)}, Take(a)) && Next(a) in Take(a).dirty && a.dirty <= Take(a).dirty
  {
  }

  lemma FreedAccounted(p: nat, c: multiset<nat>, a: Alloc)
    ensures Accounted(multiset{p} + c, a, c, Freed(a, p)) && a.dirty == Freed(a, p).dirty
  {
  }

  lemma GivenBack(a: Alloc, p: nat)
    ensures Accounted(multiset{p}, a, multiset{}, Loosened(a, p)) && Accounted(multiset{p}, a, multiset{}, Freed(a, p))
  {
  }

  // ---- Put -------------------------------------------------------------------------------------

  datatype PChange = PFits(t: PTree) | PSplit(left: PTree, sep: Key, right: PTree) | PFull

  function BareChange(c: PChange): Change {
    match c
    case PFits(t) => Fits(Bare(t))
    case PSplit(l, s, r) => Split(Bare(l), s, Bare(r))
    case PFull => Full
  }

  function PagesOf(c: PChange): multiset<nat> {
    match c
    case PFits(t) => Pages(t)
    case PSplit(l, _, r) => Pages(l) + Pages(r)
    case PFull => multiset{}
  }

  function ImagesOf(c: PChange): set<Image> {
    match c
    case PFits(t) => Images(t)
    case PSplit(l, _, r) => Images(l) + Images(r)
    case PFull => {}
  }

  /** A leaf page `p`, already touched, with what a put made of its entries; the right half of a split is a new page. */
  function PutLeaf(p: nat, c: Change, a: Alloc): (PChange, Alloc) {
    match c
    case Fits(Leaf(ents)) => (PFits(PLeaf(p, ents)), a)
    case Split(Leaf(l), s, Leaf(r)) => (PSplit(PLeaf(p, l), s, PLeaf(Next(a), r)), Take(a))
    case _ => (PFull, a)
  }

  function SplitPage(env: Env, p: nat, kids: seq<PKid>, newindx: nat, a: Alloc): (PChange, Alloc)
    requires env.Valid() && newindx < |kids|
  {
    var xs := BranchSizes(BareKids(kids));
    if |xs| < 3 || !NodesFit(xs, env.PMax()) then (PFull, a)
    else
      var s := SplitIndex(xs, newindx, false, env.PMax());
      if s == 0 || Sum(xs[..s]) > env.PMax() || RightUsed(xs, s, false) > env.PMax() then (PFull, a)
      else (PSplit(PBranch(p, kids[..s]), kids[s].sep, PBranch(Next(a), [PKid([], kids[s].tree)] + kids[s+1..])), Take(a))
  }

  function PlacePage(env: Env, p: nat, kids: seq<PKid>, j: nat, kid: PKid, a: Alloc): (PChange, Alloc)
    requires env.Valid() && j <= |kids|
  {
    var all := kids[..j] + [kid] + kids[j..];
    if env.PMax() - BranchUsed(BareKids(kids)) < NODESIZE + |kid.sep| + SLOT then SplitPage(env, p, all, j, a)
    else (PFits(PBranch(p, all)), a)
  }

  function AfterPage(env: Env, p: nat, kids: seq<PKid>, i: nat, c: PChange, a: Alloc): (PChange, Alloc)
    requires env.Valid() && i < |kids|
  {
    match c
    case PFull => (PFull, a)
    case PFits(t) => (PFits(PBranch(p, kids[i := PKid(kids[i].sep, t)])), a)
    case PSplit(l, s, r) => PlacePage(env, p, kids[i := PKid(kids[i].sep, l)], i + 1, PKid(s, r), a)
  }

  /** Put, touching every page from the root down to the leaf. */
  function PutPages(env: Env, t: PTree, k: Key, v: seq<byte>, dirty: bool, a: Alloc): (PChange, Alloc)
    requires env.Valid()
    decreases t
  {
    var p, a' := Touched(a, t.page), Touch(a, t.page);
    match t
    case PLeaf(_, ents) => PutLeaf(p, LeafPut(env, ents, k, v, dirty), a')
    case PBranch(_, kids) =>
      if kids == [] then (PFull, a')
      else
        var i := KidIndex(BareKids(kids), k);
        var (c, a'') := PutPages(env, kids[i].tree, k, v, dirty, a');
        AfterPage(env, p, kids, i, c, a'')
  }

  // ---- It is the put of the tree without numbers -----------------------------------------------

  lemma BareAppend(a: seq<PKid>, b: seq<PKid>)
    ensures BareKids(a + b) == BareKids(a) + BareKids(b)
  {
  }

  lemma BareSlices(kids: seq<PKid>, i: nat)
    requires i <= |kids|
    ensures BareKids(kids[..i]) == BareKids(kids)[..i] && BareKids(kids[i..]) == BareKids(kids)[i..]
  {
    hide Bare;
    BareAppend(kids[..i], kids[i..]);
    assert kids == kids[..i] + kids[i..];
  }

  lemma BareOne(kid: PKid)
    ensures BareKids([kid]) == [Kid(kid.sep, Bare(kid.tree))]
  {
  }

  lemma BareUpdate(kids: seq<PKid>, i: nat, kid: PKid)
    requires i < |kids|
    ensures BareKids(kids[i := kid]) == BareKids(kids)[i := Kid(kid.sep, Bare(kid.tree))]
  {
  }

  lemma SplitPageBare(env: Env, p: nat, kids: seq<PKid>, newindx: nat, a: Alloc)
    requires env.Valid() && newindx < |kids|
    ensures BareChange(SplitPage(env, p, kids, newindx, a).0) == SplitBranch(env, BareKids(kids), newindx)
  {
    hide Sum, SplitIndex, RightUsed, NodesFit, BranchSizes, BareKids;
    var xs := BranchSizes(BareKids(kids));
    BareLength(kids);
    if |xs| >= 3 && NodesFit(xs, env.PMax()) {
      var s := SplitIndex(xs, newindx, false, env.PMax());
      BareSlices(kids, s);
      BareSlices(kids, s + 1);
      BareOne(PKid([], kids[s].tree));
      BareAppend([PKid([], kids[s].tree)], kids[s+1..]);
    }
  }

  lemma BareLength(kids: seq<PKid>)
    ensures |BareKids(kids)| == |kids| == |BranchSizes(BareKids(kids))|
    ensures forall i :: 0 <= i < |kids| ==> BareKids(kids)[i] == Kid(kids[i].sep, Bare(kids[i].tree))
  {
  }

  lemma PlacePageBare(env: Env, p: nat, kids: seq<PKid>, j: nat, kid: PKid, a: Alloc)
    requires env.Valid() && j <= |kids|
    ensures |BareKids(kids)| == |kids|
    ensures BareChange(PlacePage(env, p, kids, j, kid, a).0) == PlaceKid(env, BareKids(kids), j, kid.sep, Bare(kid.tree))
  {
    hide SplitBranch, SplitPage, BranchUsed, BareKids;
    var all := kids[..j] + [kid] + kids[j..];
    BareLength(kids);
    BareSlices(kids, j);
    BareOne(kid);
    BareAppend(kids[..j], [kid]);
    BareAppend(kids[..j] + [kid], kids[j..]);
    SplitPageBare(env, p, all, j, a);
  }

  lemma AfterPageBare(env: Env, p: nat, kids: seq<PKid>, i: nat, c: PChange, a: Alloc)
    requires env.Valid() && i < |kids|
    ensures |BareKids(kids)| == |kids|
    ensures BareChange(AfterPage(env, p, kids, i, c, a).0) == AfterChild(env, BareKids(kids), i, BareChange(c))
  {
    hide PlacePage, PlaceKid, BareKids;
    BareLength(kids);
    match c
    case PFull =>
    case PFits(t) => BareUpdate(kids, i, PKid(kids[i].sep, t));
    case PSplit(l, s, r) =>
      BareUpdate(kids, i, PKid(kids[i].sep, l));
      PlacePageBare(env, p, kids[i := PKid(kids[i].sep, l)], i + 1, PKid(s, r), a);
  }

  lemma LeafPutIsLeaf(env: Env, ents: seq<Entry>, k: Key, v: seq<byte>, dirty: bool)
    requires env.Valid()
    ensures match LeafPut(env, ents, k, v, dirty)
            case Fits(t) => t.Leaf?
            case Split(l, _, r) => l.Leaf? && r.Leaf?
            case Full => true
  {
    hide Sum, SplitIndex, RightUsed, Pos;
  }

  /** Without its page numbers, a put is the put of the tree. */
  lemma {:induction false} PutPagesBare(env: Env, t: PTree, k: Key, v: seq<byte>, dirty: bool, a: Alloc)
    requires env.Valid()
    ensures BareChange(PutPages(env, t, k, v, dirty, a).0) == Put(env, Bare(t), k, v, dirty)
    decreases t
  {
    hide AfterPage, AfterChild, LeafPut, Touch;
    match t
    case PLeaf(_, ents) => LeafPutIsLeaf(env, ents, k, v, dirty);
    case PBranch(_, kids) =>
      BareLength(kids);
      if kids != [] {
        var p, a' := Touched(a, t.page), Touch(a, t.page);
        var i := KidIndex(BareKids(kids), k);
        PutPagesBare(env, kids[i].tree, k, v, dirty, a');
        var (c, a'') := PutPages(env, kids[i].tree, k, v, dirty, a');
        AfterPageBare(env, p, kids, i, c, a'');
      }
  }

  // ---- Where its pages come from and go --------------------------------------------------------

  /** A page `p` of children became what `new` counts and shows. */
  ghost predicate Rewritten(m: multiset<nat>, was: set<Image>, a: Alloc, m': multiset<nat>, now: set<Image>, a': Alloc) {
    Accounted(m, a, m', a') && Kept(was, a'.dirty, now)
  }

  lemma {:induction false} PagesAppend(a: seq<PKid>, b: seq<PKid>)
    ensures PagesKids(a + b) == PagesKids(a) + PagesKids(b)
    ensures ImagesKids(a + b) == ImagesKids(a) + ImagesKids(b)
  {
    if a == [] {
      assert a + b == b;
    } else {
      assert (a + b)[1..] == a[1..] + b;
      PagesAppend(a[1..], b);
    }
  }

  lemma PagesOne(kid: PKid)
    ensures PagesKids([kid]) == Pages(kid.tree) && ImagesKids([kid]) == Images(kid.tree)
  {
    assert [kid][1..] == [];
  }

  /** Around child `i`. */
  lemma PagesAround(kids: seq<PKid>, i: nat, kid: PKid)
    requires i < |kids|
    ensures PagesKids(kids[i := kid]) == PagesKids(kids[..i]) + Pages(kid.tree) + PagesKids(kids[i+1..])
    ensures ImagesKids(kids[i := kid]) == ImagesKids(kids[..i]) + Images(kid.tree) + ImagesKids(kids[i+1..])
  {
    hide PagesKids, ImagesKids, Pages, Images;
    assert kids[i := kid] == kids[..i] + [kid] + kids[i+1..];
    PagesAppend(kids[..i] + [kid], kids[i+1..]);
    PagesAppend(kids[..i], [kid]);
    PagesOne(kid);
  }

  lemma PagesInserted(kids: seq<PKid>, j: nat, kid: PKid)
    requires j <= |kids|
    ensures PagesKids(kids[..j] + [kid] + kids[j..]) == PagesKids(kids) + Pages(kid.tree)
    ensures ImagesKids(kids[..j] + [kid] + kids[j..]) == ImagesKids(kids) + Images(kid.tree)
  {
    hide PagesKids, ImagesKids, Pages, Images;
    assert kids == kids[..j] + kids[j..];
    PagesAppend(kids[..j], kids[j..]);
    PagesAppend(kids[..j] + [kid], kids[j..]);
    PagesAppend(kids[..j], [kid]);
    PagesOne(kid);
  }

  /** Cutting a page in two; the separator of the right page's slot 0 is no matter. */
  lemma PagesCut(kids: seq<PKid>, s: nat)
    requires s < |kids|
    ensures var right := [PKid([], kids[s].tree)] + kids[s+1..];
            && PagesKids(kids[..s]) + PagesKids(right) == PagesKids(kids)
            && ImagesKids(kids[..s]) + ImagesKids(right) == ImagesKids(kids)
  {
    hide PagesKids, ImagesKids, Pages, Images;
    assert kids == kids[..s] + ([kids[s]] + kids[s+1..]);
    PagesAppend(kids[..s], [kids[s]] + kids[s+1..]);
    PagesAppend([kids[s]], kids[s+1..]);
    PagesAppend([PKid([], kids[s].tree)], kids[s+1..]);
    PagesOne(kids[s]);
    PagesOne(PKid([], kids[s].tree));
  }

  lemma CutPages(p: nat, kids: seq<PKid>, s: nat, q: nat)
    requires s < |kids|
    ensures var c := PSplit(PBranch(p, kids[..s]), kids[s].sep, PBranch(q, [PKid([], kids[s].tree)] + kids[s+1..]));
            && PagesOf(c) == multiset{p} + PagesKids(kids) + multiset{q}
            && forall m :: m in ImagesOf(c) ==> m.page == p || m.page == q || m in ImagesKids(kids)
  {
    hide PagesKids, ImagesKids;
    PagesCut(kids, s);
  }

  lemma CutAccounted(p: nat, kids: seq<PKid>, s: nat, a: Alloc)
    requires s < |kids| && p in a.dirty
    ensures var c := PSplit(PBranch(p, kids[..s]), kids[s].sep, PBranch(Next(a), [PKid([], kids[s].tree)] + kids[s+1..]));
            Rewritten(multiset{p} + PagesKids(kids), ImagesKids(kids), a, PagesOf(c), ImagesOf(c), Take(a))
  {
    hide PagesOf, ImagesOf, PagesKids, ImagesKids, Accounted, Take;
    CutPages(p, kids, s, Next(a));
    TakenBeside(multiset{p} + PagesKids(kids), a);
  }

  /** A dirty page whose children are the given ones, cut in two. */
  lemma SplitPageAccounted(env: Env, p: nat, kids: seq<PKid>, newindx: nat, a: Alloc)
    requires env.Valid() && newindx < |kids| && p in a.dirty
    ensures var (c, a') := SplitPage(env, p, kids, newindx, a);
            !c.PFull? ==> Rewritten(multiset{p} + PagesKids(kids), ImagesKids(kids), a, PagesOf(c), ImagesOf(c), a')
  {
    hide Sum, SplitIndex, RightUsed, NodesFit, BranchSizes, BareKids, Rewritten, PagesKids, ImagesKids, PagesOf,
         ImagesOf, Take;
    var xs := BranchSizes(BareKids(kids));
    BareLength(kids);
    if |xs| >= 3 && NodesFit(xs, env.PMax()) {
      CutAccounted(p, kids, SplitIndex(xs, newindx, false, env.PMax()), a);
    }
  }

  lemma PlacePageAccounted(env: Env, p: nat, kids: seq<PKid>, j: nat, kid: PKid, a: Alloc)
    requires env.Valid() && j <= |kids| && p in a.dirty
    ensures var (c, a') := PlacePage(env, p, kids, j, kid, a);
            !c.PFull? ==> Rewritten(multiset{p} + PagesKids(kids) + Pages(kid.tree), ImagesKids(kids) + Images(kid.tree), a,
                                    PagesOf(c), ImagesOf(c), a')
  {
    hide SplitPage, BranchUsed, BareKids, PagesKids, ImagesKids, Accounted;
    var all := kids[..j] + [kid] + kids[j..];
    PagesInserted(kids, j, kid);
    SplitPageAccounted(env, p, all, j, a);
    AccountedNothing(multiset{p} + PagesKids(all), a);
    assert multiset{p} + PagesKids(kids) + Pages(kid.tree) == multiset{p} + PagesKids(all);
  }

  /** A touched page `p` with a changed child. */
  lemma AfterPageAccounted(env: Env, p: nat, kids: seq<PKid>, i: nat, c: PChange, a: Alloc)
    requires env.Valid() && i < |kids| && p in a.dirty && !c.PFull?
    ensures var (c', a') := AfterPage(env, p, kids, i, c, a);
            !c'.PFull? ==>
              Rewritten(multiset{p} + PagesKids(kids[..i]) + PagesOf(c) + PagesKids(kids[i+1..]),
                        ImagesKids(kids[..i]) + ImagesOf(c) + ImagesKids(kids[i+1..]), a, PagesOf(c'), ImagesOf(c'), a')
  {
    hide PlacePage, PagesKids, ImagesKids, Accounted;
    match c
    case PFits(t) =>
      PagesAround(kids, i, PKid(kids[i].sep, t));
      var m := multiset{p} + PagesKids(kids[..i]) + PagesOf(c) + PagesKids(kids[i+1..]);
      assert m == multiset{p} + PagesKids(kids[i := PKid(kids[i].sep, t)]);
      AccountedNothing(m, a);
    case PSplit(l, s, r) =>
      var kids' := kids[i := PKid(kids[i].sep, l)];
      PagesAround(kids, i, PKid(kids[i].sep, l));
      PlacePageAccounted(env, p, kids', i + 1, PKid(s, r), a);
      assert multiset{p} + PagesKids(kids[..i]) + PagesOf(c) + PagesKids(kids[i+1..])
             == multiset{p} + PagesKids(kids') + Pages(r);
  }

  /** The touched page together with a changed child. */
  lemma PathAccounted(q: nat, p: nat, low: multiset<nat>, m: multiset<nat>, m': multiset<nat>, high: multiset<nat>,
                      a: Alloc, a': Alloc, a'': Alloc)
    requires Accounted(multiset{q}, a, multiset{p}, a') && Accounted(m, a', m', a'')
    ensures Accounted(multiset{q} + low + m + high, a, multiset{p} + low + m' + high, a'')
  {
    hide AllocOK;
  }

  lemma KeptThrough(low: set<Image>, mid: set<Image>, mid': set<Image>, high: set<Image>, now: set<Image>, d: set<nat>,
                    d': set<nat>)
    requires Kept(mid, d, mid') && Kept(low + mid' + high, d', now) && d <= d'
    ensures Kept(low + mid + high, d', now)
  {
  }

  lemma KeptWider(was: set<Image>, wide: set<Image>, d: set<nat>, now: set<Image>)
    requires Kept(was, d, now) && was <= wide
    ensures Kept(wide, d, now)
  {
  }

  lemma BranchParts(p: nat, kids: seq<PKid>, i: nat)
    requires i < |kids|
    ensures var low, high, child := kids[..i], kids[i+1..], kids[i].tree;
            && Pages(PBranch(p, kids)) == multiset{p} + PagesKids(low) + Pages(child) + PagesKids(high)
            && ImagesKids(low) + Images(child) + ImagesKids(high) <= Images(PBranch(p, kids))
  {
    hide PagesKids, ImagesKids;
    PagesAround(kids, i, kids[i]);
    assert kids[i := kids[i]] == kids;
  }

  lemma GrownDirty(m: multiset<nat>, a: Alloc, m': multiset<nat>, a': Alloc)
    requires Accounted(m, a, m', a')
    ensures a.dirty <= a'.dirty
  {
  }

  /** From a changed child to the changed page above it. */
  lemma ChildAccounted(env: Env, q: nat, p: nat, kids: seq<PKid>, i: nat, c: PChange, a: Alloc, a': Alloc, a'': Alloc)
    requires env.Valid() && i < |kids| && p in a'.dirty && Accounted(multiset{q}, a, multiset{p}, a')
    requires !c.PFull? && Rewritten(Pages(kids[i].tree), Images(kids[i].tree), a', PagesOf(c), ImagesOf(c), a'')
    ensures var t := PBranch(q, kids); var (c', a3) := AfterPage(env, p, kids, i, c, a'');
            !c'.PFull? ==> Rewritten(Pages(t), Images(t), a, PagesOf(c'), ImagesOf(c'), a3)
  {
    hide AfterPage, PagesKids, ImagesKids, Accounted, Kept, Pages, Images, PagesOf, ImagesOf;
    var low, high, child := kids[..i], kids[i+1..], kids[i].tree;
    var t := PBranch(q, kids);
    var (c', a3) := AfterPage(env, p, kids, i, c, a'');
    GrownDirty(Pages(child), a', PagesOf(c), a'');
    AfterPageAccounted(env, p, kids, i, c, a'');
    BranchParts(q, kids, i);
    if !c'.PFull? {
      PathAccounted(q, p, PagesKids(low), Pages(child), PagesOf(c), PagesKids(high), a, a', a'');
      var m := multiset{p} + PagesKids(low) + PagesOf(c) + PagesKids(high);
      AccountedChain(Pages(t), a, m, a'', PagesOf(c'), a3);
      GrownDirty(m, a'', PagesOf(c'), a3);
      KeptThrough(ImagesKids(low), Images(child), ImagesOf(c), ImagesKids(high), ImagesOf(c'), a''.dirty, a3.dirty);
      KeptWider(ImagesKids(low) + Images(child) + ImagesKids(high), Images(t), a3.dirty, ImagesOf(c'));
    }
  }

  /** A put accounts for every page of the subtree, and leaves every page alone that is not its own. */
  lemma {:induction false} PutAccounted(env: Env, t: PTree, k: Key, v: seq<byte>, dirty: bool, a: Alloc)
    requires env.Valid()
    ensures var (c, a') := PutPages(env, t, k, v, dirty, a);
            !c.PFull? ==> Rewritten(Pages(t), Images(t), a, PagesOf(c), ImagesOf(c), a')
    decreases t
  {
    hide PlacePage, PutLeaf, LeafPut, PagesKids, ImagesKids, Touch, Touched, Rewritten, Pages, Images, BareKids,
         Accounted, AllocOK;
    var p, a' := Touched(a, t.page), Touch(a, t.page);
    TouchAccounted(a, t.page);
    match t
    case PLeaf(_, ents) => PutLeafAccounted(t.page, p, ents, LeafPut(env, ents, k, v, dirty), a, a');
    case PBranch(_, kids) =>
      BareLength(kids);
      if kids != [] {
        var i := KidIndex(BareKids(kids), k);
        PutAccounted(env, kids[i].tree, k, v, dirty, a');
        var (c, a'') := PutPages(env, kids[i].tree, k, v, dirty, a');
        if !c.PFull? { ChildAccounted(env, t.page, p, kids, i, c, a, a', a''); }
      }
  }

  lemma PutLeafAccounted(q: nat, p: nat, ents: seq<Entry>, c: Change, a: Alloc, a': Alloc)
    requires Accounted(multiset{q}, a, multiset{p}, a') && p in a'.dirty
    ensures var t := PLeaf(q, ents); var (c', a'') := PutLeaf(p, c, a');
            !c'.PFull? ==> Rewritten(Pages(t), Images(t), a, PagesOf(c'), ImagesOf(c'), a'')
  {
    hide Accounted, Take, Rewritten, Pages, Images, PagesOf, ImagesOf;
    match c
    case Fits(Leaf(l)) => OneLeafAccounted(q, p, ents, l, a, a');
    case Split(Leaf(l), s, Leaf(r)) => TwoLeavesAccounted(q, p, ents, l, s, r, a, a');
    case _ =>
  }

  lemma OneLeafAccounted(q: nat, p: nat, ents: seq<Entry>, l: seq<Entry>, a: Alloc, a': Alloc)
    requires Accounted(multiset{q}, a, multiset{p}, a') && p in a'.dirty
    ensures var t, c := PLeaf(q, ents), PFits(PLeaf(p, l)); Rewritten(Pages(t), Images(t), a, PagesOf(c), ImagesOf(c), a')
  {
    hide Accounted;
  }

  lemma TwoLeavesAccounted(q: nat, p: nat, ents: seq<Entry>, l: seq<Entry>, s: Key, r: seq<Entry>, a: Alloc, a': Alloc)
    requires Accounted(multiset{q}, a, multiset{p}, a') && p in a'.dirty
    ensures var t, c := PLeaf(q, ents), PSplit(PLeaf(p, l), s, PLeaf(Next(a'), r));
            Rewritten(Pages(t), Images(t), a, PagesOf(c), ImagesOf(c), Take(a'))
  {
    hide Accounted, Take, PagesOf, ImagesOf;
    TakenBeside(multiset{p}, a');
    AccountedChain(multiset{q}, a, multiset{p}, a', multiset{p} + multiset{Next(a')}, Take(a'));
    TwoLeaves(p, l, s, Next(a'), r);
  }

  lemma TwoLeaves(p: nat, l: seq<Entry>, s: Key, q: nat, r: seq<Entry>)
    ensures var c := PSplit(PLeaf(p, l), s, PLeaf(q, r));
            PagesOf(c) == multiset{p} + multiset{q} && ImagesOf(c) == {LeafImage(p, l), LeafImage(q, r)}
  {
  }

  // ---- The database ----------------------------------------------------------------------------

  datatype PDb = PEmpty | PRoot(tree: PTree, depth: nat)

  function BareDb(db: PDb): Db { if db.PEmpty? then Empty else Root(Bare(db.tree), db.depth) }

  function DbPages(db: PDb): multiset<nat> { if db.PEmpty? then multiset{} else Pages(db.tree) }

  function DbImages(db: PDb): set<Image> { if db.PEmpty? then {} else Images(db.tree) }

  datatype PPut = POk(db: PDb) | PBad | PRefused

  function BarePut(r: PPut): PutResult {
    match r
    case POk(db) => Ok(BareDb(db))
    case PBad => BadValSize
    case PRefused => PageFull
  }

  /** A root that was cut in two gets a new page above it. */
  function NewRoot(c: PChange, depth: nat, a: Alloc): (PDb, Alloc)
    requires !c.PFull?
  {
    match c
    case PFits(t) => (PRoot(t, depth), a)
    case PSplit(l, s, r) => (PRoot(PBranch(Next(a), [PKid([], l), PKid(s, r)]), depth + 1), Take(a))
  }

  function PutPagesDb(env: Env, db: PDb, k: Key, v: seq<byte>, dirty: bool, a: Alloc): (PPut, Alloc)
    requires env.Valid()
  {
    if !KeyOK(k) then (PBad, a)
    else if db.PEmpty? then (POk(PRoot(PLeaf(Next(a), [NewEntry(env, k, v)]), 0)), Take(a))
    else
      var (c, a') := PutPages(env, db.tree, k, v, dirty, a);
      if c.PFull? then (PRefused, a')
      else
        var (db', a'') := NewRoot(c, db.depth, a');
        (POk(db'), a'')
  }

  lemma TwoKids(l: PTree, s: Key, r: PTree)
    ensures var kids := [PKid([], l), PKid(s, r)];
            && BareKids(kids) == [Kid([], Bare(l)), Kid(s, Bare(r))]
            && PagesKids(kids) == Pages(l) + Pages(r) && ImagesKids(kids) == Images(l) + Images(r)
  {
    hide Bare, BareKids, Pages, Images, PagesKids, ImagesKids;
    var k, k' := PKid([], l), PKid(s, r);
    assert [k] + [k'] == [k, k'];
    BareAppend([k], [k']);
    BareOne(k);
    BareOne(k');
    PagesAppend([k], [k']);
    PagesOne(k);
    PagesOne(k');
  }

  lemma NewRootAccounted(m: multiset<nat>, was: set<Image>, a: Alloc, c: PChange, depth: nat, a': Alloc)
    requires !c.PFull? && Rewritten(m, was, a, PagesOf(c), ImagesOf(c), a')
    ensures var (db, a'') := NewRoot(c, depth, a');
            Rewritten(m, was, a, DbPages(db), DbImages(db), a'')
  {
    hide Take, Accounted, PagesKids, ImagesKids;
    match c
    case PFits(t) =>
    case PSplit(l, s, r) =>
      TwoKids(l, s, r);
      TakenBeside(PagesOf(c), a');
      AccountedChain(m, a, PagesOf(c), a', PagesOf(c) + multiset{Next(a')}, Take(a'));
      var root := PBranch(Next(a'), [PKid([], l), PKid(s, r)]);
      assert Pages(root) == PagesOf(c) + multiset{Next(a')};
      assert Images(root) == {BranchImage(root.page, Links(root.kids))} + ImagesOf(c);
  }

  lemma NewRootBare(c: PChange, depth: nat, a: Alloc)
    requires !c.PFull?
    ensures BareDb(NewRoot(c, depth, a).0) ==
            match BareChange(c)
            case Fits(t) => Root(t, depth)
            case Split(l, s, r) => Root(Branch([Kid([], l), Kid(s, r)]), depth + 1)
            case Full => Empty
  {
    if c.PSplit? { TwoKids(c.left, c.sep, c.right); }
  }

  /** Put on numbered pages is put on the tree; every page of the result is one of the tree's that was not given back, or
      a newly taken one, once each; and pages that the transaction does not own are not written. */
  lemma PutCopies(env: Env, db: PDb, k: Key, v: seq<byte>, dirty: bool, a: Alloc)
    requires env.Valid()
    ensures var (r, a') := PutPagesDb(env, db, k, v, dirty, a);
            && BarePut(r) == PutDb(env, BareDb(db), k, v, dirty)
            && (r.POk? ==> Rewritten(DbPages(db), DbImages(db), a, DbPages(r.db), DbImages(r.db), a'))
  {
    hide PutPages, Put, NewRoot, Rewritten, Pages, Images, Bare;
    if db.PRoot? {
      PutPagesBare(env, db.tree, k, v, dirty, a);
      PutAccounted(env, db.tree, k, v, dirty, a);
      var (c, a') := PutPages(env, db.tree, k, v, dirty, a);
      if !c.PFull? {
        NewRootBare(c, db.depth, a');
        if KeyOK(k) { NewRootAccounted(Pages(db.tree), Images(db.tree), a, c, db.depth, a'); }
      }
    } else {
      FirstPage(env, k, v, a);
    }
  }

  lemma FirstPage(env: Env, k: Key, v: seq<byte>, a: Alloc)
    requires env.Valid()
    ensures var db := PRoot(PLeaf(Next(a), [NewEntry(env, k, v)]), 0);
            BareDb(db) == Root(Leaf([NewEntry(env, k, v)]), 0)
            && Rewritten(multiset{}, {}, a, DbPages(db), DbImages(db), Take(a))
  {
    hide Accounted, NewEntry;
    TakeAccounted(a);
  }
}
