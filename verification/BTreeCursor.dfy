/** Cursors over a plain database: the page stack, node search, positioning and stepping. */
module BTreeCursor {
  import opened Keys
  import opened BTree
  import opened BTreePut
  import opened BTreeDelete

  // ---- Search on one page ------------------------------------------------------------------

  predicate Ascending(keys: seq<Key>, low: nat) {
    forall i, j :: low <= i < j < |keys| ==> Less(keys[i], keys[j])
  }

  /** Node search (mdb_node_search): the key of slot 0 of a branch page is never compared. */
  method NodeSearch(keys: seq<Key>, leaf: bool, k: Key) returns (i: nat, exact: bool)
    requires Ascending(keys, if leaf then 0 else 1)
    ensures var lowest := if leaf then 0 else 1;
            && i <= |keys| && (|keys| > lowest ==> i >= lowest)
            && (forall j :: lowest <= j < i ==> Less(keys[j], k))
            && (forall j :: lowest <= j && i <= j < |keys| ==> AtMost(k, keys[j]))
            && (|keys| > lowest ==> (exact <==> i < |keys| && keys[i] == k))
            && (|keys| <= lowest ==> i == 0 && (exact <==> |keys| > 0))
  {
    hide Less;
    var lowest := if leaf then 0 else 1;
    var low: int, high: int, at: int, rc: int := lowest, |keys| - 1, 0, 0;
    while low <= high
      invariant lowest <= low && high < |keys| && (low <= high + 1 || |keys| < lowest) && (low <= |keys| || low == lowest)
      invariant forall j :: lowest <= j < low ==> Less(keys[j], k)
      invariant forall j :: high < j < |keys| && lowest <= j ==> Less(k, keys[j])
      invariant if |keys| > lowest && low == lowest && high == |keys| - 1 then rc == 0 else
                |keys| <= lowest || (rc > 0 && at == low - 1) || (rc < 0 && at == high + 1)
      invariant |keys| <= lowest ==> rc == 0 && at == 0
    {
      at := (low + high) / 2;
      rc := CompareKeys(k, keys[at]);
      if rc == 0 {
        break;
      }
      Sides(keys, lowest, at, k);
      if rc > 0 {
        low := at + 1;
      } else {
        high := at - 1;
      }
    }
    if rc == 0 && |keys| > lowest {
      Sides(keys, lowest, at, k);
    } else if |keys| > lowest {
      LessIrreflexive(k);
    }
    if rc > 0 {
      at := at + 1;
    }
    i, exact := at, rc == 0 && |keys| > 0;
  }

  lemma Sides(keys: seq<Key>, low: nat, m: nat, k: Key)
    requires low <= m < |keys| && Ascending(keys, low)
    ensures AtMost(keys[m], k) ==> forall j :: low <= j < m ==> Less(keys[j], k)
    ensures AtMost(k, keys[m]) ==> forall j :: m < j < |keys| ==> Less(k, keys[j])
  {
    if AtMost(keys[m], k) {
      forall j | low <= j < m ensures Less(keys[j], k) {
        if keys[m] != k { LessTransitive(keys[j], keys[m], k); }
      }
    }
    if AtMost(k, keys[m]) {
      forall j | m < j < |keys| ensures Less(k, keys[j]) {
        if keys[m] != k { LessTransitive(k, keys[m], keys[j]); }
      }
    }
  }

  /** Following the found node, or the one before it when the key is not there, leads to the child for the key. */
  lemma FollowedChild(kids: seq<Kid>, k: Key, i: nat, exact: bool)
    requires |kids| >= 2 && Ascending(Seps(kids), 1)
    requires 1 <= i <= |kids|
    requires forall j :: 1 <= j < i ==> Less(kids[j].sep, k)
    requires i < |kids| ==> AtMost(k, kids[i].sep) && (exact <==> kids[i].sep == k)
    requires i == |kids| ==> !exact
    ensures KidIndex(kids, k) == if exact then i else i - 1
  {
    hide Less;
    LessIrreflexive(k);
    forall j | 1 <= j <= i && (exact || j < i) ensures !Less(k, kids[j].sep) {
      if j < i { LessAsymmetric(kids[j].sep, k); }
    }
    if exact && i + 1 < |kids| { assert Less(Seps(kids)[i], Seps(kids)[i+1]); }
    KidIndexUnique(kids, k, if exact then i else i - 1);
  }

  lemma {:induction false} KidIndexUnique(kids: seq<Kid>, k: Key, c: nat)
    requires c < |kids|
    requires forall j :: 1 <= j <= c ==> !Less(k, kids[j].sep)
    requires c + 1 < |kids| ==> Less(k, kids[c+1].sep)
    ensures KidIndex(kids, k) == c
  {
    if c > 0 { KidIndexUnique(kids[1..], k, c - 1); }
  }

  method ChildIndex(kids: seq<Kid>, k: Key) returns (c: nat)
    requires |kids| >= 2 && Ascending(Seps(kids), 1)
    ensures c == KidIndex(kids, k)
  {
    var i, exact := NodeSearch(Seps(kids), false, k);
    FollowedChild(kids, k, i, exact);
    c := if i >= |kids| then |kids| - 1 else if exact then i else i - 1;
  }

  function Seps(kids: seq<Kid>): (keys: seq<Key>)
    ensures |keys| == |kids| && forall i :: 0 <= i < |kids| ==> keys[i] == kids[i].sep
  {
    seq(|kids|, i requires 0 <= i < |kids| => kids[i].sep)
  }

  function EntryKeys(ents: seq<Entry>): (keys: seq<Key>)
    ensures |keys| == |ents| && forall i :: 0 <= i < |ents| ==> keys[i] == ents[i].key
  {
    seq(|ents|, i requires 0 <= i < |ents| => ents[i].key)
  }

  /** On a well-formed branch page the separators after slot 0 ascend. */
  lemma {:induction false} SepsAscend(env: Env, kids: seq<Kid>, h: nat, lo: Key, hi: Option<Key>)
    requires env.Valid() && kids != [] && KidsOK(env, kids, h, lo, hi)
    ensures Ascending(Seps(kids), 1)
    ensures |kids| > 1 ==> Less(lo, kids[1].sep)
    decreases |kids|
  {
    if |kids| > 1 {
      var rest := kids[1..];
      SepsAscend(env, rest, h, kids[1].sep, hi);
      TreeContents(env, kids[0].tree, h, lo, Some(kids[1].sep));
      var first := Flatten(kids[0].tree)[0].key;
      if lo != first { LessTransitive(lo, first, kids[1].sep); }
      forall i, j | 1 <= i < j < |kids| ensures Less(kids[i].sep, kids[j].sep) {
        assert kids[i] == rest[i-1] && kids[j] == rest[j-1];
        if i == 1 {
          if j > 2 {
            assert Less(Seps(rest)[1], Seps(rest)[j-1]);
            LessTransitive(kids[1].sep, kids[2].sep, kids[j].sep);
          }
        } else {
          assert Less(Seps(rest)[i-1], Seps(rest)[j-1]);
        }
      }
    }
  }

  // ---- The page stack ----------------------------------------------------------------------

  function Size(t: Tree): nat { |Flatten(t)| }

  /** A page of height `h` with an entry on every leaf below it. */
  predicate Shaped(t: Tree, h: nat)
    decreases h, 0, 0
  {
    match t
    case Leaf(ents) => h == 0 && ents != []
    case Branch(kids) => h > 0 && kids != [] && ShapedKids(kids, h - 1)
  }

  predicate ShapedKids(kids: seq<Kid>, h: nat)
    decreases h, 1, |kids|
  {
    kids == [] || (Shaped(kids[0].tree, h) && ShapedKids(kids[1..], h))
  }

  lemma {:induction false} TreeShaped(env: Env, t: Tree, h: nat, lo: Key, hi: Option<Key>)
    requires env.Valid() && TreeOK(env, t, h, lo, hi)
    ensures Shaped(t, h)
    decreases h, 0, 0
  {
    if t.Branch? { KidsShaped(env, t.kids, h - 1, lo, hi); }
  }

  lemma {:induction false} KidsShaped(env: Env, kids: seq<Kid>, h: nat, lo: Key, hi: Option<Key>)
    requires env.Valid() && kids != [] && KidsOK(env, kids, h, lo, hi)
    ensures ShapedKids(kids, h)
    decreases h, 1, |kids|
  {
    TreeShaped(env, kids[0].tree, h, lo, if |kids| == 1 then hi else Some(kids[1].sep));
    if |kids| > 1 { KidsShaped(env, kids[1..], h, kids[1].sep, hi); }
  }

  lemma {:induction false} ShapedKid(kids: seq<Kid>, h: nat, i: nat)
    requires ShapedKids(kids, h) && i < |kids|
    ensures Shaped(kids[i].tree, h)
  {
    if i > 0 { ShapedKid(kids[1..], h, i - 1); }
  }

  /** Each page of the stack is the child of the page below it that the index below it names. */
  predicate Stacked(root: Tree, depth: nat, pg: seq<Tree>, ki: seq<nat>)
    decreases |pg|
  {
    var n := |pg|;
    && 1 <= n <= depth + 1 && |ki| == n && Shaped(pg[n-1], depth + 1 - n)
    && if n == 1 then pg[0] == root else
         && pg[n-2].Branch? && ki[n-2] < |pg[n-2].kids| && pg[n-1] == pg[n-2].kids[ki[n-2]].tree
         && Stacked(root, depth, pg[..n-1], ki[..n-1])
  }

  /** Entries before the first one of the top page. */
  function Before(pg: seq<Tree>, ki: seq<nat>): nat
    requires |pg| == |ki|
    decreases |pg|
  {
    var n := |pg|;
    if n <= 1 then 0 else
      Before(pg[..n-1], ki[..n-1])
      + (if pg[n-2].Branch? && ki[n-2] <= |pg[n-2].kids| then |FlattenKids(pg[n-2].kids[..ki[n-2]])| else 0)
  }

  lemma TopIndexFree(root: Tree, depth: nat, pg: seq<Tree>, ki: seq<nat>, i: nat)
    requires Stacked(root, depth, pg, ki)
    ensures var ki' := ki[|pg|-1 := i];
            Stacked(root, depth, pg, ki') && Before(pg, ki') == Before(pg, ki)
  {
    var n := |pg|;
    var ki' := ki[n-1 := i];
    assert n > 1 ==> ki'[n-2] == ki[n-2] && ki'[..n-1] == ki[..n-1];
  }

  lemma Pushed(root: Tree, depth: nat, pg: seq<Tree>, ki: seq<nat>, i: nat)
    requires Stacked(root, depth, pg, ki)
    requires var top := pg[|pg|-1]; top.Branch? && ki[|pg|-1] < |top.kids|
    ensures var top := pg[|pg|-1]; var c := ki[|pg|-1];
            var pg', ki' := pg + [top.kids[c].tree], ki + [i];
            && Stacked(root, depth, pg', ki')
            && Before(pg', ki') == Before(pg, ki) + |FlattenKids(top.kids[..c])|
            && Size(top) >= |FlattenKids(top.kids[..c])| + Size(top.kids[c].tree)
            && (c + 1 == |top.kids| ==> Size(top) == |FlattenKids(top.kids[..c])| + Size(top.kids[c].tree))
  {
    var n := |pg|;
    var top, c := pg[n-1], ki[n-1];
    var pg', ki' := pg + [top.kids[c].tree], ki + [i];
    assert pg'[..n] == pg && ki'[..n] == ki;
    ShapedKid(top.kids, depth - n, c);
    FlattenLast(top.kids, c + 1);
    assert top.kids == top.kids[..c+1] + top.kids[c+1..];
    FlattenAppend(top.kids[..c+1], top.kids[c+1..]);
  }

  /** The entries of the top page are a stretch of the whole tree's. */
  lemma {:induction false} Window(root: Tree, depth: nat, pg: seq<Tree>, ki: seq<nat>)
    requires Stacked(root, depth, pg, ki)
    ensures var b := Before(pg, ki); var top := Flatten(pg[|pg|-1]);
            b + |top| <= Size(root) && Flatten(root)[b..b + |top|] == top
    decreases |pg|
  {
    var n := |pg|;
    if n > 1 {
      var kids, c := pg[n-2].kids, ki[n-2];
      Window(root, depth, pg[..n-1], ki[..n-1]);
      assert kids == kids[..c] + [kids[c]] + kids[c+1..];
      FlattenAppend(kids[..c] + [kids[c]], kids[c+1..]);
      FlattenAppend(kids[..c], [kids[c]]);
      FlattenKidsOne(kids[c]);
      Nested(Flatten(root), Before(pg[..n-1], ki[..n-1]), FlattenKids(kids[..c]), Flatten(pg[n-1]), FlattenKids(kids[c+1..]));
    }
  }

  lemma Nested<T>(whole: seq<T>, b: nat, x: seq<T>, y: seq<T>, z: seq<T>)
    requires b + |x + y + z| <= |whole| && whole[b..b + |x + y + z|] == x + y + z
    ensures whole[b + |x|..b + |x| + |y|] == y
  {
    var s := whole[b..b + |x + y + z|];
    forall i | 0 <= i < |y| ensures whole[b + |x| + i] == y[i] {
      assert s[|x| + i] == (x + y + z)[|x| + i];
    }
  }

  // ---- Cursors -----------------------------------------------------------------------------

  class Cursor {
    const env: Env
    const db: Db
    var pg: seq<Tree>
    var ki: seq<nat>
    var initialized: bool
    var eof: bool

    ghost predicate OnStack()
      reads this
    {
      env.Valid() && DbOK(env, db) && db.Root? && 1 <= |pg| == |ki| && Stacked(db.tree, db.depth, pg, ki)
    }

    ghost predicate Valid()
      reads this
    {
      && env.Valid() && DbOK(env, db)
      && (initialized ==> OnStack() && |pg| == db.depth + 1 && ki[|pg|-1] <= Size(pg[|pg|-1]))
      && (eof ==> initialized && (ki[|pg|-1] + 1 >= Size(pg[|pg|-1]) ==> OnLastPage()))
    }

    ghost predicate OnLastPage()
      requires OnStack()
      reads this
    {
      Before(pg, ki) + Size(pg[|pg|-1]) == |Contents(db)|
    }

    /** Index of the addressed entry in the database, or of the next one when the cursor stands past its page's end. */
    ghost function Position(): nat
      requires initialized ==> OnStack()
      reads this
    {
      if initialized then Before(pg, ki) + ki[|pg|-1] else 0
    }

    /** The cursor addresses an entry. */
    ghost predicate Landed()
      requires initialized ==> OnStack()
      reads this
    {
      initialized && ki[|pg|-1] < Size(pg[|pg|-1])
    }

    constructor (env: Env, db: Db)
      requires env.Valid() && DbOK(env, db)
      ensures Valid() && !initialized && this.env == env && this.db == db
    {
      this.env, this.db := env, db;
      pg, ki, initialized, eof := [], [], false, false;
    }

    /** Push the child that the top index names (mdb_cursor_push), addressing its first or its last node. */
    method PushChild(last: bool)
      requires OnStack() && pg[|pg|-1].Branch? && ki[|pg|-1] < |pg[|pg|-1].kids|
      modifies this`pg, this`ki
      ensures OnStack() && |pg| == old(|pg|) + 1
      ensures Count(pg[|pg|-1]) > 0 && ki[|pg|-1] == if last then Count(pg[|pg|-1]) - 1 else 0
      ensures var kids, c := old(pg[|pg|-1].kids), old(ki[|pg|-1]);
              && pg == old(pg) + [kids[c].tree] && ki[..|pg|-1] == old(ki)
              && Before(pg, ki) == old(Before(pg, ki)) + |FlattenKids(kids[..c])|
              && Before(pg, ki) + Size(kids[c].tree) == old(Before(pg, ki)) + |FlattenKids(kids[..c+1])|
    {
      hide Shaped, Flatten, FlattenKids, KidsOK, TreeOK, Stacked, Before;
      StackEnds(db.tree, db.depth, pg, ki);
      var n := |pg|;
      var top, c := pg[n-1], ki[n-1];
      TopPage(db.tree, db.depth, pg, ki);
      KidCount(top, db.depth + 1 - n, c);
      var slot := if last then Count(top.kids[c].tree) - 1 else 0;
      Pushed(db.tree, db.depth, pg, ki, slot);
      KidStarts(top.kids, c);
      pg := pg + [top.kids[c].tree];
      ki := ki + [slot];
    }

    /** Step to the neighbouring page of the same height (mdb_cursor_sibling). */
    method Sibling(right: bool) returns (ok: bool)
      requires OnStack()
      modifies this`pg, this`ki
      ensures OnStack() && |pg| == old(|pg|) && (ok ==> ki[|pg|-1] < Count(pg[|pg|-1]))
      ensures !ok ==> pg == old(pg) && ki == old(ki)
      ensures !ok ==> if right then Before(pg, ki) + Size(pg[|pg|-1]) == Size(db.tree) else Before(pg, ki) == 0
      ensures ok && right ==> ki[|pg|-1] == 0 && Before(pg, ki) == old(Before(pg, ki) + Size(pg[|pg|-1]))
      ensures ok && !right ==> ki[|pg|-1] + 1 == Count(pg[|pg|-1]) && Before(pg, ki) + Size(pg[|pg|-1]) == old(Before(pg, ki))
      decreases |pg|
    {
      hide Shaped, Flatten, FlattenKids, KidsOK, TreeOK, Stacked, Before, Size, DbOK;
      var n := |pg|;
      StackEnds(db.tree, db.depth, pg, ki);
      if n < 2 {
        return false;
      }
      Popped(db.tree, db.depth, pg, ki);
      var page, slot := pg[n-1], ki[n-1];
      ghost var pg0, ki0 := pg, ki;
      ghost var target := Before(pg, ki) + (if right then Size(page) else 0);
      pg, ki := pg[..n-1], ki[..n-1];
      if if right then ki[n-2] + 1 >= |pg[n-2].kids| else ki[n-2] == 0 {
        ok := Sibling(right);
        if !ok {
          pg, ki := pg + [page], ki + [slot];
          assert pg == pg0 && ki == ki0;
          return;
        }
        StackEnds(db.tree, db.depth, pg, ki);
        KidEdges(pg[n-2], ki[n-2]);
      } else {
        var j := if right then ki[n-2] + 1 else ki[n-2] - 1;
        TopIndexFree(db.tree, db.depth, pg, ki, j);
        ki := ki[n-2 := j];
        ok := true;
      }
      assert Before(pg, ki) + |FlattenKids(pg[n-2].kids[..if right then ki[n-2] else ki[n-2] + 1])| == target;
      PushChild(!right);
    }

    /** The entry under the cursor. */
    method Current() returns (p: Pair)
      requires Valid() && initialized && ki[|pg|-1] < Count(pg[|pg|-1])
      ensures Landed() && Position() < |Contents(db)| && p == Contents(db)[Position()]
    {
      hide Shaped, FlattenKids, KidsOK, TreeOK, Before;
      StackEnds(db.tree, db.depth, pg, ki);
      var page, i := pg[|pg|-1], ki[|pg|-1];
      Window(db.tree, db.depth, pg, ki);
      ghost var b := Before(pg, ki);
      assert Flatten(db.tree)[b..b + Size(page)][i] == Flatten(db.tree)[b + i];
      p := Pair(page.ents[i].key, page.ents[i].val);
    }

    /** Walk down the first or the last children to a leaf (mdb_page_search with MDB_PS_FIRST or MDB_PS_LAST). */
    method Descend(last: bool)
      requires env.Valid() && DbOK(env, db) && db.Root?
      modifies this`pg, this`ki
      ensures OnStack() && |pg| == db.depth + 1
      ensures if last then Before(pg, ki) + Size(pg[|pg|-1]) == Size(db.tree) else Before(pg, ki) == 0
    {
      hide Flatten, FlattenKids, KidsOK, TreeOK, Stacked, Before, Shaped;
      TreeShaped(env, db.tree, db.depth, [], None);
      pg, ki := [db.tree], [0];
      AtRoot(db.tree, db.depth);
      while pg[|pg|-1].Branch?
        invariant OnStack() && |pg| <= db.depth + 1
        invariant if last then Before(pg, ki) + Size(pg[|pg|-1]) == Size(db.tree) else Before(pg, ki) == 0
        decreases db.depth + 1 - |pg|
      {
        TopPage(db.tree, db.depth, pg, ki);
        ShapedCount(pg[|pg|-1], db.depth + 1 - |pg|);
        StackEnds(db.tree, db.depth, pg, ki);
        var i := if last then Count(pg[|pg|-1]) - 1 else 0;
        TopIndexFree(db.tree, db.depth, pg, ki, i);
        ki := ki[|pg|-1 := i];
        KidEdges(pg[|pg|-1], i);
        PushChild(false);
      }
      StackEnds(db.tree, db.depth, pg, ki);
    }

    method SetTop(i: nat)
      requires OnStack()
      modifies this`ki
      ensures OnStack() && |ki| == old(|ki|) && ki[|pg|-1] == i && Before(pg, ki) == old(Before(pg, ki))
    {
      TopIndexFree(db.tree, db.depth, pg, ki, i);
      ki := ki[|pg|-1 := i];
    }

    /** First entry (mdb_cursor_first). */
    method First() returns (ok: bool, p: Pair)
      requires Valid()
      modifies this
      ensures Valid() && ok == db.Root?
      ensures ok ==> Landed() && Position() == 0 < |Contents(db)| && p == Contents(db)[0]
      ensures !ok ==> !initialized
    {
      hide Stacked, Before, Shaped, Flatten, FlattenKids, KidsOK, TreeOK;
      p := Pair([], []);
      if db.Empty? {
        return false, p;
      }
      if !initialized || |pg| > 1 {
        Descend(false);
      }
      StackEnds(db.tree, db.depth, pg, ki);
      TopCount(db.tree, db.depth, pg, ki);
      SetTop(0);
      initialized, eof := true, false;
      p := Current();
      ok := true;
    }

    /** Last entry (mdb_cursor_last). */
    method Last() returns (ok: bool, p: Pair)
      requires Valid()
      modifies this
      ensures Valid() && ok == db.Root?
      ensures ok ==> Landed() && Position() + 1 == |Contents(db)| && p == Contents(db)[Position()]
      ensures !ok ==> !initialized
    {
      hide Stacked, Before, Shaped, Flatten, FlattenKids, KidsOK, TreeOK;
      p := Pair([], []);
      if db.Empty? {
        return false, p;
      }
      if !initialized || |pg| > 1 {
        Descend(true);
      }
      StackEnds(db.tree, db.depth, pg, ki);
      TopCount(db.tree, db.depth, pg, ki);
      SetTop(Count(pg[|pg|-1]) - 1);
      initialized, eof := true, true;
      p := Current();
      ok := true;
    }

    /** Next entry (mdb_cursor_next). A cursor past the end of its page stands before the entry it returns. */
    method Next() returns (ok: bool, p: Pair)
      requires Valid()
      modifies this
      ensures Valid()
      ensures var at := if !old(initialized) then 0 else old(Position()) + (if old(Landed()) then 1 else 0);
              if at < |Contents(db)| then ok && Landed() && Position() == at && p == Contents(db)[at]
              else !ok && initialized == old(initialized) && Position() == old(Position())
    {
      hide Stacked, Before, Shaped, Flatten, FlattenKids, KidsOK, TreeOK;
      p := Pair([], []);
      ContentsEmpty(env, db);
      if !initialized {
        ok, p := First();
        return;
      }
      StackEnds(db.tree, db.depth, pg, ki);
      TopCount(db.tree, db.depth, pg, ki);
      Window(db.tree, db.depth, pg, ki);
      var top := pg[|pg|-1];
      if eof {
        if ki[|pg|-1] >= Count(top) - 1 {
          return false, p;
        }
        eof := false;
      }
      if ki[|pg|-1] + 1 >= Count(top) {
        ok := Sibling(true);
        if !ok {
          eof := true;
          return;
        }
        StackEnds(db.tree, db.depth, pg, ki);
        TopCount(db.tree, db.depth, pg, ki);
      } else {
        SetTop(ki[|pg|-1] + 1);
      }
      p := Current();
      ok := true;
    }

    /** Previous entry (mdb_cursor_prev). */
    method Prev() returns (ok: bool, p: Pair)
      requires Valid()
      modifies this
      ensures Valid()
      ensures var at := if !old(initialized) then |Contents(db)| else old(Position());
              if at > 0 then ok && Landed() && Position() == at - 1 < |Contents(db)| && p == Contents(db)[at - 1]
              else !ok && initialized == old(initialized) && Position() == old(Position())
    {
      hide Stacked, Before, Shaped, Flatten, FlattenKids, KidsOK, TreeOK;
      ContentsEmpty(env, db);
      if !initialized {
        ok, p := Last();
        if !ok {
          return;
        }
        StackEnds(db.tree, db.depth, pg, ki);
        SetTop(ki[|pg|-1] + 1);
      }
      p := Pair([], []);
      StackEnds(db.tree, db.depth, pg, ki);
      eof := false;
      if ki[|pg|-1] == 0 {
        ok := Sibling(false);
        if !ok {
          return;
        }
        StackEnds(db.tree, db.depth, pg, ki);
      } else {
        SetTop(ki[|pg|-1] - 1);
      }
      TopCount(db.tree, db.depth, pg, ki);
      p := Current();
      ok := true;
    }

    /** Walk down to the leaf the key belongs on (mdb_page_search_root). */
    method SearchLeaf(k: Key)
      requires env.Valid() && DbOK(env, db) && db.Root?
      modifies this`pg, this`ki
      ensures OnStack() && |pg| == db.depth + 1
      ensures Before(pg, ki) + Size(pg[|pg|-1]) <= |Contents(db)|
      ensures Bracketed(Contents(db), Before(pg, ki), Size(pg[|pg|-1]), k)
    {
      hide Less, FlattenKids, KidsOK, BranchPageOK, LeafOK, Bracketed, KidIndex, InRange, Stacked, Before;
      TreeShaped(env, db.tree, db.depth, [], None);
      pg, ki := [db.tree], [0];
      AtRoot(db.tree, db.depth);
      ghost var lo: Key, hi: Option<Key> := [], None;
      EmptyLowest(k);
      WholeBracketed(Contents(db), k);
      while pg[|pg|-1].Branch?
        invariant OnStack() && |pg| <= db.depth + 1
        invariant TreeOK(env, pg[|pg|-1], db.depth + 1 - |pg|, lo, hi) && InRange(k, lo, hi)
        invariant Before(pg, ki) + Size(pg[|pg|-1]) <= |Contents(db)|
        invariant Bracketed(Contents(db), Before(pg, ki), Size(pg[|pg|-1]), k)
        decreases db.depth + 1 - |pg|
      {
        StackEnds(db.tree, db.depth, pg, ki);
        var n := |pg|;
        var kids := pg[n-1].kids;
        SepsAscend(env, kids, db.depth - n, lo, hi);
        var c := ChildIndex(kids, k);
        Window(db.tree, db.depth, pg, ki);
        NarrowSearch(env, Contents(db), Before(pg, ki), kids, k, db.depth - n, lo, hi);
        SetTop(c);
        PushChild(false);
        lo, hi := LoOf(kids[..c], [kids[c]], lo), HiOf(kids[c+1..], hi);
      }
      StackEnds(db.tree, db.depth, pg, ki);
    }

    /** Whether some page below the top has a right sibling. */
    method HasRightSibling() returns (some: bool)
      requires OnStack()
      ensures !some ==> Before(pg, ki) + Size(pg[|pg|-1]) == |Contents(db)|
    {
      hide Stacked, Before, Flatten, FlattenKids, DbOK;
      var i := 0;
      while i < |pg| - 1 && ki[i] >= Count(pg[i]) - 1
        invariant 0 <= i <= |pg| - 1
        invariant forall j :: 0 <= j < i ==> ki[j] >= Count(pg[j]) - 1
      {
        i := i + 1;
      }
      some := i < |pg| - 1;
      if !some { Rightmost(db.tree, db.depth, pg, ki); }
    }

    /** Search the addressed leaf, and step to the next one when its keys are all smaller. */
    method FindOnLeaf(k: Key, exactly: bool) returns (ok: bool)
      requires OnStack() && |pg| == db.depth + 1
      requires Before(pg, ki) + Size(pg[|pg|-1]) <= |Contents(db)|
      requires Bracketed(Contents(db), Before(pg, ki), Size(pg[|pg|-1]), k)
      modifies this
      ensures Valid() && initialized && Position() == Pos(Contents(db), k)
      ensures ok <==> Matches(Contents(db), k, exactly)
      ensures ok ==> Landed()
    {
      hide Stacked, Before, Flatten, FlattenKids, Less, Bracketed, DbOK, Pos;
      StackEnds(db.tree, db.depth, pg, ki);
      TopCount(db.tree, db.depth, pg, ki);
      Window(db.tree, db.depth, pg, ki);
      LeafAscends(env, db, pg, ki);
      var page := pg[|pg|-1];
      var i, found := NodeSearch(EntryKeys(page.ents), true, k);
      LeafFlatten(page);
      PosBracketed(Contents(db), Before(pg, ki), Flatten(page), k, i);
      SetTop(i);
      initialized, eof := true, false;
      if exactly && !found {
        return false;
      }
      if i >= Count(page) {
        ok := Sibling(true);
        if !ok {
          eof := true;
          return;
        }
        StackEnds(db.tree, db.depth, pg, ki);
        TopCount(db.tree, db.depth, pg, ki);
        Window(db.tree, db.depth, pg, ki);
      }
      ok := true;
    }

    /** Compare the key with the page the cursor is on before searching from the root. */
    method TryThisPage(k: Key) returns (h: Hint)
      requires Valid() && initialized
      modifies this`ki
      ensures OnStack() && |pg| == db.depth + 1 && Before(pg, ki) + Size(pg[|pg|-1]) <= |Contents(db)|
      ensures match h
              case Hit => Position() == Pos(Contents(db), k) && Landed() && Position() < |Contents(db)| && Contents(db)[Position()].key == k
              case ThisPage => Bracketed(Contents(db), Before(pg, ki), Size(pg[|pg|-1]), k)
              case Elsewhere => true
              case PastAll => Position() == Pos(Contents(db), k) == |Contents(db)| && ki[|pg|-1] == Size(pg[|pg|-1])
              case BeforeAll =>
                && Position() == 0 == Pos(Contents(db), k) && Landed() && |pg| == 1
                && Contents(db) != [] && Contents(db)[0].key != k
    {
      hide Stacked, Before, Shaped, Flatten, FlattenKids, KidsOK, TreeOK, Less, Pos, Bracketed, Sorted, DbOK;
      StackEnds(db.tree, db.depth, pg, ki);
      TopCount(db.tree, db.depth, pg, ki);
      Window(db.tree, db.depth, pg, ki);
      var top := |pg| - 1;
      var page := pg[top];
      var n := Count(page);
      ghost var ps, b := Contents(db), Before(pg, ki);
      ContentsSorted(env, db);
      LeafEntry(ps, b, page, 0);
      LeafEntry(ps, b, page, n - 1);
      var first := CompareKeys(k, page.ents[0].key);
      if first == 0 {
        PosHit(ps, b);
        SetTop(0);
        return Hit;
      }
      if first < 0 {
        if top > 0 {
          return Elsewhere;
        }
        BeforeStart(ps, k);
        SetTop(0);
        return BeforeAll;
      }
      var last := 1;
      if n > 1 {
        last := CompareKeys(k, page.ents[n-1].key);
      }
      if last == 0 {
        PosHit(ps, b + n - 1);
        SetTop(n - 1);
        return Hit;
      }
      if last < 0 {
        BetweenEnds(ps, b, n, k);
        if ki[top] < n {
          LeafEntry(ps, b, page, ki[top]);
          var at := CompareKeys(k, page.ents[ki[top]].key);
          if at == 0 {
            PosHit(ps, b + ki[top]);
            return Hit;
          }
        }
        return ThisPage;
      }
      var right := HasRightSibling();
      if right {
        return Elsewhere;
      }
      PastEnd(ps, k);
      SetTop(n);
      h := PastAll;
    }

    /** The entry at the key, or at the first key from it on (mdb_cursor_set): MDB_SET_KEY or MDB_SET_RANGE. */
    method Seek(k: Key, exactly: bool) returns (found: Option<Pair>)
      requires Valid()
      modifies this
      ensures Valid()
      ensures k == [] || db.Empty? ==> found.None? && initialized == old(initialized)
      ensures k != [] && db.Root? ==> initialized && Position() == Pos(Contents(db), k)
      ensures found.Some? <==> k != [] && Matches(Contents(db), k, exactly)
      ensures found.Some? ==> Landed() && found.value == Contents(db)[Position()]
    {
      hide Stacked, Before, Shaped, Flatten, FlattenKids, KidsOK, TreeOK, Less, Pos, Bracketed;
      ContentsEmpty(env, db);
      if k == [] || db.Empty? {
        return None;
      }
      var h := Elsewhere;
      if initialized {
        h := TryThisPage(k);
      }
      StackCount(db, pg, ki);
      if h == PastAll || (h == BeforeAll && exactly) {
        StackEnds(db.tree, db.depth, pg, ki);
        return None;
      }
      if h == Elsewhere {
        SearchLeaf(k);
      }
      if h == Elsewhere || h == ThisPage {
        var ok := FindOnLeaf(k, exactly);
        if !ok {
          return None;
        }
      }
      eof := false;
      StackCount(db, pg, ki);
      var p := Current();
      found := Some(p);
    }
  }

  /** Calling next until it fails visits every entry once, in order. */
  method Enumerate(c: Cursor) returns (ps: seq<Pair>)
    requires c.Valid() && !c.initialized
    modifies c
    ensures c.Valid() && ps == Contents(c.db)
  {
    hide Contents, DbOK, Stacked, Before, Size, Count;
    ghost var all := Contents(c.db);
    ps := [];
    var ok, p := c.Next();
    while ok
      invariant c.Valid() && |ps| <= |all| && ps == all[..|ps|]
      invariant if ok then c.Landed() && c.Position() == |ps| < |all| && p == all[|ps|] else |ps| == |all|
      decreases |all| - |ps|, ok
    {
      assert all[..|ps| + 1] == all[..|ps|] + [p];
      ps := ps + [p];
      ok, p := c.Next();
    }
  }

  // ---- Positioning by key ------------------------------------------------------------------

  /** What the page under the cursor tells about a key. */
  datatype Hint = Hit | ThisPage | Elsewhere | PastAll | BeforeAll

  lemma StackCount(db: Db, pg: seq<Tree>, ki: seq<nat>)
    ensures db.Root? && Stacked(db.tree, db.depth, pg, ki) && |pg| == db.depth + 1
            ==> pg[db.depth].Leaf? && Count(pg[db.depth]) == Size(pg[db.depth]) > 0
  {
    if db.Root? && Stacked(db.tree, db.depth, pg, ki) && |pg| == db.depth + 1 { TopCount(db.tree, db.depth, pg, ki); }
  }

  /** Whether a positioning by key succeeds: on the key itself, or on any key from it on. */
  predicate Matches(ps: seq<Pair>, k: Key, exactly: bool) {
    var i := Pos(ps, k);
    i < |ps| && (exactly ==> ps[i].key == k)
  }

  lemma PastEnd(ps: seq<Pair>, k: Key)
    requires Sorted(ps) && (ps != [] ==> Less(ps[|ps|-1].key, k))
    ensures Pos(ps, k) == |ps|
  {
    hide Less;
    forall j | 0 <= j < |ps| - 1 ensures Less(ps[j].key, k) { LessTransitive(ps[j].key, ps[|ps|-1].key, k); }
    PosUnique(ps, k, |ps|);
  }

  lemma BeforeStart(ps: seq<Pair>, k: Key)
    requires ps != [] && Less(k, ps[0].key)
    ensures Pos(ps, k) == 0 && ps[0].key != k
  {
    LessAsymmetric(k, ps[0].key);
    LessIrreflexive(k);
  }

  lemma LeafEntry(ps: seq<Pair>, b: nat, t: Tree, i: nat)
    requires t.Leaf? && i < |t.ents| && b + |t.ents| <= |ps| && ps[b..b + |t.ents|] == Flatten(t)
    ensures ps[b + i] == Pair(t.ents[i].key, t.ents[i].val)
  {
    assert ps[b..b + |t.ents|][i] == ps[b + i];
  }

  lemma LeafFlatten(t: Tree)
    requires t.Leaf?
    ensures Flatten(t) == Pairs(t.ents)
  {
  }

  lemma ContentsSorted(env: Env, db: Db)
    requires env.Valid() && DbOK(env, db)
    ensures Sorted(Contents(db))
  {
    if db.Root? { TreeContents(env, db.tree, db.depth, [], None); }
  }

  lemma LeafAscends(env: Env, db: Db, pg: seq<Tree>, ki: seq<nat>)
    requires env.Valid() && DbOK(env, db) && db.Root? && Stacked(db.tree, db.depth, pg, ki) && |pg| == db.depth + 1
    ensures pg[db.depth].Leaf? && Ascending(EntryKeys(pg[db.depth].ents), 0)
  {
    hide Less, Stacked, Before;
    StackEnds(db.tree, db.depth, pg, ki);
    ContentsSorted(env, db);
    Window(db.tree, db.depth, pg, ki);
    var t, b := pg[db.depth], Before(pg, ki);
    var ps := Contents(db);
    forall i, j | 0 <= i < j < |t.ents| ensures Less(t.ents[i].key, t.ents[j].key) {
      LeafEntry(ps, b, t, i);
      LeafEntry(ps, b, t, j);
      assert Less(ps[b + i].key, ps[b + j].key);
    }
  }

  lemma {:induction false} Rightmost(root: Tree, depth: nat, pg: seq<Tree>, ki: seq<nat>)
    requires Stacked(root, depth, pg, ki) && |pg| == |ki|
    requires forall j :: 0 <= j < |pg| - 1 ==> ki[j] >= Count(pg[j]) - 1
    ensures Before(pg, ki) + Size(pg[|pg|-1]) == Size(root)
    decreases |pg|
  {
    hide Stacked, Before, Size;
    StackEnds(root, depth, pg, ki);
    if |pg| > 1 {
      Popped(root, depth, pg, ki);
      assert ki[|pg|-2] >= Count(pg[|pg|-2]) - 1;
      Rightmost(root, depth, pg[..|pg|-1], ki[..|pg|-1]);
    }
  }

  /** Outside the stretch of `n` pairs from `b` on, everything is below or above the key. */
  predicate Bracketed(ps: seq<Pair>, b: nat, n: nat, k: Key)
    requires b + n <= |ps|
  {
    AllBelow(ps[..b], k) && AllAbove(ps[b+n..], k)
  }

  /** Narrowing the stretch to the child the key belongs to. */
  lemma BracketChild(ps: seq<Pair>, b: nat, x: seq<Pair>, y: seq<Pair>, z: seq<Pair>, k: Key)
    requires var w := x + y + z; b + |w| <= |ps| && ps[b..b + |w|] == w && Bracketed(ps, b, |w|, k)
    requires AllBelow(x, k) && AllAbove(z, k)
    ensures Bracketed(ps, b + |x|, |y|, k)
  {
    hide Less;
    var w := x + y + z;
    var s := ps[b..b + |w|];
    var before, after := ps[..b + |x|], ps[b + |x| + |y|..];
    forall i | 0 <= i < |before| ensures Less(before[i].key, k) {
      if i < b { assert before[i] == ps[..b][i]; } else { assert before[i] == s[i - b] == x[i - b]; }
    }
    forall i | 0 <= i < |after| ensures Less(k, after[i].key) {
      if i < |z| { assert after[i] == s[|x| + |y| + i] == z[i]; } else { assert after[i] == ps[b + |w|..][i - |z|]; }
    }
  }

  /** What holds of a branch page holds of the child the key leads to. */
  lemma NarrowSearch(env: Env, ps: seq<Pair>, b: nat, kids: seq<Kid>, k: Key, h: nat, lo: Key, hi: Option<Key>)
    requires env.Valid() && kids != [] && KidsOK(env, kids, h, lo, hi) && InRange(k, lo, hi)
    requires var w := FlattenKids(kids); b + |w| <= |ps| && ps[b..b + |w|] == w && Bracketed(ps, b, |w|, k)
    ensures var c := KidIndex(kids, k);
            var b' := b + |FlattenKids(kids[..c])|;
            var lo', hi' := LoOf(kids[..c], [kids[c]], lo), HiOf(kids[c+1..], hi);
            && TreeOK(env, kids[c].tree, h, lo', hi') && InRange(k, lo', hi')
            && b' + Size(kids[c].tree) <= |ps| && Bracketed(ps, b', Size(kids[c].tree), k)
  {
    hide KidsOK, TreeOK, Flatten, FlattenKids, Less, KidIndex, Bracketed, AllBelow, AllAbove;
    var c := KidIndex(kids, k);
    ChildBounds(env, kids, k, h, lo, hi);
    BracketChild(ps, b, FlattenKids(kids[..c]), Flatten(kids[c].tree), FlattenKids(kids[c+1..]), k);
  }

  lemma WholeBracketed(ps: seq<Pair>, k: Key)
    ensures Bracketed(ps, 0, |ps|, k)
  {
  }

  lemma EmptyLowest(k: Key)
    ensures InRange(k, [], None)
  {
  }

  lemma PosBracketed(ps: seq<Pair>, b: nat, page: seq<Pair>, k: Key, i: nat)
    requires b + |page| <= |ps| && ps[b..b + |page|] == page && Bracketed(ps, b, |page|, k) && i <= |page|
    requires forall j :: 0 <= j < i ==> Less(page[j].key, k)
    requires i < |page| ==> AtMost(k, page[i].key)
    ensures Pos(ps, k) == b + i
    ensures b + i < |ps| ==> (ps[b + i].key == k <==> i < |page| && page[i].key == k)
  {
    hide Less;
    LessIrreflexive(k);
    forall j | 0 <= j < b + i ensures Less(ps[j].key, k) {
      if j < b { assert ps[j] == ps[..b][j]; } else { assert ps[j] == ps[b..b + |page|][j - b]; }
    }
    if b + i < |ps| {
      if i < |page| {
        assert ps[b + i] == ps[b..b + |page|][i];
        if page[i].key != k { LessAsymmetric(k, page[i].key); }
      } else {
        assert ps[b + i] == ps[b + |page|..][0];
        LessAsymmetric(k, ps[b + i].key);
      }
    }
    PosUnique(ps, k, b + i);
  }

  lemma PosHit(ps: seq<Pair>, i: nat)
    requires Sorted(ps) && i < |ps|
    ensures Pos(ps, ps[i].key) == i
  {
    LessIrreflexive(ps[i].key);
    PosUnique(ps, ps[i].key, i);
  }

  lemma BetweenEnds(ps: seq<Pair>, b: nat, n: nat, k: Key)
    requires Sorted(ps) && b + n <= |ps| && n > 0
    requires Less(ps[b].key, k) && Less(k, ps[b + n - 1].key)
    ensures Bracketed(ps, b, n, k)
  {
    hide Less;
    forall j | 0 <= j < b ensures Less(ps[j].key, k) { LessTransitive(ps[j].key, ps[b].key, k); }
    forall j | b + n <= j < |ps| ensures Less(k, ps[j].key) { LessTransitive(k, ps[b + n - 1].key, ps[j].key); }
  }

  lemma TopCount(root: Tree, depth: nat, pg: seq<Tree>, ki: seq<nat>)
    requires Stacked(root, depth, pg, ki) && |pg| == depth + 1
    ensures pg[depth].Leaf? && Count(pg[depth]) == Size(pg[depth]) > 0
  {
    ShapedCount(pg[depth], 0);
  }

  lemma ContentsEmpty(env: Env, db: Db)
    requires env.Valid() && DbOK(env, db)
    ensures Contents(db) == [] <==> db.Empty?
  {
    if db.Root? { TreeContents(env, db.tree, db.depth, [], None); }
  }

  lemma AtRoot(root: Tree, depth: nat)
    requires Shaped(root, depth)
    ensures Stacked(root, depth, [root], [0]) && Before([root], [0]) == 0
  {
  }

  lemma StackEnds(root: Tree, depth: nat, pg: seq<Tree>, ki: seq<nat>)
    requires Stacked(root, depth, pg, ki)
    ensures 1 <= |pg| == |ki| <= depth + 1 && (|pg| == 1 ==> pg[0] == root && Before(pg, ki) == 0)
    ensures pg[|pg|-1].Leaf? == (|pg| == depth + 1)
  {
  }

  lemma Popped(root: Tree, depth: nat, pg: seq<Tree>, ki: seq<nat>)
    requires |pg| >= 2 && Stacked(root, depth, pg, ki)
    ensures var n := |pg|; var pg', ki' := pg[..n-1], ki[..n-1];
            && Stacked(root, depth, pg', ki') && n <= depth + 1
            && pg[n-2].Branch? && ki[n-2] < |pg[n-2].kids|
            && Before(pg, ki) == Before(pg', ki') + |FlattenKids(pg[n-2].kids[..ki[n-2]])|
            && Before(pg, ki) + Size(pg[n-1]) == Before(pg', ki') + |FlattenKids(pg[n-2].kids[..ki[n-2]+1])|
            && Size(pg[n-2]) == |FlattenKids(pg[n-2].kids)|
            && (ki[n-2] + 1 == |pg[n-2].kids| ==> Before(pg, ki) + Size(pg[n-1]) == Before(pg', ki') + Size(pg[n-2]))
            && (ki[n-2] == 0 ==> Before(pg, ki) == Before(pg', ki'))
  {
    var n := |pg|;
    FlattenLast(pg[n-2].kids, ki[n-2] + 1);
    FlattenEnds(pg[n-2].kids);
  }

  lemma TopPage(root: Tree, depth: nat, pg: seq<Tree>, ki: seq<nat>)
    requires Stacked(root, depth, pg, ki)
    ensures Shaped(pg[|pg|-1], depth + 1 - |pg|)
  {
  }

  lemma KidEdges(t: Tree, c: nat)
    requires t.Branch? && c < |t.kids|
    ensures c == 0 ==> |FlattenKids(t.kids[..c])| == 0
    ensures c + 1 == |t.kids| ==> |FlattenKids(t.kids[..c+1])| == Size(t)
  {
    FlattenEnds(t.kids);
  }

  lemma KidStarts(kids: seq<Kid>, c: nat)
    requires c < |kids|
    ensures |FlattenKids(kids[..c])| + Size(kids[c].tree) == |FlattenKids(kids[..c+1])|
    ensures c == 0 ==> |FlattenKids(kids[..c])| == 0
  {
    FlattenLast(kids, c + 1);
  }

  lemma KidCount(t: Tree, h: nat, c: nat)
    requires t.Branch? && Shaped(t, h) && c < |t.kids|
    ensures h > 0 && Count(t.kids[c].tree) > 0
  {
    ShapedKid(t.kids, h - 1, c);
    ShapedCount(t.kids[c].tree, h - 1);
  }

  lemma {:induction false} ShapedCount(t: Tree, h: nat)
    requires Shaped(t, h)
    ensures Count(t) > 0 && t.Leaf? == (h == 0) && Size(t) > 0 && (t.Leaf? ==> Size(t) == Count(t))
  {
    if t.Branch? {
      ShapedCount(t.kids[0].tree, h - 1);
      assert FlattenKids(t.kids) == Flatten(t.kids[0].tree) + FlattenKids(t.kids[1..]);
    }
  }

  lemma FlattenEnds(kids: seq<Kid>)
    ensures FlattenKids(kids[..0]) == [] && FlattenKids(kids[..|kids|]) == FlattenKids(kids)
  {
    assert kids[..|kids|] == kids;
  }
}
