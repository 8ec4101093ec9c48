/** Node storage inside one branch or leaf page: node images packed downwards from the end of the page, and the
    slot array that gives each node's offset in key order.

    The slot array and the node area share one buffer in the engine; here they are two arrays, and the page's
    `lower` and `upper` bounds, which keep them apart, are kept and compared as the engine does. */
module SlottedPage {
  import opened Keys
  import opened SplitPoint
  import opened BTree

  const WORD := 0x1_0000

  /** A node as read back from its image; the filler byte after an odd length is not part of it. */
  datatype PageNode = PageNode(lo: nat, hi: nat, flags: nat, key: seq<byte>, payload: seq<byte>) {
    /** Length of a leaf node's data, wherever the data is. */
    function DataSize(): nat {
      lo + WORD * hi
    }

    /** Child page of a branch node. */
    function ChildPage(): nat {
      lo + WORD * hi + WORD * WORD * flags
    }

    predicate BigData() {
      flags % 2 == 1
    }
  }

  function NodeBytes(n: PageNode): (z: nat)
    ensures z % 2 == 0 && NODESIZE <= z
  {
    Even(NODESIZE + |n.key| + |n.payload|)
  }

  // ---- reading an image

  function Word16(b: seq<byte>, o: nat): (w: nat)
    requires o + 2 <= |b|
  {
    b[o] as int + 256 * (b[o + 1] as int)
  }

  function PayloadSize(b: seq<byte>, o: nat, leaf: bool): nat
    requires o + NODESIZE <= |b|
  {
    if !leaf then 0
    else if Word16(b, o + 4) % 2 == 1 then PGNOSIZE
    else Word16(b, o) + WORD * Word16(b, o + 2)
  }

  predicate Placed(b: seq<byte>, o: nat, leaf: bool) {
    o + NODESIZE <= |b| && o + NODESIZE + Word16(b, o + 6) + PayloadSize(b, o, leaf) <= |b|
  }

  function ReadNode(b: seq<byte>, o: nat, leaf: bool): (n: PageNode)
    requires Placed(b, o, leaf)
  {
    var k := Word16(b, o + 6);
    var d := PayloadSize(b, o, leaf);
    PageNode(Word16(b, o), Word16(b, o + 2), Word16(b, o + 4),
         b[o + NODESIZE..o + NODESIZE + k], b[o + NODESIZE + k..o + NODESIZE + k + d])
  }

  ghost predicate Holds(b: seq<byte>, o: nat, n: PageNode, leaf: bool) {
    Placed(b, o, leaf) && ReadNode(b, o, leaf) == n
  }

  /** Bytes [from, until) of `b` are in `b2`, `shift` further up. */
  ghost predicate SameBytes(b: seq<byte>, b2: seq<byte>, from: nat, until: nat, shift: int) {
    && |b| == |b2| && until <= |b| && 0 <= from + shift && until + shift <= |b|
    && forall k {:trigger b2[k]} :: from + shift <= k < until + shift ==> b2[k] == b[k - shift]
  }

  /** An image means the same node wherever it is moved to. */
  lemma MovedImage(b: seq<byte>, b2: seq<byte>, o: nat, n: PageNode, from: nat, until: nat, shift: int, leaf: bool)
    requires SameBytes(b, b2, from, until, shift)
    requires Holds(b, o, n, leaf) && from <= o && o + NodeBytes(n) <= until
    ensures 0 <= o + shift && Holds(b2, o + shift, n, leaf)
  {
    hide Word16;
    SameWord(b, b2, o, from, until, shift);
    SameWord(b, b2, o + 2, from, until, shift);
    SameWord(b, b2, o + 4, from, until, shift);
    SameWord(b, b2, o + 6, from, until, shift);
    SameSlice(b, b2, o + NODESIZE, |n.key|, from, until, shift);
    SameSlice(b, b2, o + NODESIZE + |n.key|, |n.payload|, from, until, shift);
    hide SameBytes;
  }

  lemma SameWord(b: seq<byte>, b2: seq<byte>, o: nat, from: nat, until: nat, shift: int)
    requires SameBytes(b, b2, from, until, shift) && from <= o && o + 2 <= until
    ensures 0 <= o + shift && o + shift + 2 <= |b2| && Word16(b2, o + shift) == Word16(b, o)
  {
  }

  lemma SameSlice(b: seq<byte>, b2: seq<byte>, o: nat, len: nat, from: nat, until: nat, shift: int)
    requires SameBytes(b, b2, from, until, shift) && from <= o && o + len <= until
    ensures 0 <= o + shift && o + shift + len <= |b2| && b2[o + shift..o + shift + len] == b[o..o + len]
  {
  }

  // ---- where the nodes are

  ghost predicate Stored(b: seq<byte>, p: seq<nat>, ns: seq<PageNode>, leaf: bool) {
    |p| == |ns| && forall i :: 0 <= i < |p| ==> Holds(b, p[i], ns[i], leaf)
  }

  predicate Clear(o: nat, size: nat, o2: nat, size2: nat) {
    o + size <= o2 || o2 + size2 <= o
  }

  ghost predicate InBounds(p: seq<nat>, ns: seq<PageNode>, upper: nat, end: nat)
    requires |p| == |ns|
  {
    forall i :: 0 <= i < |p| ==> upper <= p[i] && p[i] % 2 == 0 && p[i] + NodeBytes(ns[i]) <= end
  }

  ghost predicate NoOverlap(p: seq<nat>, ns: seq<PageNode>)
    requires |p| == |ns|
  {
    forall i, j :: 0 <= i < |p| && 0 <= j < |p| && i != j ==> Clear(p[i], NodeBytes(ns[i]), p[j], NodeBytes(ns[j]))
  }

  lemma ClearAt(p: seq<nat>, ns: seq<PageNode>, i: nat, j: nat)
    requires |p| == |ns| && NoOverlap(p, ns) && i < |p| && j < |p| && i != j
    ensures Clear(p[i], NodeBytes(ns[i]), p[j], NodeBytes(ns[j]))
  {
    hide Clear, NodeBytes;
  }

  lemma NoneOverlap(p: seq<nat>, ns: seq<PageNode>)
    requires |p| == |ns|
    requires forall i, j :: 0 <= i < j < |p| ==> Clear(p[i], NodeBytes(ns[i]), p[j], NodeBytes(ns[j]))
    ensures NoOverlap(p, ns)
  {
    hide NodeBytes;
  }

  ghost function TotalBytes(ns: seq<PageNode>): nat {
    if ns == [] then 0 else NodeBytes(ns[0]) + TotalBytes(ns[1..])
  }

  /** The nodes lie in [upper, end), no two overlap, and together they are as long as that space: they tile it. */
  ghost predicate Tiled(p: seq<nat>, ns: seq<PageNode>, upper: nat, end: nat) {
    && |p| == |ns| && upper % 2 == 0
    && InBounds(p, ns, upper, end) && NoOverlap(p, ns)
    && upper + TotalBytes(ns) == end
  }

  lemma TilesClear(p: seq<nat>, ns: seq<PageNode>, upper: nat, end: nat, i: nat, j: nat)
    requires Tiled(p, ns, upper, end) && i < |p| && j < |p| && i != j
    ensures |p| == |ns| && Clear(p[i], NodeBytes(ns[i]), p[j], NodeBytes(ns[j]))
  {
    hide Clear, NodeBytes, NoOverlap, TotalBytes, InBounds;
    ClearAt(p, ns, i, j);
  }

  lemma {:induction false} TotalOfConcat(a: seq<PageNode>, c: seq<PageNode>)
    ensures TotalBytes(a + c) == TotalBytes(a) + TotalBytes(c)
  {
    if a == [] {
      assert a + c == c;
    } else {
      TotalOfConcat(a[1..], c);
      assert (a + c)[1..] == a[1..] + c;
    }
  }

  lemma TotalOfCons(n: PageNode, c: seq<PageNode>)
    ensures TotalBytes([n] + c) == NodeBytes(n) + TotalBytes(c)
  {
    hide NodeBytes;
    assert ([n] + c)[1..] == c;
  }

  lemma TotalAround(ns: seq<PageNode>, i: nat, n: PageNode)
    requires i <= |ns|
    ensures TotalBytes(ns[..i] + [n] + ns[i..]) == TotalBytes(ns) + NodeBytes(n)
  {
    hide NodeBytes, TotalBytes;
    TotalOfConcat(ns[..i], ns[i..]);
    assert ns == ns[..i] + ns[i..];
    assert ns[..i] + [n] + ns[i..] == ns[..i] + ([n] + ns[i..]);
    TotalOfConcat(ns[..i], [n] + ns[i..]);
    TotalOfCons(n, ns[i..]);
  }

  // ---- tiling leaves no byte out

  ghost function Range(from: nat, until: nat): (r: set<nat>)
    ensures forall x :: x in r <==> from <= x < until
    decreases until
  {
    if until <= from then {} else Range(from, until - 1) + {until - 1}
  }

  lemma {:induction false} RangeSize(from: nat, until: nat)
    requires from <= until
    ensures |Range(from, until)| == until - from
    decreases until
  {
    if from < until {
      RangeSize(from, until - 1);
    }
  }

  ghost function Used(p: seq<nat>, ns: seq<PageNode>): (r: set<nat>)
    requires |p| == |ns|
    ensures forall x :: x in r ==> exists i :: 0 <= i < |p| && p[i] <= x < p[i] + NodeBytes(ns[i])
  {
    if p == [] then {} else Range(p[0], p[0] + NodeBytes(ns[0])) + Used(p[1..], ns[1..])
  }

  lemma FirstApart(p: seq<nat>, ns: seq<PageNode>, upper: nat, end: nat)
    requires |p| == |ns| && p != [] && InBounds(p, ns, upper, end) && NoOverlap(p, ns)
    ensures InBounds(p[1..], ns[1..], upper, end) && NoOverlap(p[1..], ns[1..])
    ensures Range(p[0], p[0] + NodeBytes(ns[0])) * Used(p[1..], ns[1..]) == {}
    ensures upper <= p[0] && p[0] + NodeBytes(ns[0]) <= end
  {
    hide NodeBytes;
    forall x | x in Used(p[1..], ns[1..])
      ensures x !in Range(p[0], p[0] + NodeBytes(ns[0]))
    {
      var i :| 0 <= i < |p[1..]| && p[1..][i] <= x < p[1..][i] + NodeBytes(ns[1..][i]);
      ClearAt(p, ns, 0, i + 1);
    }
  }

  lemma {:induction false} UsedSize(p: seq<nat>, ns: seq<PageNode>, upper: nat, end: nat)
    requires |p| == |ns| && InBounds(p, ns, upper, end) && NoOverlap(p, ns)
    ensures |Used(p, ns)| == TotalBytes(ns) && Used(p, ns) <= Range(upper, end)
  {
    hide NodeBytes, InBounds, NoOverlap;
    if p != [] {
      RangeSize(p[0], p[0] + NodeBytes(ns[0]));
      FirstApart(p, ns, upper, end);
      UsedSize(p[1..], ns[1..], upper, end);
    }
  }

  lemma {:induction false} WholeSubset(a: set<nat>, c: set<nat>)
    requires a <= c && |a| == |c|
    ensures a == c
  {
    if x :| x in c && x !in a {
      assert a <= c - {x};
      SubsetSize(a, c - {x});
    }
  }

  lemma {:induction false} SubsetSize(a: set<nat>, c: set<nat>)
    requires a <= c
    ensures |a| <= |c|
  {
    if x :| x in a {
      SubsetSize(a - {x}, c - {x});
    }
  }

  lemma UsedIsAll(p: seq<nat>, ns: seq<PageNode>, upper: nat, end: nat)
    requires Tiled(p, ns, upper, end)
    ensures |p| == |ns| && upper <= end && Used(p, ns) == Range(upper, end)
  {
    hide NodeBytes, NoOverlap, InBounds, TotalBytes, Used, Range;
    UsedSize(p, ns, upper, end);
    RangeSize(upper, end);
    WholeSubset(Used(p, ns), Range(upper, end));
  }

  lemma CoveredBy(p: seq<nat>, ns: seq<PageNode>, upper: nat, end: nat, x: nat) returns (i: nat)
    requires Tiled(p, ns, upper, end) && upper <= x < end
    ensures |p| == |ns| && i < |p| && p[i] <= x < p[i] + NodeBytes(ns[i])
  {
    hide NodeBytes, Tiled;
    UsedIsAll(p, ns, upper, end);
    assert x in Used(p, ns);
    i :| 0 <= i < |p| && p[i] <= x < p[i] + NodeBytes(ns[i]);
  }

  /** Every byte from `upper` to the end of the page belongs to a node, and to one only. */
  lemma TilesCover(p: seq<nat>, ns: seq<PageNode>, upper: nat, end: nat, x: nat)
    requires Tiled(p, ns, upper, end) && upper <= x < end
    ensures |p| == |ns| && exists i :: 0 <= i < |p| && p[i] <= x < p[i] + NodeBytes(ns[i])
    ensures forall i, j :: 0 <= i < j < |p| ==>
      !(p[i] <= x < p[i] + NodeBytes(ns[i]) && p[j] <= x < p[j] + NodeBytes(ns[j]))
  {
    hide NodeBytes, NoOverlap, InBounds, Tiled;
    var i := CoveredBy(p, ns, upper, end, x);
    forall i, j | 0 <= i < j < |p|
      ensures !(p[i] <= x < p[i] + NodeBytes(ns[i]) && p[j] <= x < p[j] + NodeBytes(ns[j]))
    {
      TilesClear(p, ns, upper, end, i, j);
    }
  }

  // ---- a node put just below `upper`, its offset into slot `i`

  lemma AddedTiles(p: seq<nat>, ns: seq<PageNode>, upper: nat, end: nat, i: nat, n: PageNode)
    requires Tiled(p, ns, upper, end) && i <= |p| && NodeBytes(n) <= upper
    ensures Tiled(p[..i] + [upper - NodeBytes(n)] + p[i..], ns[..i] + [n] + ns[i..], upper - NodeBytes(n), end)
  {
    hide NodeBytes, TotalBytes, NoOverlap;
    TotalAround(ns, i, n);
    var ofs := upper - NodeBytes(n);
    var p2, ns2 := p[..i] + [ofs] + p[i..], ns[..i] + [n] + ns[i..];
    forall x, y | 0 <= x < y < |p2|
      ensures Clear(p2[x], NodeBytes(ns2[x]), p2[y], NodeBytes(ns2[y]))
    {
      if x != i && y != i {
        ClearAt(p, ns, if x < i then x else x - 1, if y < i then y else y - 1);
      }
    }
    NoneOverlap(p2, ns2);
    EvenBytes(n);
  }

  lemma EvenBytes(n: PageNode)
    ensures NodeBytes(n) % 2 == 0 && NodeBytes(n) >= NODESIZE
  {
  }

  lemma AddedStored(b: seq<byte>, b2: seq<byte>, p: seq<nat>, ns: seq<PageNode>, upper: nat, i: nat, n: PageNode, leaf: bool)
    requires Tiled(p, ns, upper, |b|) && Stored(b, p, ns, leaf) && i <= |p| && NodeBytes(n) <= upper
    requires SameBytes(b, b2, upper, |b|, 0) && Holds(b2, upper - NodeBytes(n), n, leaf)
    ensures Stored(b2, p[..i] + [upper - NodeBytes(n)] + p[i..], ns[..i] + [n] + ns[i..], leaf)
  {
    hide NodeBytes, TotalBytes, Holds, NoOverlap, SameBytes;
    forall x | 0 <= x < |p|
      ensures Holds(b2, p[x], ns[x], leaf)
    {
      MovedImage(b, b2, p[x], ns[x], upper, |b|, 0, leaf);
    }
  }

  // ---- slot `i` dropped, everything stored below its node slid up over it

  function Slid(o: nat, at: nat, size: nat): nat {
    if o < at then o + size else o
  }

  function Without<T>(s: seq<T>, i: nat): seq<T>
    requires i < |s|
  {
    s[..i] + s[i + 1..]
  }

  ghost predicate SlidPast(p: seq<nat>, p2: seq<nat>, i: nat, size: nat)
    requires i < |p|
  {
    |p2| == |p| - 1 && forall j :: 0 <= j < |p2| ==> p2[j] == Slid(Without(p, i)[j], p[i], size)
  }

  lemma HeldAt(b: seq<byte>, p: seq<nat>, ns: seq<PageNode>, x: nat, leaf: bool)
    requires Stored(b, p, ns, leaf) && x < |p|
    ensures |p| == |ns| && Holds(b, p[x], ns[x], leaf)
  {
    hide Holds;
  }

  lemma SameLengths(p: seq<nat>, p2: seq<nat>, ns: seq<PageNode>, upper: nat, end: nat, i: nat)
    requires Tiled(p, ns, upper, end) && i < |p| && SlidPast(p, p2, i, NodeBytes(ns[i]))
    ensures |p| == |ns| && |p2| == |p| - 1 == |Without(ns, i)|
  {
    hide NodeBytes, TotalBytes, NoOverlap, InBounds;
  }

  /** What a slot of the shorter slot array refers to. */
  lemma SlidSlot(p: seq<nat>, p2: seq<nat>, ns: seq<PageNode>, upper: nat, end: nat, i: nat, x: nat) returns (x0: nat)
    requires Tiled(p, ns, upper, end) && i < |p| && SlidPast(p, p2, i, NodeBytes(ns[i])) && x < |p2|
    ensures x0 == (if x < i then x else x + 1) < |p| && Without(ns, i)[x] == ns[x0]
    ensures p2[x] == Slid(p[x0], p[i], NodeBytes(ns[i]))
    ensures Clear(p[x0], NodeBytes(ns[x0]), p[i], NodeBytes(ns[i]))
    ensures upper <= p[x0] && p[x0] % 2 == 0 && p[x0] + NodeBytes(ns[x0]) <= end
    ensures upper <= p[i] && p[i] + NodeBytes(ns[i]) <= end
  {
    hide NodeBytes, TotalBytes, NoOverlap, Slid;
    x0 := if x < i then x else x + 1;
    ClearAt(p, ns, x0, i);
  }

  lemma RemovedInBounds(p: seq<nat>, p2: seq<nat>, ns: seq<PageNode>, upper: nat, end: nat, i: nat)
    requires Tiled(p, ns, upper, end) && i < |p| && SlidPast(p, p2, i, NodeBytes(ns[i]))
    ensures InBounds(p2, Without(ns, i), upper + NodeBytes(ns[i]), end)
  {
    hide NodeBytes, Without, SlidPast, Tiled;
    SameLengths(p, p2, ns, upper, end, i);
    EvenBytes(ns[i]);
    forall x | 0 <= x < |p2|
      ensures upper + NodeBytes(ns[i]) <= p2[x] && p2[x] % 2 == 0 && p2[x] + NodeBytes(Without(ns, i)[x]) <= end
    {
      var x0 := SlidSlot(p, p2, ns, upper, end, i, x);
    }
  }

  lemma RemovedApart(p: seq<nat>, p2: seq<nat>, ns: seq<PageNode>, upper: nat, end: nat, i: nat)
    requires Tiled(p, ns, upper, end) && i < |p| && SlidPast(p, p2, i, NodeBytes(ns[i]))
    ensures NoOverlap(p2, Without(ns, i))
  {
    hide NodeBytes, Without, SlidPast, Tiled;
    SameLengths(p, p2, ns, upper, end, i);
    forall x, y | 0 <= x < y < |p2|
      ensures Clear(p2[x], NodeBytes(Without(ns, i)[x]), p2[y], NodeBytes(Without(ns, i)[y]))
    {
      var x0 := SlidSlot(p, p2, ns, upper, end, i, x);
      var y0 := SlidSlot(p, p2, ns, upper, end, i, y);
      TilesClear(p, ns, upper, end, x0, y0);
    }
    NoneOverlap(p2, Without(ns, i));
  }

  lemma RemovedTiles(p: seq<nat>, p2: seq<nat>, ns: seq<PageNode>, upper: nat, end: nat, i: nat)
    requires Tiled(p, ns, upper, end) && i < |p| && SlidPast(p, p2, i, NodeBytes(ns[i]))
    ensures Tiled(p2, Without(ns, i), upper + NodeBytes(ns[i]), end)
  {
    hide NodeBytes, TotalBytes, NoOverlap, InBounds;
    var ns2 := Without(ns, i);
    TotalAround(ns2, i, ns[i]);
    assert ns2[..i] + [ns[i]] + ns2[i..] == ns;
    EvenBytes(ns[i]);
    RemovedInBounds(p, p2, ns, upper, end, i);
    RemovedApart(p, p2, ns, upper, end, i);
  }

  lemma SlidImage(b: seq<byte>, b2: seq<byte>, p: seq<nat>, p2: seq<nat>, ns: seq<PageNode>, upper: nat, i: nat, x: nat,
                  leaf: bool)
    requires Tiled(p, ns, upper, |b|) && Stored(b, p, ns, leaf)
    requires i < |p| && SlidPast(p, p2, i, NodeBytes(ns[i])) && x < |p2|
    requires SameBytes(b, b2, upper, p[i], NodeBytes(ns[i]))
    requires SameBytes(b, b2, p[i] + NodeBytes(ns[i]), |b|, 0)
    ensures Holds(b2, p2[x], Without(ns, i)[x], leaf)
  {
    hide NodeBytes, Holds, SameBytes, Tiled, Without, SlidPast, Stored;
    SameLengths(p, p2, ns, upper, |b|, i);
    var x0 := SlidSlot(p, p2, ns, upper, |b|, i, x);
    HeldAt(b, p, ns, x0, leaf);
    if p[x0] < p[i] {
      MovedImage(b, b2, p[x0], ns[x0], upper, p[i], NodeBytes(ns[i]), leaf);
    } else {
      MovedImage(b, b2, p[x0], ns[x0], p[i] + NodeBytes(ns[i]), |b|, 0, leaf);
    }
  }

  lemma RemovedStored(b: seq<byte>, b2: seq<byte>, p: seq<nat>, p2: seq<nat>, ns: seq<PageNode>, upper: nat, i: nat,
                      leaf: bool)
    requires Tiled(p, ns, upper, |b|) && Stored(b, p, ns, leaf)
    requires i < |p| && SlidPast(p, p2, i, NodeBytes(ns[i]))
    requires SameBytes(b, b2, upper, p[i], NodeBytes(ns[i]))
    requires SameBytes(b, b2, p[i] + NodeBytes(ns[i]), |b|, 0)
    ensures Stored(b2, p2, Without(ns, i), leaf)
  {
    hide NodeBytes, Holds, SameBytes, Tiled, Without, SlidPast;
    SameLengths(p, p2, ns, upper, |b|, i);
    forall x | 0 <= x < |p2|
      ensures Holds(b2, p2[x], Without(ns, i)[x], leaf)
    {
      SlidImage(b, b2, p, p2, ns, upper, i, x, leaf);
    }
  }

  // ---- node `i` replaced by one `delta` bytes longer, everything stored below it moved down by that much

  function Lowered(o: nat, at: nat, delta: int): int {
    if o <= at then o - delta else o
  }

  ghost predicate LoweredFrom(p: seq<nat>, p2: seq<nat>, i: nat, delta: int)
    requires i < |p|
  {
    |p2| == |p| && forall j :: 0 <= j < |p| ==> p2[j] == Lowered(p[j], p[i], delta)
  }

  lemma LoweredSlot(p: seq<nat>, p2: seq<nat>, ns: seq<PageNode>, upper: nat, end: nat, i: nat, delta: int, x: nat)
    requires Tiled(p, ns, upper, end) && i < |p| && LoweredFrom(p, p2, i, delta) && x < |p|
    ensures p2[x] == Lowered(p[x], p[i], delta)
    ensures x != i ==> Clear(p[x], NodeBytes(ns[x]), p[i], NodeBytes(ns[i]))
    ensures upper <= p[x] && p[x] % 2 == 0 && p[x] + NodeBytes(ns[x]) <= end
    ensures upper <= p[i] && p[i] + NodeBytes(ns[i]) <= end
  {
    hide NodeBytes, TotalBytes, NoOverlap, Lowered;
    if x != i { ClearAt(p, ns, x, i); }
  }

  lemma RekeyedInBounds(p: seq<nat>, p2: seq<nat>, ns: seq<PageNode>, upper: nat, end: nat, i: nat, n: PageNode)
    requires Tiled(p, ns, upper, end) && i < |p| && NodeBytes(n) <= upper + NodeBytes(ns[i])
    requires LoweredFrom(p, p2, i, NodeBytes(n) - NodeBytes(ns[i]))
    requires |p| == |ns| == |p2|
    ensures InBounds(p2, ns[i := n], upper - (NodeBytes(n) - NodeBytes(ns[i])), end)
  {
    hide NodeBytes, LoweredFrom, Tiled;
    EvenBytes(ns[i]);
    EvenBytes(n);
    var delta := NodeBytes(n) - NodeBytes(ns[i]);
    forall x | 0 <= x < |p2|
      ensures upper - delta <= p2[x] && p2[x] % 2 == 0 && p2[x] + NodeBytes(ns[i := n][x]) <= end
    {
      LoweredSlot(p, p2, ns, upper, end, i, delta, x);
    }
  }

  lemma RekeyedApart(p: seq<nat>, p2: seq<nat>, ns: seq<PageNode>, upper: nat, end: nat, i: nat, n: PageNode)
    requires Tiled(p, ns, upper, end) && i < |p| && NodeBytes(n) <= upper + NodeBytes(ns[i])
    requires LoweredFrom(p, p2, i, NodeBytes(n) - NodeBytes(ns[i]))
    requires |p| == |ns| == |p2|
    ensures NoOverlap(p2, ns[i := n])
  {
    hide NodeBytes, LoweredFrom, Tiled;
    EvenBytes(ns[i]);
    var delta := NodeBytes(n) - NodeBytes(ns[i]);
    forall x, y | 0 <= x < y < |p2|
      ensures Clear(p2[x], NodeBytes(ns[i := n][x]), p2[y], NodeBytes(ns[i := n][y]))
    {
      LoweredSlot(p, p2, ns, upper, end, i, delta, x);
      LoweredSlot(p, p2, ns, upper, end, i, delta, y);
      TilesClear(p, ns, upper, end, x, y);
    }
    NoneOverlap(p2, ns[i := n]);
  }

  lemma RekeyedTiles(p: seq<nat>, p2: seq<nat>, ns: seq<PageNode>, upper: nat, end: nat, i: nat, n: PageNode)
    requires Tiled(p, ns, upper, end) && i < |p| && NodeBytes(n) <= upper + NodeBytes(ns[i])
    requires LoweredFrom(p, p2, i, NodeBytes(n) - NodeBytes(ns[i]))
    ensures Tiled(p2, ns[i := n], upper - (NodeBytes(n) - NodeBytes(ns[i])), end)
  {
    hide NodeBytes, TotalBytes, NoOverlap, InBounds;
    var rest := Without(ns, i);
    TotalAround(rest, i, ns[i]);
    TotalAround(rest, i, n);
    assert rest[..i] + [ns[i]] + rest[i..] == ns;
    assert rest[..i] + [n] + rest[i..] == ns[i := n];
    EvenBytes(ns[i]);
    EvenBytes(n);
    RekeyedInBounds(p, p2, ns, upper, end, i, n);
    RekeyedApart(p, p2, ns, upper, end, i, n);
  }

  lemma LoweredImage(b: seq<byte>, b2: seq<byte>, p: seq<nat>, p2: seq<nat>, ns: seq<PageNode>, upper: nat, i: nat,
                     n: PageNode, x: nat, leaf: bool)
    requires Tiled(p, ns, upper, |b|) && Stored(b, p, ns, leaf)
    requires i < |p| && LoweredFrom(p, p2, i, NodeBytes(n) - NodeBytes(ns[i])) && x < |p| && x != i
    requires SameBytes(b, b2, upper, p[i], NodeBytes(ns[i]) - NodeBytes(n))
    requires SameBytes(b, b2, p[i] + NodeBytes(ns[i]), |b|, 0)
    requires |p| == |ns| == |p2|
    ensures Holds(b2, p2[x], ns[x], leaf)
  {
    hide NodeBytes, Holds, SameBytes, Tiled, LoweredFrom, Stored;
    var delta := NodeBytes(n) - NodeBytes(ns[i]);
    LoweredSlot(p, p2, ns, upper, |b|, i, delta, x);
    EvenBytes(ns[i]);
    HeldAt(b, p, ns, x, leaf);
    if p[x] <= p[i] {
      MovedImage(b, b2, p[x], ns[x], upper, p[i], -delta, leaf);
    } else {
      MovedImage(b, b2, p[x], ns[x], p[i] + NodeBytes(ns[i]), |b|, 0, leaf);
    }
  }

  lemma RekeyedStored(b: seq<byte>, b2: seq<byte>, p: seq<nat>, p2: seq<nat>, ns: seq<PageNode>, upper: nat, i: nat,
                      n: PageNode, leaf: bool)
    requires Tiled(p, ns, upper, |b|) && Stored(b, p, ns, leaf)
    requires i < |p| && LoweredFrom(p, p2, i, NodeBytes(n) - NodeBytes(ns[i]))
    requires SameBytes(b, b2, upper, p[i], NodeBytes(ns[i]) - NodeBytes(n))
    requires SameBytes(b, b2, p[i] + NodeBytes(ns[i]), |b|, 0)
    requires Holds(b2, p2[i], n, leaf)
    requires |p| == |ns| == |p2|
    ensures Stored(b2, p2, ns[i := n], leaf)
  {
    hide NodeBytes, Holds, SameBytes, Tiled, LoweredFrom;
    forall x | 0 <= x < |p| && x != i
      ensures Holds(b2, p2[x], ns[x], leaf)
    {
      LoweredImage(b, b2, p, p2, ns, upper, i, n, x, leaf);
    }
  }

  // ---- what a new node is asked to hold

  /** Data kept in the page, data already on an overflow run, or (on a branch page) a child page. */
  datatype Cargo = Inline(data: seq<byte>) | Elsewhere(size: nat, pgno: seq<byte>) | Child(page: nat)

  predicate FitsFields(cargo: Cargo, leaf: bool) {
    match cargo
    case Inline(data) => leaf && |data| < WORD * WORD
    case Elsewhere(size, pgno) => leaf && size < WORD * WORD && |pgno| == PGNOSIZE
    case Child(page) => !leaf && page < WORD * WORD * WORD
  }

  predicate TooLong(key: seq<byte>, cargo: Cargo, env: Env)
    requires env.Valid()
  {
    cargo.Inline? && NODESIZE + |key| + |cargo.data| > env.NodeMax()
  }

  /** Bytes the node takes on its page. */
  function Need(key: seq<byte>, cargo: Cargo, env: Env): nat
    requires env.Valid()
  {
    match cargo
    case Inline(data) => Even(NODESIZE + |key| + (if TooLong(key, cargo, env) then PGNOSIZE else |data|))
    case Elsewhere(_, _) => Even(NODESIZE + |key| + PGNOSIZE)
    case Child(_) => Even(NODESIZE + |key|)
  }

  /** What a reader of the node gets back: key, data length, and the data, the overflow page or the child page. */
  ghost predicate Carries(n: PageNode, key: seq<byte>, cargo: Cargo, flags: nat, newPage: seq<byte>, env: Env)
    requires env.Valid()
  {
    && n.key == key && n.lo < WORD && n.hi < WORD && n.flags < WORD
    && match cargo
       case Inline(data) =>
         && n.DataSize() == |data|
         && n.flags == (if TooLong(key, cargo, env) then flags + 1 else flags)
         && n.payload == (if TooLong(key, cargo, env) then newPage else data)
       case Elsewhere(size, pgno) =>
         n.DataSize() == size && n.flags == flags + 1 && n.payload == pgno
       case Child(page) =>
         n.ChildPage() == page && n.payload == []
  }

  /** The room mdb_node_add asks for is the room the tree's size accounting gives an entry. */
  lemma NeedIsLeafSize(e: Entry, env: Env)
    requires env.Valid() && (e.ovpages > 0 <==> TooLong(e.key, Inline(e.val), env))
    ensures Need(e.key, Inline(e.val), env) + SLOT == LeafSize(e)
  {
  }

  lemma HeldImage(b: seq<byte>, o: nat, n: PageNode, leaf: bool)
    requires o + NODESIZE + |n.key| + |n.payload| <= |b|
    requires Word16(b, o) == n.lo && Word16(b, o + 2) == n.hi && Word16(b, o + 4) == n.flags
    requires Word16(b, o + 6) == |n.key|
    requires b[o + NODESIZE..o + NODESIZE + |n.key|] == n.key
    requires b[o + NODESIZE + |n.key|..o + NODESIZE + |n.key| + |n.payload|] == n.payload
    requires |n.payload| == if !leaf then 0 else if n.BigData() then PGNOSIZE else n.DataSize()
    ensures Holds(b, o, n, leaf)
  {
    hide Word16;
  }

  lemma NodeFills(n: PageNode)
    ensures NODESIZE + |n.key| + |n.payload| <= NodeBytes(n)
  {
  }

  lemma SameTail(b: seq<byte>, b2: seq<byte>, from: nat)
    requires |b| == |b2| && from <= |b|
    requires forall k :: from <= k < |b| ==> b2[k] == b[k]
    ensures SameBytes(b, b2, from, |b|, 0)
  {
  }

  lemma SameMoved(b: seq<byte>, b2: seq<byte>, from: nat, until: nat, shift: int)
    requires |b| == |b2| && from <= until <= |b| && 0 <= from + shift && until + shift <= |b|
    requires forall k :: from + shift <= k < until + shift ==> b2[k] == b[k - (from + shift) + from]
    ensures SameBytes(b, b2, from, until, shift)
  {
  }

  lemma WithinPage(p: seq<nat>, ns: seq<PageNode>, upper: nat, end: nat, i: nat)
    requires Tiled(p, ns, upper, end) && i < |p|
    ensures |p| == |ns| && upper <= p[i] && p[i] + NodeBytes(ns[i]) <= end
  {
    hide NodeBytes, NoOverlap, TotalBytes;
  }

  lemma SizeRead(b: seq<byte>, p: seq<nat>, ns: seq<PageNode>, i: nat, leaf: bool)
    requires Stored(b, p, ns, leaf) && i < |p|
    ensures p[i] + NODESIZE <= |b|
    ensures NodeBytes(ns[i]) == Even(NODESIZE + Word16(b, p[i] + 6) + PayloadSize(b, p[i], leaf))
    ensures Word16(b, p[i] + 6) == |ns[i].key|
  {
    assert Holds(b, p[i], ns[i], leaf);
    hide Word16;
  }

  /** The node mdb_node_add writes for a request. */
  method Compose(key: seq<byte>, cargo: Cargo, flags: nat, newPage: seq<byte>, leaf: bool, env: Env)
    returns (n: PageNode)
    requires env.Valid() && FitsFields(cargo, leaf) && flags < WORD && flags % 2 == 0 && |newPage| == PGNOSIZE
    ensures Carries(n, key, cargo, flags, newPage, env)
    ensures NodeBytes(n) == Need(key, cargo, env)
    ensures |n.payload| == if !leaf then 0 else if n.BigData() then PGNOSIZE else n.DataSize()
  {
    match cargo {
      case Elsewhere(size, pgno) =>
        n := PageNode(size % WORD, size / WORD, flags + 1, key, pgno);
      case Inline(data) =>
        if NODESIZE + |key| + |data| > env.NodeMax() {
          n := PageNode(|data| % WORD, |data| / WORD, flags + 1, key, newPage);
        } else {
          n := PageNode(|data| % WORD, |data| / WORD, flags, key, data);
        }
      case Child(page) =>
        n := PageNode(page % WORD, page / WORD % WORD, page / WORD / WORD, key, []);
    }
  }

  lemma NeedIsBytes(n: PageNode, key: seq<byte>, cargo: Cargo, flags: nat, newPage: seq<byte>, env: Env)
    requires env.Valid() && Carries(n, key, cargo, flags, newPage, env) && |newPage| == PGNOSIZE
    requires cargo.Elsewhere? ==> |cargo.pgno| == PGNOSIZE
    ensures NodeBytes(n) == Need(key, cargo, env)
  {
  }

  lemma BranchBytes(b: seq<byte>, o: nat, n: PageNode, key: seq<byte>)
    requires Holds(b, o, n, false)
    ensures NodeBytes(n) == NODESIZE + Even(|n.key|) && NodeBytes(n.(key := key)) == NODESIZE + Even(|key|)
    ensures |key| <= Even(|key|)
  {
    hide Word16;
  }

  lemma AboveUpper(p: seq<nat>, ns: seq<PageNode>, upper: nat, end: nat)
    requires Tiled(p, ns, upper, end)
    ensures forall k :: 0 <= k < |p| ==> upper <= p[k]
  {
    hide NodeBytes, NoOverlap, TotalBytes;
  }

  lemma SlidSlots(was: seq<nat>, now: seq<nat>, i: nat, count: nat, size: nat)
    requires |now| == |was| && i < count <= |was|
    requires forall k :: 0 <= k < count - 1 ==> now[k] == Slid(was[if k < i then k else k + 1], was[i], size)
    ensures SlidPast(was[..count], now[..count - 1], i, size)
  {
    hide Slid;
  }

  lemma LoweredOwn(p: seq<nat>, p2: seq<nat>, i: nat, delta: int)
    requires i < |p| && LoweredFrom(p, p2, i, delta)
    ensures |p2| == |p| && p2[i] == p[i] - delta
  {
  }

  lemma SameSlots(p: seq<nat>, i: nat)
    requires i < |p|
    ensures LoweredFrom(p, p, i, 0)
  {
  }

  lemma WordKept(b: seq<byte>, b2: seq<byte>, o: nat)
    requires |b| == |b2| && o + 2 <= |b| && b[o] == b2[o] && b[o + 1] == b2[o + 1]
    ensures Word16(b2, o) == Word16(b, o)
  {
  }

  predicate InKeyField(k: int, o: int, len: nat) {
    o + 6 <= k < o + NODESIZE + len
  }

  lemma RekeyedRest(b: seq<byte>, moved: seq<byte>, b2: seq<byte>, upper: nat, ptr: nat, delta: int, end: nat, len: nat)
    requires upper <= ptr && 0 <= upper - delta && ptr + NODESIZE <= end <= |b|
    requires SameBytes(b, moved, upper, ptr + NODESIZE, -delta) && SameBytes(b, moved, end, |b|, 0)
    requires |b2| == |b| && ptr - delta + NODESIZE + len <= end
    requires forall k :: 0 <= k < |b2| && !InKeyField(k, ptr - delta, len) ==> b2[k] == moved[k]
    ensures SameBytes(b, b2, upper, ptr, -delta) && SameBytes(b, b2, end, |b|, 0)
  {
  }

  lemma RekeyedImage(b: seq<byte>, moved: seq<byte>, b2: seq<byte>, upper: nat, ptr: nat, delta: int,
                     n: PageNode, key: seq<byte>)
    requires upper <= ptr && SameBytes(b, moved, upper, ptr + NODESIZE, -delta)
    requires |b2| == |b| && ptr - delta + NODESIZE + |key| <= |b|
    requires forall k :: 0 <= k < |b2| && !InKeyField(k, ptr - delta, |key|) ==> b2[k] == moved[k]
    requires Word16(b2, ptr - delta + 6) == |key|
    requires b2[ptr - delta + NODESIZE..ptr - delta + NODESIZE + |key|] == key
    requires Holds(b, ptr, n, false)
    ensures Holds(b2, ptr - delta, n.(key := key), false)
  {
    hide Word16, SameBytes;
    SameWord(b, moved, ptr, upper, ptr + NODESIZE, -delta);
    SameWord(b, moved, ptr + 2, upper, ptr + NODESIZE, -delta);
    SameWord(b, moved, ptr + 4, upper, ptr + NODESIZE, -delta);
    BytesKept(b, moved, upper, ptr + NODESIZE, -delta);
    WordKept(moved, b2, ptr - delta);
    WordKept(moved, b2, ptr - delta + 2);
    WordKept(moved, b2, ptr - delta + 4);
  }

  lemma KeyRead(b: seq<byte>, p: seq<nat>, ns: seq<PageNode>, upper: nat, i: nat, key: seq<byte>)
    requires Tiled(p, ns, upper, |b|) && Stored(b, p, ns, false) && i < |p|
    ensures |p| == |ns| && upper <= p[i] && p[i] + NODESIZE + Even(|ns[i].key|) <= |b|
    ensures Word16(b, p[i] + 6) == |ns[i].key| && |key| <= Even(|key|)
  {
    hide Word16, Tiled, Stored, Holds, NodeBytes, Even;
    SizeRead(b, p, ns, i, false);
    WithinPage(p, ns, upper, |b|, i);
    HeldAt(b, p, ns, i, false);
    BranchBytes(b, p[i], ns[i], key);
  }

  /** A branch page after a node's header and all bytes below it have slid by `delta` and the new key is written. */
  lemma Rekeyed(b: seq<byte>, moved: seq<byte>, b2: seq<byte>, p: seq<nat>, p2: seq<nat>, ns: seq<PageNode>, upper: nat,
                i: nat, key: seq<byte>, delta: int)
    requires Tiled(p, ns, upper, |b|) && Stored(b, p, ns, false) && i < |p| == |ns|
    requires delta == Even(|key|) - Even(|ns[i].key|) && delta <= upper && LoweredFrom(p, p2, i, delta)
    requires SameBytes(b, moved, upper, p[i] + NODESIZE, -delta)
    requires SameBytes(b, moved, p[i] + NODESIZE + Even(|ns[i].key|), |b|, 0)
    requires |b2| == |b| && 0 <= p[i] - delta && p[i] - delta + NODESIZE + |key| <= |b| == |moved|
    requires forall k :: 0 <= k < |b2| && !InKeyField(k, p[i] - delta, |key|) ==> b2[k] == moved[k]
    requires Word16(b2, p[i] - delta + 6) == |key|
    requires b2[p[i] - delta + NODESIZE..p[i] - delta + NODESIZE + |key|] == key
    ensures Tiled(p2, ns[i := ns[i].(key := key)], upper - delta, |b|)
    ensures Stored(b2, p2, ns[i := ns[i].(key := key)], false)
  {
    hide Word16, Tiled, Stored, Holds, NodeBytes, Even, SameBytes, LoweredFrom;
    var n, n2 := ns[i], ns[i].(key := key);
    WithinPage(p, ns, upper, |b|, i);
    HeldAt(b, p, ns, i, false);
    BranchBytes(b, p[i], n, key);
    LoweredOwn(p, p2, i, delta);
    RekeyedRest(b, moved, b2, upper, p[i], delta, p[i] + NODESIZE + Even(|n.key|), |key|);
    RekeyedImage(b, moved, b2, upper, p[i], delta, n, key);
    RekeyedTiles(p, p2, ns, upper, |b|, i, n2);
    RekeyedStored(b, b2, p, p2, ns, upper, i, n2, false);
  }

  lemma BytesKept(b: seq<byte>, b2: seq<byte>, from: nat, until: nat, shift: int)
    requires SameBytes(b, b2, from, until, shift)
    ensures |b| == |b2| && 0 <= from + shift
  {
  }

  class Page {
    const env: Env
    const leaf: bool
    const bytes: array<byte>
    const ptrs: array<nat>
    var lower: nat
    var upper: nat
    ghost var nodes: seq<PageNode>

    ghost predicate Valid()
      reads this, bytes, ptrs
    {
      && env.Valid()
      && bytes.Length == env.psize && ptrs.Length == (env.psize - PAGEHDRSZ) / SLOT
      && lower == PAGEHDRSZ + SLOT * |nodes| && lower <= upper <= env.psize
      && Tiled(ptrs[..|nodes|], nodes, upper, env.psize)
      && Stored(bytes[..], ptrs[..|nodes|], nodes, leaf)
    }

    function SizeLeft(): int
      reads this
    {
      upper - lower
    }

    constructor (env: Env, leaf: bool)
      requires env.Valid()
      ensures Valid() && fresh(bytes) && fresh(ptrs) && this.env == env && this.leaf == leaf
      ensures nodes == [] && SizeLeft() == env.psize - PAGEHDRSZ
    {
      this.env, this.leaf := env, leaf;
      bytes := new byte[env.psize];
      ptrs := new nat[(env.psize - PAGEHDRSZ) / SLOT];
      lower, upper := PAGEHDRSZ, env.psize;
      nodes := [];
    }

    /** memmove within the page: the ranges may overlap, so the copy runs away from the overlap. */
    method MoveBytes(dst: nat, src: nat, len: nat)
      requires dst + len <= bytes.Length && src + len <= bytes.Length
      modifies bytes
      ensures forall k :: 0 <= k < bytes.Length ==>
        bytes[k] == if dst <= k < dst + len then old(bytes[k - dst + src]) else old(bytes[k])
    {
      if dst <= src {
        for x := 0 to len
          invariant forall k :: 0 <= k < bytes.Length ==>
            bytes[k] == if dst <= k < dst + x then old(bytes[k - dst + src]) else old(bytes[k])
        {
          bytes[dst + x] := bytes[src + x];
        }
      } else {
        for x := len downto 0
          invariant forall k :: 0 <= k < bytes.Length ==>
            bytes[k] == if dst + x <= k < dst + len then old(bytes[k - dst + src]) else old(bytes[k])
        {
          bytes[dst + x] := bytes[src + x];
        }
      }
    }

    /** Slides [from, until) by `shift`; nothing from `tail` on changes. */
    method MoveBlock(from: nat, until: nat, shift: int, tail: nat)
      requires from <= until <= bytes.Length && 0 <= from + shift && until + shift <= tail <= bytes.Length
      modifies bytes
      ensures SameBytes(old(bytes[..]), bytes[..], from, until, shift)
      ensures SameBytes(old(bytes[..]), bytes[..], tail, bytes.Length, 0)
    {
      MoveBytes(from + shift, from, until - from);
    }

    method PutWord(o: nat, w: nat)
      requires o + 2 <= bytes.Length && w < WORD
      modifies bytes
      ensures Word16(bytes[..], o) == w
      ensures forall k :: 0 <= k < bytes.Length && k != o && k != o + 1 ==> bytes[k] == old(bytes[k])
    {
      bytes[o] := w % 256;
      bytes[o + 1] := w / 256;
    }

    method CopyIn(o: nat, s: seq<byte>)
      requires o + |s| <= bytes.Length
      modifies bytes
      ensures bytes[o..o + |s|] == s
      ensures forall k :: 0 <= k < bytes.Length && !(o <= k < o + |s|) ==> bytes[k] == old(bytes[k])
    {
      for x := 0 to |s|
        invariant bytes[o..o + x] == s[..x]
        invariant forall k :: 0 <= k < bytes.Length && !(o <= k < o + x) ==> bytes[k] == old(bytes[k])
      {
        bytes[o + x] := s[x];
      }
    }

    method WriteKey(o: nat, key: seq<byte>)
      requires o + NODESIZE + |key| <= bytes.Length && |key| < WORD
      modifies bytes
      ensures Word16(bytes[..], o + 6) == |key| && bytes[..][o + NODESIZE..o + NODESIZE + |key|] == key
      ensures forall k :: 0 <= k < bytes.Length && !InKeyField(k, o, |key|) ==> bytes[k] == old(bytes[k])
    {
      PutWord(o + 6, |key|);
      CopyIn(o + NODESIZE, key);
    }

    method WriteNode(o: nat, n: PageNode)
      requires o + NODESIZE + |n.key| + |n.payload| <= bytes.Length
      requires n.lo < WORD && n.hi < WORD && n.flags < WORD && |n.key| < WORD
      requires |n.payload| == if !leaf then 0 else if n.BigData() then PGNOSIZE else n.DataSize()
      modifies bytes
      ensures Holds(bytes[..], o, n, leaf)
      ensures forall k :: 0 <= k < bytes.Length && !(o <= k < o + NODESIZE + |n.key| + |n.payload|) ==>
        bytes[k] == old(bytes[k])
    {
      hide Holds;
      PutWord(o + 6, |n.key|);
      PutWord(o + 4, n.flags);
      PutWord(o, n.lo);
      PutWord(o + 2, n.hi);
      CopyIn(o + NODESIZE, n.key);
      ghost var keyed := bytes[..];
      CopyIn(o + NODESIZE + |n.key|, n.payload);
      assert bytes[..][o + NODESIZE..o + NODESIZE + |n.key|] == keyed[o + NODESIZE..o + NODESIZE + |n.key|];
      HeldImage(bytes[..], o, n, leaf);
    }

    /** Slots from `indx` up move one place higher; the freed one gets `ofs`. */
    method OpenSlot(indx: nat, count: nat, ofs: nat)
      requires indx <= count < ptrs.Length
      modifies ptrs
      ensures ptrs[..count + 1] == old(ptrs[..indx]) + [ofs] + old(ptrs[indx..count])
    {
      ghost var was := ptrs[..];
      var i := count;
      while i > indx
        invariant indx <= i <= count
        invariant forall k :: 0 <= k <= i ==> ptrs[k] == was[k]
        invariant forall k :: i <= k < count ==> ptrs[k + 1] == was[k]
      {
        ptrs[i] := ptrs[i - 1];
        i := i - 1;
      }
      ptrs[indx] := ofs;
    }

    /** Slot `indx` goes; offsets below the dropped node's rise by its size. */
    method CloseSlot(indx: nat, count: nat, size: nat)
      requires indx < count <= ptrs.Length
      modifies ptrs
      ensures SlidPast(old(ptrs[..count]), ptrs[..count - 1], indx, size)
    {
      hide SlidPast;
      ghost var was := ptrs[..];
      var ptr := ptrs[indx];
      var i, j := 0, 0;
      while i < count
        invariant 0 <= i <= count && j == if i <= indx then i else i - 1
        invariant forall k :: i <= k < count ==> ptrs[k] == was[k]
        invariant forall k :: 0 <= k < j ==> ptrs[k] == Slid(was[if k < indx then k else k + 1], ptr, size)
      {
        if i != indx {
          var o := ptrs[i];
          ptrs[j] := o;
          if o < ptr {
            ptrs[j] := ptrs[j] + size;
          }
          j := j + 1;
        }
        i := i + 1;
      }
      SlidSlots(was, ptrs[..], indx, count, size);
    }

    /** Offsets up to that of slot `indx` drop by `delta`. */
    method LowerSlots(indx: nat, count: nat, delta: int)
      requires indx < count <= ptrs.Length
      requires forall k :: 0 <= k < count ==> delta <= ptrs[k]
      modifies ptrs
      ensures LoweredFrom(old(ptrs[..count]), ptrs[..count], indx, delta)
    {
      ghost var was := ptrs[..];
      var ptr := ptrs[indx];
      for i := 0 to count
        invariant forall k :: i <= k < count ==> ptrs[k] == was[k]
        invariant forall k :: 0 <= k < i ==> ptrs[k] == Lowered(was[k], ptr, delta)
      {
        if ptrs[i] <= ptr {
          ptrs[i] := ptrs[i] - delta;
        }
      }
    }

    /** mdb_node_add. `newPage` is the page number an overflow allocation would return. */
    method AddNode(indx: nat, key: seq<byte>, cargo: Cargo, flags: nat, newPage: seq<byte>) returns (full: bool)
      requires Valid() && indx <= |nodes|
      requires FitsFields(cargo, leaf) && flags < WORD && flags % 2 == 0 && |newPage| == PGNOSIZE
      modifies this, bytes, ptrs
      ensures Valid()
      ensures full <==> old(SizeLeft()) < Need(key, cargo, env) + SLOT
      ensures full ==> nodes == old(nodes) && SizeLeft() == old(SizeLeft()) && bytes[..] == old(bytes[..])
      ensures !full ==> SizeLeft() == old(SizeLeft()) - Need(key, cargo, env) - SLOT
      ensures !full ==> |nodes| == old(|nodes|) + 1 && Carries(nodes[indx], key, cargo, flags, newPage, env)
      ensures !full ==> nodes == old(nodes[..indx]) + [nodes[indx]] + old(nodes[indx..])
    {
      hide Tiled, Stored, Carries, FitsFields;
      var room := SizeLeft() - SLOT;
      var n := Compose(key, cargo, flags, newPage, leaf, env);
      NodeFills(n);
      hide NodeBytes, Need;
      full := NodeBytes(n) > room;
      if !full {
        Insert(indx, n);
      }
    }

    method Insert(indx: nat, n: PageNode)
      requires Valid() && indx <= |nodes| && NodeBytes(n) + SLOT <= SizeLeft()
      requires n.lo < WORD && n.hi < WORD && n.flags < WORD
      requires |n.payload| == if !leaf then 0 else if n.BigData() then PGNOSIZE else n.DataSize()
      modifies this, bytes, ptrs
      ensures Valid() && nodes == old(nodes[..indx]) + [n] + old(nodes[indx..])
      ensures SizeLeft() == old(SizeLeft()) - NodeBytes(n) - SLOT
    {
      hide Tiled, Stored, Holds, NodeBytes, SameBytes;
      ghost var b, p := bytes[..], ptrs[..|nodes|];
      var ofs := upper - NodeBytes(n);
      NodeFills(n);
      assert p[..indx] == ptrs[..indx] && p[indx..] == ptrs[indx..|nodes|];
      OpenSlot(indx, (lower - PAGEHDRSZ) / SLOT, ofs);
      assert ptrs[..|nodes| + 1] == p[..indx] + [ofs] + p[indx..];
      WriteNode(ofs, n);
      SameTail(b, bytes[..], upper);
      AddedTiles(p, nodes, upper, env.psize, indx, n);
      AddedStored(b, bytes[..], p, nodes, upper, indx, n, leaf);
      upper := ofs;
      lower := lower + SLOT;
      nodes := nodes[..indx] + [n] + nodes[indx..];
    }

    /** mdb_node_del. */
    method DelNode(indx: nat)
      requires Valid() && indx < |nodes|
      modifies this, bytes, ptrs
      ensures Valid() && nodes == Without(old(nodes), indx)
      ensures SizeLeft() == old(SizeLeft()) + NodeBytes(old(nodes[indx])) + SLOT
    {
      hide Tiled, Stored, NodeBytes, SameBytes, SlidPast, Word16, PayloadSize, Even;
      ghost var b, p := bytes[..], ptrs[..|nodes|];
      var ptr := ptrs[indx];
      SizeRead(b, p, nodes, indx, leaf);
      WithinPage(p, nodes, upper, env.psize, indx);
      var size := Even(NODESIZE + Word16(bytes[..], ptr + 6) + PayloadSize(bytes[..], ptr, leaf));
      CloseSlot(indx, (lower - PAGEHDRSZ) / SLOT, size);
      MoveBlock(upper, ptr, size, ptr + size);
      RemovedTiles(p, ptrs[..|nodes| - 1], nodes, upper, env.psize, indx);
      RemovedStored(b, bytes[..], p, ptrs[..|nodes| - 1], nodes, upper, indx, leaf);
      lower := lower - SLOT;
      upper := upper + size;
      nodes := Without(nodes, indx);
    }

    /** Makes room for node `indx`'s key to grow by `delta`: its header and all nodes stored below it move down. */
    method ShiftNodes(indx: nat, oksize: nat, delta: int)
      requires Valid() && indx < |nodes| && delta <= SizeLeft() && -delta <= oksize
      requires ptrs[indx] + NODESIZE + oksize <= env.psize
      modifies bytes, ptrs
      ensures LoweredFrom(old(ptrs[..|nodes|]), ptrs[..|nodes|], indx, delta)
      ensures SameBytes(old(bytes[..]), bytes[..], upper, old(ptrs[indx]) + NODESIZE, -delta)
      ensures SameBytes(old(bytes[..]), bytes[..], old(ptrs[indx]) + NODESIZE + oksize, env.psize, 0)
    {
      hide Tiled, Stored, SameBytes, LoweredFrom;
      ghost var b, p := bytes[..], ptrs[..|nodes|];
      var ptr := ptrs[indx];
      AboveUpper(p, nodes, upper, env.psize);
      assert p[indx] == ptr;
      if delta != 0 {
        LowerSlots(indx, (lower - PAGEHDRSZ) / SLOT, delta);
        MoveBlock(upper, ptr + NODESIZE, -delta, ptr + NODESIZE + oksize);
      } else {
        SameSlots(p, indx);
        SameTail(b, b, ptr + NODESIZE + oksize);
        SameMoved(b, b, upper, ptr + NODESIZE, 0);
      }
    }

    /** mdb_update_key on a branch page, up to the point where a key that does not fit is left to a split. */
    method UpdateKey(indx: nat, key: seq<byte>) returns (fits: bool)
      requires Valid() && indx < |nodes| && !leaf && |key| < WORD
      modifies this, bytes, ptrs
      ensures Valid()
      ensures fits <==> Even(|key|) - Even(|old(nodes[indx]).key|) <= old(SizeLeft())
      ensures fits ==> nodes == old(nodes)[indx := old(nodes[indx]).(key := key)]
      ensures fits ==> SizeLeft() == old(SizeLeft()) - (Even(|key|) - Even(|old(nodes[indx]).key|))
      ensures !fits ==> nodes == old(nodes) && SizeLeft() == old(SizeLeft()) && bytes[..] == old(bytes[..])
    {
      hide Tiled, Stored, NodeBytes, SameBytes, LoweredFrom, Word16, PayloadSize, Even, Holds;
      ghost var b, p := bytes[..], ptrs[..|nodes|];
      var ptr := ptrs[indx];
      KeyRead(b, p, nodes, upper, indx, key);
      var ksize, oksize := Even(|key|), Even(Word16(bytes[..], ptr + 6));
      var delta: int := ksize as int - oksize as int;
      if delta > 0 && SizeLeft() < delta {
        return false;
      }
      ShiftNodes(indx, oksize, delta);
      ghost var moved := bytes[..];
      WriteKey(ptr - delta, key);
      Rekeyed(b, moved, bytes[..], p, ptrs[..|nodes|], nodes, upper, indx, key, delta);
      upper := upper - delta;
      nodes := nodes[indx := nodes[indx].(key := key)];
      return true;
    }

    /** A node added and then deleted again leaves the page's nodes and its free space as they were. */
    method AddThenDelete(indx: nat, key: seq<byte>, cargo: Cargo, flags: nat, newPage: seq<byte>) returns (full: bool)
      requires Valid() && indx <= |nodes|
      requires FitsFields(cargo, leaf) && flags < WORD && flags % 2 == 0 && |newPage| == PGNOSIZE
      modifies this, bytes, ptrs
      ensures Valid() && nodes == old(nodes) && SizeLeft() == old(SizeLeft())
    {
      hide Tiled, Stored, Carries, NodeBytes, Need;
      full := AddNode(indx, key, cargo, flags, newPage);
      if !full {
        NeedIsBytes(nodes[indx], key, cargo, flags, newPage, env);
        DelNode(indx);
        assert nodes == old(nodes);
      }
    }
  }
}
