/** The doubly linked child list of arrays and objects: the first item's `prev` is the last one (cJSON.c). */
module ChildList {

  /** What `next` of the item at place `i` must be. */
  ghost function NextIn(s: seq<Node>, i: nat): Node?
    requires i < |s|
  {
    if i + 1 < |s| then s[i+1] else null
  }

  /** What `prev` of the item at place `i` must be: the last item for the first one. */
  ghost function PrevIn(s: seq<Node>, i: nat): Node?
    requires i < |s|
  {
    if i > 0 then s[i-1] else s[|s|-1]
  }

  ghost predicate Distinct(s: seq<Node>) {
    forall i, j :: 0 <= i < j < |s| ==> s[i] != s[j]
  }

  lemma DistinctInsert(s: seq<Node>, w: nat, x: Node)
    requires Distinct(s) && x !in s && w <= |s|
    ensures Distinct(s[..w] + [x] + s[w..])
  {
  }

  lemma DistinctRemove(s: seq<Node>, w: nat)
    requires Distinct(s) && w < |s|
    ensures Distinct(s[..w] + s[w+1..]) && s[w] !in s[..w] + s[w+1..]
    ensures forall i :: 0 <= i < |s| && i != w ==> s[i] != s[w]
  {
  }

  lemma DistinctReplace(s: seq<Node>, w: nat, x: Node)
    requires Distinct(s) && x !in s && w < |s|
    ensures Distinct(s[w := x])
  {
  }

  lemma Apart(s: seq<Node>, i: nat, j: nat)
    requires Distinct(s) && i < |s| && j < |s|
    ensures s[i] == s[j] <==> i == j
  {
  }

  /** Links around an inserted item. */
  lemma InsertedLinks(s: seq<Node>, w: nat, x: Node, i: nat)
    requires w < |s| && i <= |s|
    ensures var k := s[..w] + [x] + s[w..];
            if i < w then
              k[i] == s[i] && NextIn(k, i) == (if i + 1 == w then x else NextIn(s, i)) && PrevIn(k, i) == PrevIn(s, i)
            else if i == w then
              k[i] == x && NextIn(k, i) == s[w] && PrevIn(k, i) == PrevIn(s, w)
            else
              k[i] == s[i-1] && NextIn(k, i) == NextIn(s, i - 1) && PrevIn(k, i) == (if i - 1 == w then x else PrevIn(s, i - 1))
  {
  }

  /** Links around a replaced item. */
  lemma ReplacedLinks(s: seq<Node>, at: nat, x: Node, i: nat)
    requires at < |s| && i < |s|
    ensures var k := s[at := x];
            && NextIn(k, i) == (if i + 1 == at then x else NextIn(s, i))
            && PrevIn(k, i) == (if i == at + 1 || (i == 0 && at == |s| - 1) then x else PrevIn(s, i))
  {
  }

  lemma Neighbours(s: seq<Node>, i: nat)
    requires i < |s|
    ensures NextIn(s, i) == (if i + 1 < |s| then s[i+1] else null)
    ensures PrevIn(s, i) == (if i > 0 then s[i-1] else s[|s|-1])
  {
  }

  class Node {
    var next: Node?
    var prev: Node?
    var child: Node?
    ghost var kids: seq<Node>

    constructor ()
      ensures ListOK() && kids == [] && next == null && prev == null
    {
      next, prev, child, kids := null, null, null, [];
    }

    ghost predicate Linked(i: nat)
      requires i < |kids|
      reads this, kids
    {
      kids[i].next == NextIn(kids, i) && kids[i].prev == PrevIn(kids, i)
    }

    /** The links of the children agree with their order. */
    ghost predicate ListOK()
      reads this, kids
    {
      && this !in kids && Distinct(kids)
      && (kids == [] ==> child == null) && (kids != [] ==> child == kids[0])
      && forall i :: 0 <= i < |kids| ==> Linked(i)
    }

    /** Append an item (add_item_to_array); the list itself is refused. */
    method Add(item: Node) returns (ok: bool)
      requires ListOK() && item !in kids
      modifies `child, `kids, kids`next, kids`prev, item`next, item`prev
      ensures ok == (item != this)
      ensures !ok ==> kids == old(kids) && ListOK()
      ensures ok ==> ListOK() && kids == old(kids) + [item]
    {
      if item == this {
        return false;
      }
      ok := true;
      ghost var s := kids;
      assert s != [] ==> Linked(0) && Linked(|s|-1);
      if child == null {
        child := item;
        item.prev := item;
        item.next := null;
      } else if child.prev != null {
        var last := child.prev;
        last.next := item;
        item.prev := last;
        item.next := null;
        child.prev := item;
      }
      kids := kids + [item];
      forall i | 0 <= i < |kids| ensures Linked(i) {
        assert i < |s| ==> old(Linked(i));
      }
    }

    /** The item at a position, found by following `next`; null past the end (get_array_item). */
    method Get(index: nat) returns (item: Node?)
      requires ListOK()
      ensures index < |kids| ==> item == kids[index]
      ensures index >= |kids| ==> item == null
    {
      item := child;
      var left := index;
      while item != null && left > 0
        invariant 0 <= left <= index
        invariant index - left < |kids| ==> item == kids[index - left]
        invariant index - left >= |kids| ==> item == null
      {
        assert Linked(index - left);
        left := left - 1;
        item := item.next;
      }
    }

    /** Insert before a position, or append when there is none such (cJSON_InsertItemInArray). */
    method Insert(which: int, item: Node) returns (ok: bool)
      requires ListOK() && item !in kids && item != this
      modifies `child, `kids, kids`next, kids`prev, item`next, item`prev
      ensures ok == (which >= 0)
      ensures !ok ==> kids == old(kids) && ListOK()
      ensures ok ==> ListOK()
      ensures ok ==> kids == if which < |old(kids)| then old(kids)[..which] + [item] + old(kids)[which..] else old(kids) + [item]
    {
      if which < 0 {
        return false;
      }
      hide NextIn, PrevIn, Distinct;
      var after := Get(which);
      if after == null {
        ok := Add(item);
        return;
      }
      ghost var s, w: nat := kids, which;
      DistinctInsert(s, w, item);
      DistinctRemove(s, w);
      Neighbours(s, w);
      assert Linked(w) && Linked(0) && (w > 0 ==> Linked(w - 1));
      item.next := after;
      item.prev := after.prev;
      after.prev := item;
      if after == child {
        assert w == 0;
        child := item;
      } else {
        item.prev.next := item;
      }
      kids := s[..w] + [item] + s[w..];
      forall i | 0 <= i < |s|
        ensures s[i].next == (if i + 1 == w then item else old(s[i].next))
        ensures s[i].prev == (if i == w then item else old(s[i].prev))
      {
      }
      forall i | 0 <= i < |kids| ensures Linked(i) {
        InsertedLinks(s, w, item, i);
        assert i < w ==> old(Linked(i));
        assert i > w ==> old(Linked(i - 1));
      }
      ok := true;
    }

    /** Take an item out (cJSON_DetachItemViaPointer). */
    method Detach(item: Node, ghost at: nat)
      requires ListOK() && at < |kids| && kids[at] == item
      modifies `child, `kids, kids`next, kids`prev
      ensures ListOK() && kids == old(kids)[..at] + old(kids)[at+1..] && item !in kids
      ensures item.next == null && item.prev == null
    {
      ghost var s, n := kids, |kids|;
      DistinctRemove(s, at);
      assert Linked(at) && Linked(0) && Linked(n - 1);
      assert at > 0 ==> Linked(at - 1);
      assert at + 1 < n ==> Linked(at + 1);
      if item != child {
        item.prev.next := item.next;
      }
      if item.next != null {
        item.next.prev := item.prev;
      }
      if item == child {
        child := item.next;
      } else if item.next == null {
        child.prev := item.prev;
      }
      item.prev := null;
      item.next := null;
      kids := s[..at] + s[at+1..];
      forall i | 0 <= i < |kids| ensures Linked(i) {
        assert kids[i] == s[if i < at then i else i + 1];
        assert old(Linked(if i < at then i else i + 1));
      }
    }

    /** Put another item in the place of one (cJSON_ReplaceItemViaPointer). */
    method Replace(item: Node, replacement: Node, ghost at: nat)
      requires ListOK() && at < |kids| && kids[at] == item
      requires replacement == item || (replacement !in kids && replacement != this)
      modifies `child, `kids, kids`next, kids`prev, replacement`next, replacement`prev
      ensures ListOK() && kids == old(kids)[at := replacement]
      ensures replacement != item ==> item.next == null && item.prev == null
    {
      hide NextIn, PrevIn, Distinct;
      if replacement == item {
        return;
      }
      ghost var s, n := kids, |kids|;
      DistinctRemove(s, at);
      DistinctReplace(s, at, replacement);
      Neighbours(s, at);
      Neighbours(s, 0);
      assert Linked(at) && Linked(0) && Linked(n - 1);
      assert at > 0 ==> Linked(at - 1);
      assert at + 1 < n ==> Linked(at + 1);
      replacement.next := item.next;
      replacement.prev := item.prev;
      if replacement.next != null {
        replacement.next.prev := replacement;
      }
      if child == item {
        if child.prev == child {
          replacement.prev := replacement;
        }
        child := replacement;
      } else {
        if replacement.prev != null {
          replacement.prev.next := replacement;
        }
        if replacement.next == null {
          child.prev := replacement;
        }
      }
      item.next := null;
      item.prev := null;
      kids := s[at := replacement];
      forall i | 0 <= i < n && i != at
        ensures s[i].next == (if i + 1 == at then replacement else old(s[i].next))
        ensures s[i].prev == (if i == at + 1 || (i == 0 && at == n - 1) then replacement else old(s[i].prev))
      {
        Apart(s, i, at);
        Apart(s, i, 0);
        if at > 0 { Apart(s, i, at - 1); }
        if at + 1 < n { Apart(s, i, at + 1); }
      }
      forall i | 0 <= i < n ensures Linked(i) {
        ReplacedLinks(s, at, replacement, i);
        assert old(Linked(i)) && (i != at ==> kids[i] == s[i]);
      }
    }
  }
}
