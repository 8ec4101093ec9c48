/** Byte strings and the engine's default key order: bytewise, then shorter first. */
module Keys {
  type byte = b: int | 0 <= b < 256
  type Key = seq<byte>

  datatype Option<+T> = None | Some(value: T)

  /** The key order of mdb_cmp_memn: memcmp over the common length, then the lengths. */
  predicate Less(a: Key, b: Key) {
    b != [] && (a == [] || a[0] < b[0] || (a[0] == b[0] && Less(a[1..], b[1..])))
  }

  predicate AtMost(a: Key, b: Key) {
    a == b || Less(a, b)
  }

  /** The two agree up to `i`, where the first one ends or has the smaller byte. */
  predicate Precedes(a: Key, b: Key, i: nat) {
    i <= |a| && i < |b| && (forall j :: 0 <= j < i ==> a[j] == b[j]) && (i < |a| ==> a[i] < b[i])
  }

  lemma LessIs(a: Key, b: Key)
    ensures Less(a, b) <==> exists i :: Precedes(a, b, i)
  {
    if Less(a, b) { var i := Difference(a, b); }
    if i: nat :| Precedes(a, b, i) { ByDifference(a, b, i); }
  }

  lemma {:induction false} Difference(a: Key, b: Key) returns (i: nat)
    requires Less(a, b)
    ensures Precedes(a, b, i)
  {
    i := 0;
    if a != [] && a[0] == b[0] {
      i := Difference(a[1..], b[1..]);
      i := i + 1;
      forall j | 0 < j < i ensures a[j] == b[j] { assert a[1..][j-1] == b[1..][j-1]; }
    }
  }

  lemma {:induction false} ByDifference(a: Key, b: Key, i: nat)
    requires Precedes(a, b, i)
    ensures Less(a, b)
    decreases i
  {
    if i > 0 {
      ByDifference(a[1..], b[1..], i - 1);
    }
  }

  lemma {:induction false} LessIrreflexive(a: Key)
    ensures !Less(a, a)
  {
    if a != [] { LessIrreflexive(a[1..]); }
  }

  lemma {:induction false} LessTransitive(a: Key, b: Key, c: Key)
    requires Less(a, b) && Less(b, c)
    ensures Less(a, c)
  {
    if a != [] && a[0] == b[0] && b[0] == c[0] {
      LessTransitive(a[1..], b[1..], c[1..]);
    }
  }

  lemma LessAsymmetric(a: Key, b: Key)
    requires Less(a, b)
    ensures !Less(b, a)
  {
    LessIrreflexive(a);
    if Less(b, a) { LessTransitive(a, b, a); }
  }

  lemma {:induction false} LessTotal(a: Key, b: Key)
    ensures Less(a, b) || a == b || Less(b, a)
  {
    if a != [] && b != [] && a[0] == b[0] {
      LessTotal(a[1..], b[1..]);
      assert a == [a[0]] + a[1..] && b == [b[0]] + b[1..];
    }
  }

  /** The comparison function returns a sign; a loop over the common bytes, then the length difference. */
  method CompareKeys(a: Key, b: Key) returns (sign: int)
    ensures sign < 0 <==> Less(a, b)
    ensures sign == 0 <==> a == b
    ensures sign > 0 <==> Less(b, a)
  {
    var n := if |a| < |b| then |a| else |b|;
    var i := 0;
    while i < n && a[i] == b[i]
      invariant 0 <= i <= n
      invariant a[..i] == b[..i]
      invariant Less(a, b) == Less(a[i..], b[i..])
      invariant Less(b, a) == Less(b[i..], a[i..])
    {
      assert a[i..][1..] == a[i+1..] && b[i..][1..] == b[i+1..];
      i := i + 1;
    }
    LessIrreflexive(a);
    if i < n {
      sign := a[i] as int - b[i] as int;
    } else {
      sign := if |a| < |b| then -1 else if |a| > |b| then 1 else 0;
      if |a| == |b| {
        assert a == a[..i] == b;
      }
    }
  }
}
