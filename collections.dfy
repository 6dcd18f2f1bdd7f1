/** Sequence facts shared by several source files. The source's
    `Array.from(new Set(xs))` keeps the first occurrence of each element in
    insertion order; `Dedupe` is that operation. */
module Collections {

  predicate NoDup<T(==)>(xs: seq<T>) {
    forall i, j :: 0 <= i < j < |xs| ==> xs[i] != xs[j]
  }

  /** Position of the first occurrence of `x`. */
  function FirstIndex<T(==)>(xs: seq<T>, x: T): (k: nat)
    requires x in xs
    ensures k < |xs| && xs[k] == x
    ensures forall j :: 0 <= j < k ==> xs[j] != x
  {
    if xs[0] == x then 0 else 1 + FirstIndex(xs[1..], x)
  }

  /** `Array.from(new Set(xs))`: elements are inserted one by one, and an
      element already in the set is skipped. */
  function Dedupe<T(==)>(xs: seq<T>): (r: seq<T>)
    ensures NoDup(r)
    ensures forall k :: 0 <= k < |r| ==> r[k] in xs
    ensures forall k :: 0 <= k < |xs| ==> xs[k] in r
    ensures |r| <= |xs|
  {
    if xs == [] then []
    else
      var d := Dedupe(xs[..|xs| - 1]);
      var x := xs[|xs| - 1];
      if x in d then d else d + [x]
  }

  /** Regrouping a concatenation of three sequences. */
  lemma AppendAssoc<T>(a: seq<T>, b: seq<T>, c: seq<T>)
    ensures a + (b + c) == a + b + c
  {
  }

  /** Inserting one more element: nothing changes if it is already present,
      otherwise it goes at the end. */
  lemma DedupeSnoc<T>(xs: seq<T>, x: T)
    ensures Dedupe(xs + [x]) == if x in xs then Dedupe(xs) else Dedupe(xs) + [x]
  {
    assert (xs + [x])[..|xs|] == xs;
  }

  /** A sequence without duplicates is its own deduplication. */
  lemma {:induction false} DedupeNoDup<T>(xs: seq<T>)
    requires NoDup(xs)
    ensures Dedupe(xs) == xs
  {
    if xs != [] {
      var p := xs[..|xs| - 1];
      assert NoDup(p);
      DedupeNoDup(p);
      assert xs[|xs| - 1] !in p;
      assert p + [xs[|xs| - 1]] == xs;
    }
  }

  /** Deduplicating twice is deduplicating once. */
  lemma DedupeIdempotent<T>(xs: seq<T>)
    ensures Dedupe(Dedupe(xs)) == Dedupe(xs)
  {
    DedupeNoDup(Dedupe(xs));
  }

  lemma FirstIndexPrefix<T>(xs: seq<T>, m: nat, x: T)
    requires m <= |xs| && x in xs[..m]
    ensures FirstIndex(xs[..m], x) == FirstIndex(xs, x)
  {
    var k1 := FirstIndex(xs[..m], x);
    var k2 := FirstIndex(xs, x);
    assert xs[k1] == x;
    assert k2 <= k1;
    assert xs[..m][k2] == x;
  }

  /** First-seen order: the elements of the result appear in the order of
      their first occurrences in the input. */
  lemma {:induction false} DedupeOrder<T>(xs: seq<T>, i: nat, j: nat)
    requires i < j < |Dedupe(xs)|
    ensures FirstIndex(xs, Dedupe(xs)[i]) < FirstIndex(xs, Dedupe(xs)[j])
  {
    var p := xs[..|xs| - 1];
    var x := xs[|xs| - 1];
    var d := Dedupe(p);
    assert xs == p + [x];
    var r := Dedupe(xs);
    assert r[i] in d;
    FirstIndexPrefix(xs, |p|, r[i]);
    if j < |d| {
      assert r[j] == d[j] && r[i] == d[i];
      DedupeOrder(p, i, j);
      FirstIndexPrefix(xs, |p|, r[j]);
    } else {
      assert r[j] == x && x !in p;
    }
  }
}
