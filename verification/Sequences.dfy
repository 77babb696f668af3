/** The elements of a sequence, and strictly ascending sequences of numbers. */
module Sequences {
  function Elements<T>(s: seq<T>): (r: set<T>) {
    set x | x in s
  }

  ghost predicate StrictlyAscending(s: seq<nat>) {
    forall i, j | 0 <= i < j < |s| :: s[i] < s[j]
  }

  lemma FirstIsMember(s: seq<nat>)
    ensures s != [] ==> s[0] in s
  {
  }

  /** A strictly ascending sequence is determined by its elements. */
  lemma {:induction false} AscendingUnique(a: seq<nat>, b: seq<nat>)
    requires StrictlyAscending(a) && StrictlyAscending(b)
    requires forall i: nat :: i in a <==> i in b
    ensures a == b
  {
    if a == [] {
      FirstIsMember(b);
    } else {
      assert a[|a| - 1] in b;
      var m, n := |a| - 1, |b| - 1;
      assert b[n] in a;
      assert a[m] == b[n];
      forall i: nat ensures i in a[..m] <==> i in b[..n] {
        assert i in a[..m] <==> i in a && i != a[m];
        assert i in b[..n] <==> i in b && i != b[n];
      }
      AscendingUnique(a[..m], b[..n]);
      assert a == a[..m] + [a[m]] && b == b[..n] + [b[n]];
    }
  }

  /** A greater element may follow. */
  lemma AppendAscends(s: seq<nat>, x: nat)
    requires StrictlyAscending(s) && forall k: nat :: k in s ==> k < x
    ensures StrictlyAscending(s + [x])
    ensures forall k: nat :: k in s + [x] <==> k in s || k == x
  {
    forall i | 0 <= i < |s| ensures s[i] < x {
      assert s[i] in s;
    }
  }

  /** The numbers below `n`. */
  function Range(n: nat): (r: seq<nat>)
    ensures |r| == n && StrictlyAscending(r)
    ensures forall i | 0 <= i < n :: r[i] == i
    ensures forall i: nat :: i in r <==> i < n
  {
    if n == 0 then [] else Range(n - 1) + [n - 1]
  }

  /** Adds a key in its place, as a `BTreeMap` does. */
  function InsertKey(r: seq<nat>, x: nat): (q: seq<nat>)
    requires StrictlyAscending(r)
    ensures StrictlyAscending(q)
    ensures forall i: nat :: i in q <==> i in r || i == x
  {
    if r == [] || r[|r| - 1] < x then r + [x]
    else if r[|r| - 1] == x then r
    else
      var last := r[|r| - 1];
      var q := InsertKey(r[..|r| - 1], x);
      assert r == r[..|r| - 1] + [last];
      assert forall i | 0 <= i < |q| :: q[i] in q;
      q + [last]
  }
}
