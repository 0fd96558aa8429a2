/** Small facts about sequences of catalogue positions: duplicate-freedom,
    ordering, JavaScript's `indexOf`, order-preserving filters and the
    cardinality arguments the reveal state machine needs. */
module Seqs {

  predicate NoDups(s: seq<nat>) {
    forall i, j :: 0 <= i < j < |s| ==> s[i] != s[j]
  }

  predicate StrictlyAscending(s: seq<nat>) {
    forall i, j :: 0 <= i < j < |s| ==> s[i] < s[j]
  }

  /** Every element of `s` is a position of a catalogue of `n` entries. */
  predicate AllBelow(s: seq<nat>, n: nat) {
    forall i :: 0 <= i < |s| ==> s[i] < n
  }

  function Elems(s: seq<nat>): set<nat> {
    set x | x in s
  }

  /** The positions of a catalogue of `n` entries, the set form. */
  function Positions(n: nat): set<nat> {
    Elems(Range(n))
  }

  /** The positions `0, 1, ..., n - 1` in ascending order. */
  function Range(n: nat): (r: seq<nat>)
    ensures |r| == n
    ensures forall i :: 0 <= i < n ==> r[i] == i
    ensures forall x: int :: x in r <==> 0 <= x < n
  {
    if n == 0 then [] else Range(n - 1) + [n - 1]
  }

  /** JavaScript's `Array.prototype.indexOf`: the first position of `x`, or -1. */
  function IndexOf(s: seq<nat>, x: nat): (r: int)
    ensures -1 <= r < |s|
    ensures r == -1 <==> x !in s
    ensures r != -1 ==> s[r] == x && forall i :: 0 <= i < r ==> s[i] != x
  {
    if s == [] then -1
    else if s[0] == x then 0
    else
      var t := IndexOf(s[1..], x);
      if t == -1 then -1 else t + 1
  }

  /** `xs.filter(x => !r.includes(x))`: the elements of `xs` missing from `r`, in order. */
  function Without(xs: seq<nat>, r: seq<nat>): (w: seq<nat>)
    ensures |w| <= |xs|
    ensures forall x :: x in w <==> x in xs && x !in r
  {
    if xs == [] then []
    else
      var rest := Without(xs[1..], r);
      if xs[0] in r then rest else [xs[0]] + rest
  }

  /** Filtering keeps the order of what it keeps. */
  lemma {:induction false} WithoutAscending(xs: seq<nat>, r: seq<nat>)
    requires StrictlyAscending(xs)
    ensures StrictlyAscending(Without(xs, r))
  {
    if xs != [] {
      WithoutAscending(xs[1..], r);
      var rest := Without(xs[1..], r);
      forall j | 0 <= j < |rest| ensures xs[0] < rest[j] {
        assert rest[j] in xs[1..];
      }
    }
  }

  /** Nothing is left when every element is removed. */
  lemma {:induction false} WithoutAll(xs: seq<nat>, r: seq<nat>)
    requires forall x :: x in xs ==> x in r
    ensures Without(xs, r) == []
  {
    if xs != [] {
      WithoutAll(xs[1..], r);
    }
  }

  /** Filtering one more element at the end. */
  lemma {:induction false} WithoutSnoc(xs: seq<nat>, x: nat, r: seq<nat>)
    ensures Without(xs + [x], r) == Without(xs, r) + (if x in r then [] else [x])
  {
    if xs == [] {
      assert xs + [x] == [x];
    } else {
      assert (xs + [x])[1..] == xs[1..] + [x];
      WithoutSnoc(xs[1..], x, r);
    }
  }

  lemma WithoutBelow(xs: seq<nat>, r: seq<nat>, n: nat)
    requires AllBelow(xs, n)
    ensures AllBelow(Without(xs, r), n)
  {
    var w := Without(xs, r);
    forall i | 0 <= i < |w| ensures w[i] < n {
      assert w[i] in xs;
      var j :| 0 <= j < |xs| && xs[j] == w[i];
    }
  }

  /** `xs.filter(x => s.has(x))`: the elements of `xs` that belong to `s`, in order. */
  function Keep(xs: seq<nat>, s: set<nat>): (w: seq<nat>)
    ensures |w| <= |xs|
    ensures forall x :: x in w <==> x in xs && x in s
  {
    if xs == [] then []
    else
      var rest := Keep(xs[1..], s);
      if xs[0] in s then [xs[0]] + rest else rest
  }

  lemma ElemsSnoc(s: seq<nat>, x: nat)
    ensures Elems(s + [x]) == Elems(s) + {x}
  {
  }

  /** Appending new, distinct elements keeps a sequence duplicate-free. */
  lemma NoDupsAppend(a: seq<nat>, b: seq<nat>)
    requires NoDups(a) && NoDups(b)
    requires forall x :: x in b ==> x !in a
    ensures NoDups(a + b)
  {
    forall i, j | 0 <= i < j < |a + b| ensures (a + b)[i] != (a + b)[j] {
      if j >= |a| && i < |a| {
        assert (a + b)[j] == b[j - |a|] && (a + b)[i] == a[i];
        assert b[j - |a|] in b;
      }
    }
  }

  /** A duplicate-free sequence has as many elements as its set. */
  lemma {:induction false} NoDupsCard(s: seq<nat>)
    requires NoDups(s)
    ensures |Elems(s)| == |s|
  {
    if s != [] {
      var t := s[..|s| - 1];
      var last := s[|s| - 1];
      NoDupsCard(t);
      assert s == t + [last];
      assert Elems(s) == Elems(t) + {last};
      assert last !in Elems(t);
    }
  }

  lemma {:induction false} PositionsCard(n: nat)
    ensures |Positions(n)| == n
  {
    if n > 0 {
      PositionsCard(n - 1);
      assert Range(n) == Range(n - 1) + [n - 1];
      assert Positions(n) == Positions(n - 1) + {n - 1};
      assert n - 1 !in Positions(n - 1);
    }
  }

  lemma PositionsBelow(n: nat)
    ensures forall x: nat :: x in Positions(n) <==> x < n
  {
    forall x: nat ensures x in Positions(n) <==> x < n {
      if x < n { assert Range(n)[x] == x; }
    }
  }

  lemma SubsetSameCard(a: set<nat>, b: set<nat>)
    requires a <= b && |a| == |b|
    ensures a == b
  {
    assert a * b == a;
    assert |b - a| == 0;
  }

  /** For a duplicate-free sequence of positions below `n`, having `n`
      elements is the same as containing every position below `n`. */
  lemma FullIffCovers(s: seq<nat>, n: nat)
    requires NoDups(s) && AllBelow(s, n)
    ensures |s| == n <==> forall i :: 0 <= i < n ==> i in s
  {
    NoDupsCard(s);
    PositionsCard(n);
    forall x | x in Elems(s) ensures x in Positions(n) {
      assert Range(n)[x] == x;
    }
    if |s| == n {
      SubsetSameCard(Elems(s), Positions(n));
      forall i | 0 <= i < n ensures i in s {
        assert Range(n)[i] == i;
        assert i in Positions(n);
      }
    }
    if forall i :: 0 <= i < n ==> i in s {
      forall x | x in Positions(n) ensures x in Elems(s) {
        assert x in Range(n);
      }
      assert Positions(n) <= Elems(s);
      assert Elems(s) == Positions(n);
    }
  }
}
