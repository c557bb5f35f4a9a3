/** Small facts about sequences shared by the other modules. */
module Seqs {
  import opened Wrappers

  predicate Distinct<T(==)>(s: seq<T>) {
    forall i, j :: 0 <= i < j < |s| ==> s[i] != s[j]
  }

  predicate StrictlyAscending(s: seq<nat>) {
    forall i, j :: 0 <= i < j < |s| ==> s[i] < s[j]
  }

  /** The set of elements of a sequence. */
  function Elems<T>(s: seq<T>): set<T> {
    set x | x in s
  }

  /** Number of elements of `s` satisfying `p`. */
  function CountIf<T>(s: seq<T>, p: T -> bool): (n: nat)
    ensures n <= |s|
  {
    if |s| == 0 then 0
    else CountIf(s[..|s| - 1], p) + (if p(s[|s| - 1]) then 1 else 0)
  }

  /** The positions of the elements of `s` satisfying `p`, in order: the indices an
      `enumerate` loop with an `if p(...)` filter visits. */
  function Positions<T>(s: seq<T>, p: T -> bool): (r: seq<nat>)
    ensures |r| == CountIf(s, p)
    ensures forall k :: 0 <= k < |r| ==> r[k] < |s|
  {
    if |s| == 0 then []
    else Positions(s[..|s| - 1], p) + (if p(s[|s| - 1]) then [|s| - 1] else [])
  }

  /** The positions are ascending and are exactly those whose element satisfies `p`. */
  lemma {:induction false} PositionsSpec<T>(s: seq<T>, p: T -> bool)
    ensures StrictlyAscending(Positions(s, p))
    ensures forall x: nat :: x in Positions(s, p) <==> x < |s| && p(s[x])
  {
    if |s| > 0 {
      var init := s[..|s| - 1];
      PositionsSpec(init, p);
      forall x: nat | x < |init| ensures init[x] == s[x] { }
    }
  }

  /** `set(range(n))`. */
  function Range(n: nat): (s: set<nat>)
    ensures forall x: nat :: x in s <==> x < n
  {
    if n == 0 then {} else Range(n - 1) + {n - 1}
  }

  /** The ascending sequence of the members of `s` below `n` (Python's `sorted(s)` for a set of indices). */
  function Ascending(n: nat, s: set<nat>): (r: seq<nat>)
    ensures StrictlyAscending(r)
    ensures forall x :: x in r <==> x < n && x in s
    ensures forall k :: 0 <= k < |r| ==> r[k] < n
  {
    if n == 0 then []
    else Ascending(n - 1, s) + (if n - 1 in s then [n - 1] else [])
  }

  /** The elements of `xs` that are not in `drop`, in their original order. */
  function Without(xs: seq<nat>, drop: seq<nat>): (r: seq<nat>)
    ensures forall x :: x in r <==> x in xs && x !in drop
  {
    if |xs| == 0 then []
    else (if xs[0] in drop then [] else [xs[0]]) + Without(xs[1..], drop)
  }

  /** Dropping elements keeps an ascending sequence ascending. */
  lemma {:induction false} WithoutAscending(xs: seq<nat>, drop: seq<nat>)
    requires StrictlyAscending(xs)
    ensures StrictlyAscending(Without(xs, drop))
  {
    if |xs| > 0 {
      var rest := Without(xs[1..], drop);
      WithoutAscending(xs[1..], drop);
      forall j | 0 <= j < |rest| ensures xs[0] < rest[j] {
        assert rest[j] in xs[1..];
      }
    }
  }

  /** `|set(s)| == |s|` for a duplicate-free sequence. */
  lemma {:induction false} DistinctCardinality<T>(s: seq<T>)
    requires Distinct(s)
    ensures |Elems(s)| == |s|
  {
    if |s| > 0 {
      var init := s[..|s| - 1];
      DistinctCardinality(init);
      assert Elems(s) == Elems(init) + {s[|s| - 1]};
      assert s[|s| - 1] !in init;
    }
  }

  /** Partitioning `0..n` between two complementary sets splits its size. */
  lemma {:induction false} AscendingSplit(n: nat, a: set<nat>, b: set<nat>)
    requires forall x: nat :: x < n ==> (x in a <==> x !in b)
    ensures |Ascending(n, a)| + |Ascending(n, b)| == n
  {
    if n > 0 {
      AscendingSplit(n - 1, a, b);
    }
  }

  /** The ascending positions below `n` outside `b` and those inside `b` together number `n`. */
  lemma AscendingComplement(n: nat, b: set<nat>, outside: seq<nat>)
    requires StrictlyAscending(outside)
    requires forall x: nat :: x in outside <==> x < n && x !in b
    ensures |outside| + |Ascending(n, b)| == n
  {
    var rest := Range(n) - b;
    SameAscending(outside, Ascending(n, rest));
    AscendingSplit(n, rest, b);
  }

  /** A strictly ascending sequence has the cardinality of its element set. */
  lemma AscendingCardinality(s: seq<nat>)
    requires StrictlyAscending(s)
    ensures |Elems(s)| == |s|
  {
    assert Distinct(s);
    DistinctCardinality(s);
  }

  /** Two strictly ascending index sequences with the same elements are equal. */
  lemma {:induction false} SameAscending(xs: seq<nat>, ys: seq<nat>)
    requires StrictlyAscending(xs) && StrictlyAscending(ys)
    requires forall x :: x in xs <==> x in ys
    ensures xs == ys
  {
    assert |xs| > 0 ==> xs[0] in ys;
    assert |ys| > 0 ==> ys[0] in xs;
    if |xs| > 0 && |ys| > 0 {
      assert xs[0] == ys[0] by {
        var i :| 0 <= i < |ys| && ys[i] == xs[0];
        var j :| 0 <= j < |xs| && xs[j] == ys[0];
        assert ys[0] <= ys[i] && xs[0] <= xs[j];
      }
      forall x ensures x in xs[1..] <==> x in ys[1..] {
        if x in xs[1..] {
          var k :| 1 <= k < |xs| && xs[k] == x;
          assert x in ys && x != ys[0];
          var m :| 0 <= m < |ys| && ys[m] == x;
          assert ys[1..][m - 1] == x;
        }
        if x in ys[1..] {
          var k :| 1 <= k < |ys| && ys[k] == x;
          assert x in xs && x != xs[0];
          var m :| 0 <= m < |xs| && xs[m] == x;
          assert xs[1..][m - 1] == x;
        }
      }
      SameAscending(xs[1..], ys[1..]);
      assert xs == [xs[0]] + xs[1..] && ys == [ys[0]] + ys[1..];
    }
  }

  /** Two duplicate-free sequences with no common element concatenate to a duplicate-free one. */
  lemma DistinctConcat<T>(xs: seq<T>, ys: seq<T>)
    requires Distinct(xs) && Distinct(ys)
    requires forall i, j :: 0 <= i < |xs| && 0 <= j < |ys| ==> xs[i] != ys[j]
    ensures Distinct(xs + ys)
  {
    forall i, j | 0 <= i < j < |xs + ys| ensures (xs + ys)[i] != (xs + ys)[j] {
      if j < |xs| {
        assert (xs + ys)[i] == xs[i] && (xs + ys)[j] == xs[j];
      } else if i < |xs| {
        assert (xs + ys)[i] == xs[i] && (xs + ys)[j] == ys[j - |xs|];
      } else {
        assert (xs + ys)[i] == ys[i - |xs|] && (xs + ys)[j] == ys[j - |xs|];
      }
    }
  }

  /** The position of the first element satisfying `p`, if any. */
  function FirstIndex<T>(s: seq<T>, p: T -> bool): (r: Option<nat>)
    ensures r.None? <==> forall i :: 0 <= i < |s| ==> !p(s[i])
    ensures r.Some? ==> r.value < |s| && p(s[r.value]) && forall i :: 0 <= i < r.value ==> !p(s[i])
  {
    if |s| == 0 then None
    else if p(s[0]) then Some(0)
    else match FirstIndex(s[1..], p)
      case None => None
      case Some(k) => Some(k + 1)
  }
}
