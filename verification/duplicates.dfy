/**
 * `find_duplicates`: record indices grouped by stripped question text, keeping only the
 * texts that occur more than once, in the order each text was first met.
 */
module Duplicates {
  import opened Seqs
  import opened Text
  import opened Records
  import opened Grouping

  /** A duplicate group: the shared question text and the indices holding it. */
  type Group = Bucket<string, nat>

  /** No question is `null` (`None.strip()` would raise). */
  predicate QuestionsAreText(records: seq<Record>) {
    forall i :: 0 <= i < |records| ==> !records[i].question.Null?
  }

  /** `q.get('question', '').strip()`. */
  function QuestionKey(r: Record): string
    requires !r.question.Null?
  {
    match r.question
    case Val(q) => Strip(q)
    case _ => ""
  }

  function QuestionKeys(records: seq<Record>): (keys: seq<string>)
    requires QuestionsAreText(records)
    ensures |keys| == |records|
    ensures forall i :: 0 <= i < |records| ==> keys[i] == QuestionKey(records[i])
  {
    seq(|records|, i requires 0 <= i < |records| && QuestionsAreText(records) => QuestionKey(records[i]))
  }

  /** `g` holds, in ascending order, exactly the positions of `keys` equal to its text,
      and there are at least two of them. */
  ghost predicate IsGroupOf(keys: seq<string>, g: Group) {
    && |g.items| >= 2
    && StrictlyAscending(g.items)
    && (forall x: nat :: x in g.items <==> x < |keys| && keys[x] == g.key)
  }

  /** The specification of `find_duplicates`' result. */
  ghost predicate WellGrouped(keys: seq<string>, groups: seq<Group>) {
    // every entry is a true duplicate group of its text
    && (forall a :: 0 <= a < |groups| ==> IsGroupOf(keys, groups[a]))
    // one entry per text
    && Distinct(BucketKeys(groups))
    // every repeated text has an entry
    && (forall i, j :: 0 <= i < j < |keys| && keys[i] == keys[j] ==> keys[i] in BucketKeys(groups))
    // entries in the order their text was first met
    && (forall a, c :: 0 <= a < c < |groups| ==> groups[a].items[0] < groups[c].items[0])
  }

  /** The `if len(indices) > 1` filter of the dictionary comprehension. */
  function Repeated(b: seq<Group>): (r: seq<Group>)
    ensures |r| <= |b|
  {
    if |b| == 0 then []
    else Repeated(b[..|b| - 1]) + (if |b[|b| - 1].items| > 1 then [b[|b| - 1]] else [])
  }

  /** The filter keeps exactly the buckets with more than one value. */
  lemma {:induction false} RepeatedMembers(b: seq<Group>)
    ensures forall g :: g in Repeated(b) <==> g in b && |g.items| > 1
  {
    if |b| > 0 {
      var init := b[..|b| - 1];
      RepeatedMembers(init);
      assert b == init + [b[|b| - 1]];
    }
  }

  /** The filter picks a subsequence: its entries sit at ascending positions of `b`. */
  lemma {:induction false} RepeatedPositions(b: seq<Group>) returns (pos: seq<nat>)
    ensures |pos| == |Repeated(b)| && StrictlyAscending(pos)
    ensures forall k :: 0 <= k < |pos| ==> pos[k] < |b| && Repeated(b)[k] == b[pos[k]]
  {
    if |b| == 0 {
      return [];
    }
    var n := |b| - 1;
    var init := b[..n];
    var p0 := RepeatedPositions(init);
    var r0 := Repeated(init);
    var r := Repeated(b);
    forall k | 0 <= k < |p0| ensures p0[k] < n && r0[k] == b[p0[k]] {
      assert init[p0[k]] == b[p0[k]];
    }
    if |b[n].items| > 1 {
      pos := p0 + [n];
      assert r == r0 + [b[n]];
      forall k | 0 <= k < |pos| ensures pos[k] < |b| && r[k] == b[pos[k]] {
        if k < |p0| {
          assert pos[k] == p0[k] && r[k] == r0[k];
        }
      }
    } else {
      pos := p0;
      assert r == r0;
    }
  }

  /** The filter keeps the buckets in their order. */
  lemma RepeatedOrdered(b: seq<Group>)
    requires forall a, c :: 0 <= a < c < |b| ==> FirstBefore(b[a], b[c])
    ensures var r := Repeated(b); forall a, c :: 0 <= a < c < |r| ==> FirstBefore(r[a], r[c])
  {
    var r := Repeated(b);
    var pos := RepeatedPositions(b);
    forall a, c | 0 <= a < c < |r| ensures FirstBefore(r[a], r[c]) {
      assert r[a] == b[pos[a]] && r[c] == b[pos[c]] && pos[a] < pos[c];
    }
  }

  predicate FirstBefore(g: Group, h: Group) {
    |g.items| > 0 && |h.items| > 0 && g.items[0] < h.items[0]
  }

  /** `find_duplicates` over the stripped texts. */
  function DuplicateGroups(keys: seq<string>): (groups: seq<Group>)
    ensures WellGrouped(keys, groups)
  {
    var pairs := Indexed(keys);
    var b := GroupBy(pairs);
    GroupBySpec(pairs);
    GroupByFirstSeen(pairs, (x: nat) => x as int);
    forall a | 0 <= a < |b| ensures b[a].items == ValuesFor(pairs, b[a].key) {
      PositionsOf(keys, b[a].key);
    }
    assert forall a, c :: 0 <= a < c < |b| ==> FirstBefore(b[a], b[c]);
    assert forall j :: 0 <= j < |keys| ==> keys[j] == pairs[j].0;
    var groups := Repeated(b);
    RepeatedOrdered(b);
    GroupsAreGroups(keys, b, groups);
    groups
  }

  /** What `GroupBySpec` and `PositionsOf` establish about the buckets of `Indexed(keys)`. */
  ghost predicate BucketsOf(keys: seq<string>, b: seq<Group>) {
    && Distinct(BucketKeys(b))
    && (forall a :: 0 <= a < |b| ==> b[a].items == ValuesFor(Indexed(keys), b[a].key) && |b[a].items| > 0)
    && (forall j :: 0 <= j < |keys| ==> keys[j] in BucketKeys(b))
    && (forall a, c :: 0 <= a < c < |b| ==> FirstBefore(b[a], b[c]))
  }

  lemma GroupsAreGroups(keys: seq<string>, b: seq<Group>, groups: seq<Group>)
    requires BucketsOf(keys, b) && groups == Repeated(b)
    ensures WellGrouped(keys, groups)
  {
    RepeatedOrdered(b);
    RepeatedMembers(b);
    forall a | 0 <= a < |groups| ensures IsGroupOf(keys, groups[a]) {
      assert groups[a] in b;
      PositionsOf(keys, groups[a].key);
    }
    RepeatedKeysDistinct(b);
    RepeatedComplete(keys, b, groups);
  }

  /** The filter keeps keys distinct. */
  lemma RepeatedKeysDistinct(b: seq<Group>)
    requires Distinct(BucketKeys(b))
    ensures Distinct(BucketKeys(Repeated(b)))
  {
    var groups := Repeated(b);
    var pos := RepeatedPositions(b);
    forall a, c | 0 <= a < c < |groups| ensures BucketKeys(groups)[a] != BucketKeys(groups)[c] {
      assert groups[a] == b[pos[a]] && groups[c] == b[pos[c]] && pos[a] < pos[c];
      assert BucketKeys(b)[pos[a]] != BucketKeys(b)[pos[c]];
    }
  }

  lemma RepeatedComplete(keys: seq<string>, b: seq<Group>, groups: seq<Group>)
    requires BucketsOf(keys, b) && groups == Repeated(b)
    ensures forall i, j :: 0 <= i < j < |keys| && keys[i] == keys[j] ==> keys[i] in BucketKeys(groups)
  {
    forall i, j | 0 <= i < j < |keys| && keys[i] == keys[j] ensures keys[i] in BucketKeys(groups) {
      RepeatedHasText(keys, b, groups, i, j);
    }
  }

  lemma RepeatedHasText(keys: seq<string>, b: seq<Group>, groups: seq<Group>, i: nat, j: nat)
    requires BucketsOf(keys, b) && groups == Repeated(b)
    requires i < j < |keys| && keys[i] == keys[j]
    ensures keys[i] in BucketKeys(groups)
  {
    assert keys[i] in BucketKeys(b);
    var a :| 0 <= a < |b| && BucketKeys(b)[a] == keys[i];
    var g := b[a];
    BucketOfRepeatedText(keys, g, i, j);
    RepeatedMembers(b);
    assert g in b;
    var c :| 0 <= c < |groups| && groups[c] == g;
    assert BucketKeys(groups)[c] == keys[i];
  }

  /** The bucket of a text met twice holds at least two positions. */
  lemma BucketOfRepeatedText(keys: seq<string>, g: Group, i: nat, j: nat)
    requires i < j < |keys| && keys[i] == keys[j] && g.key == keys[i]
    requires g.items == ValuesFor(Indexed(keys), g.key)
    ensures |g.items| > 1
  {
    PositionsOf(keys, keys[i]);
    assert i in g.items && j in g.items;
    var p :| 0 <= p < |g.items| && g.items[p] == i;
    var q :| 0 <= q < |g.items| && g.items[q] == j;
    assert p != q;
  }

  /** `find_duplicates(questions)`. */
  function FindDuplicates(records: seq<Record>): (groups: seq<Group>)
    requires QuestionsAreText(records)
    ensures WellGrouped(QuestionKeys(records), groups)
  {
    DuplicateGroups(QuestionKeys(records))
  }

  // ---------------------------------------------------------------- consequences

  /** A bucket over texts that are pairwise distinct holds at most one value. */
  lemma {:induction false} ValuesForOfDistinct(pairs: seq<(string, nat)>, k: string)
    requires forall i, j :: 0 <= i < j < |pairs| ==> pairs[i].0 != pairs[j].0
    ensures |ValuesFor(pairs, k)| <= 1
  {
    if |pairs| > 0 {
      var init := pairs[..|pairs| - 1];
      ValuesForOfDistinct(init, k);
      if pairs[|pairs| - 1].0 == k {
        ValuesForAbsent(init, k);
      }
    }
  }

  lemma {:induction false} RepeatedOfSingletons(b: seq<Group>)
    requires forall a :: 0 <= a < |b| ==> |b[a].items| <= 1
    ensures Repeated(b) == []
  {
    if |b| > 0 {
      RepeatedOfSingletons(b[..|b| - 1]);
    }
  }

  /** Pairwise distinct texts give no duplicate groups. */
  lemma NoGroupsForDistinctTexts(keys: seq<string>)
    requires Distinct(keys)
    ensures DuplicateGroups(keys) == []
  {
    var pairs := Indexed(keys);
    var b := GroupBy(pairs);
    GroupBySpec(pairs);
    forall a | 0 <= a < |b| ensures |b[a].items| <= 1 {
      ValuesForOfDistinct(pairs, b[a].key);
    }
    RepeatedOfSingletons(b);
  }

  /** The result is determined by its specification: any grouping meeting it is THE
      result of `find_duplicates`. */
  lemma WellGroupedUnique(keys: seq<string>, g1: seq<Group>, g2: seq<Group>)
    requires WellGrouped(keys, g1) && WellGrouped(keys, g2)
    ensures g1 == g2
  {
    forall a | 0 <= a < |g1| ensures g1[a] in g2 {
      Counterpart(keys, g1, g2, a);
    }
    forall c | 0 <= c < |g2| ensures g2[c] in g1 {
      Counterpart(keys, g2, g1, c);
    }
    forall a | 0 <= a < |g1| ensures |g1[a].items| > 0 {
      assert IsGroupOf(keys, g1[a]);
    }
    forall c | 0 <= c < |g2| ensures |g2[c].items| > 0 {
      assert IsGroupOf(keys, g2[c]);
    }
    OrderedByFirstUnique(g1, g2);
  }

  /** Each entry of a grouping meeting the specification is an entry of any other. */
  lemma Counterpart(keys: seq<string>, g1: seq<Group>, g2: seq<Group>, a: nat)
    requires WellGrouped(keys, g1) && WellGrouped(keys, g2)
    requires a < |g1|
    ensures g1[a] in g2
  {
    var g := g1[a];
    assert IsGroupOf(keys, g);
    var x0 := g.items[0];
    var x1 := g.items[1];
    assert x0 in g.items && x1 in g.items;
    assert x0 < x1 && keys[x0] == keys[x1] == g.key;
    assert keys[x0] in BucketKeys(g2);
    var c :| 0 <= c < |g2| && BucketKeys(g2)[c] == g.key;
    assert IsGroupOf(keys, g2[c]);
    SameAscending(g.items, g2[c].items);
    assert g == g2[c];
  }

  /** Two sequences of groups with the same entries, both ordered by first index, are equal. */
  lemma {:induction false} OrderedByFirstUnique(g1: seq<Group>, g2: seq<Group>)
    requires forall a :: 0 <= a < |g1| ==> |g1[a].items| > 0
    requires forall a :: 0 <= a < |g2| ==> |g2[a].items| > 0
    requires forall a, c :: 0 <= a < c < |g1| ==> g1[a].items[0] < g1[c].items[0]
    requires forall a, c :: 0 <= a < c < |g2| ==> g2[a].items[0] < g2[c].items[0]
    requires forall g :: g in g1 <==> g in g2
    ensures g1 == g2
  {
    assert |g1| > 0 ==> g1[0] in g2;
    assert |g2| > 0 ==> g2[0] in g1;
    if |g1| > 0 && |g2| > 0 {
      assert g1[0] == g2[0] by {
        var i :| 0 <= i < |g2| && g2[i] == g1[0];
        var j :| 0 <= j < |g1| && g1[j] == g2[0];
        assert g2[0].items[0] <= g2[i].items[0] && g1[0].items[0] <= g1[j].items[0];
        assert i == 0;
      }
      forall g ensures g in g1[1..] <==> g in g2[1..] {
        if g in g1[1..] {
          var k :| 1 <= k < |g1| && g1[k] == g;
          assert g in g2 && g.items[0] != g2[0].items[0];
          var m :| 0 <= m < |g2| && g2[m] == g;
          assert g2[1..][m - 1] == g;
        }
        if g in g2[1..] {
          var k :| 1 <= k < |g2| && g2[k] == g;
          assert g in g1 && g.items[0] != g1[0].items[0];
          var m :| 0 <= m < |g1| && g1[m] == g;
          assert g1[1..][m - 1] == g;
        }
      }
      OrderedByFirstUnique(g1[1..], g2[1..]);
      assert g1 == [g1[0]] + g1[1..] && g2 == [g2[0]] + g2[1..];
    }
  }
}
