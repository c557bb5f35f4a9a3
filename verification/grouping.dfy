/**
 * Python's insertion-ordered `defaultdict(list)`: `for k, v in pairs: d[k].append(v)`,
 * read back as `d.items()`. All four groupings of the scripts (questions by text, exported
 * and template rows by source file, statistics by unit) are instances of `GroupBy`.
 */
module Grouping {
  import opened Seqs

  /** One dictionary entry: a key and the values appended under it, in order. */
  datatype Bucket<K, V> = Bucket(key: K, items: seq<V>)

  function BucketKeys<K, V>(b: seq<Bucket<K, V>>): (ks: seq<K>)
    ensures |ks| == |b| && forall i :: 0 <= i < |b| ==> ks[i] == b[i].key
  {
    seq(|b|, i requires 0 <= i < |b| => b[i].key)
  }

  /** `sum(len(v) for v in d.values())`. */
  function TotalSize<K, V>(b: seq<Bucket<K, V>>): nat {
    if |b| == 0 then 0 else |b[0].items| + TotalSize(b[1..])
  }

  /** Reference definition of a bucket's contents: the values paired with `k`, in order. */
  function ValuesFor<K(==), V>(pairs: seq<(K, V)>, k: K): seq<V> {
    if |pairs| == 0 then []
    else
      var last := pairs[|pairs| - 1];
      ValuesFor(pairs[..|pairs| - 1], k) + (if last.0 == k then [last.1] else [])
  }

  /** `d[k].append(v)` on an insertion-ordered dictionary. */
  function AddTo<K(==), V>(b: seq<Bucket<K, V>>, k: K, v: V): seq<Bucket<K, V>> {
    if |b| == 0 then [Bucket(k, [v])]
    else if b[0].key == k then [Bucket(k, b[0].items + [v])] + b[1..]
    else [b[0]] + AddTo(b[1..], k, v)
  }

  function GroupBy<K(==), V>(pairs: seq<(K, V)>): seq<Bucket<K, V>> {
    if |pairs| == 0 then []
    else
      var last := pairs[|pairs| - 1];
      AddTo(GroupBy(pairs[..|pairs| - 1]), last.0, last.1)
  }

  /** Each position of a sequence paired with its key: `enumerate` with the pair flipped. */
  function Indexed<K>(keys: seq<K>): (pairs: seq<(K, nat)>)
    ensures |pairs| == |keys| && forall i :: 0 <= i < |keys| ==> pairs[i] == (keys[i], i)
  {
    seq(|keys|, i requires 0 <= i < |keys| => (keys[i], i))
  }

  // ---------------------------------------------------------------- lemmas

  lemma {:induction false} ValuesForMembers<K, V>(pairs: seq<(K, V)>, k: K)
    ensures forall v :: v in ValuesFor(pairs, k) <==>
      exists j :: 0 <= j < |pairs| && pairs[j] == (k, v)
  {
    if |pairs| > 0 {
      var init := pairs[..|pairs| - 1];
      ValuesForMembers(init, k);
      forall v ensures v in ValuesFor(pairs, k) <==> exists j :: 0 <= j < |pairs| && pairs[j] == (k, v) {
        if v in ValuesFor(pairs, k) && v in ValuesFor(init, k) {
          var j :| 0 <= j < |init| && init[j] == (k, v);
          assert pairs[j] == (k, v);
        }
        if exists j :: 0 <= j < |pairs| && pairs[j] == (k, v) {
          var j :| 0 <= j < |pairs| && pairs[j] == (k, v);
          if j < |init| {
            assert init[j] == (k, v);
          }
        }
      }
    }
  }

  /** A bucket keeps the relative order of its values: if the values come in strictly
      increasing rank, so do those of every bucket. */
  lemma {:induction false} ValuesForOrdered<K, V>(pairs: seq<(K, V)>, k: K, rank: V -> int)
    requires forall i, j :: 0 <= i < j < |pairs| ==> rank(pairs[i].1) < rank(pairs[j].1)
    ensures var vs := ValuesFor(pairs, k);
      forall i, j :: 0 <= i < j < |vs| ==> rank(vs[i]) < rank(vs[j])
  {
    if |pairs| > 0 {
      var init := pairs[..|pairs| - 1];
      var last := pairs[|pairs| - 1];
      ValuesForOrdered(init, k, rank);
      var vs0 := ValuesFor(init, k);
      if last.0 == k {
        forall i | 0 <= i < |vs0| ensures rank(vs0[i]) < rank(last.1) {
          ValueForHasSource(init, k, i);
        }
        var vs := vs0 + [last.1];
        assert ValuesFor(pairs, k) == vs;
        forall i, j | 0 <= i < j < |vs| ensures rank(vs[i]) < rank(vs[j]) {
          if j < |vs0| {
            assert vs[i] == vs0[i] && vs[j] == vs0[j];
          }
        }
      }
    }
  }

  /** Every value of a bucket comes from a pair with that key, at a position no later
      than the bucket position suggests. */
  lemma {:induction false} ValueForHasSource<K, V>(pairs: seq<(K, V)>, k: K, i: nat)
    requires i < |ValuesFor(pairs, k)|
    ensures exists j :: 0 <= j < |pairs| && pairs[j] == (k, ValuesFor(pairs, k)[i])
  {
    var init := pairs[..|pairs| - 1];
    var vs0 := ValuesFor(init, k);
    if i < |vs0| {
      ValueForHasSource(init, k, i);
      var j :| 0 <= j < |init| && init[j] == (k, vs0[i]);
      assert pairs[j] == init[j];
    } else {
      assert pairs[|pairs| - 1] == (k, ValuesFor(pairs, k)[i]);
    }
  }

  lemma {:induction false} AddToSize<K, V>(b: seq<Bucket<K, V>>, k: K, v: V)
    ensures TotalSize(AddTo(b, k, v)) == TotalSize(b) + 1
  {
    if |b| > 0 && b[0].key != k {
      AddToSize(b[1..], k, v);
      assert ([b[0]] + AddTo(b[1..], k, v))[1..] == AddTo(b[1..], k, v);
    }
  }

  /** Appending under a new key adds a bucket at the end. */
  lemma {:induction false} AddToNew<K, V>(b: seq<Bucket<K, V>>, k: K, v: V)
    requires k !in BucketKeys(b)
    ensures AddTo(b, k, v) == b + [Bucket(k, [v])]
  {
    if |b| > 0 {
      assert b[0].key == BucketKeys(b)[0];
      assert k !in BucketKeys(b[1..]) by {
        forall i | 0 <= i < |b| - 1 ensures BucketKeys(b[1..])[i] != k {
          assert BucketKeys(b[1..])[i] == BucketKeys(b)[i + 1];
        }
      }
      AddToNew(b[1..], k, v);
      assert b == [b[0]] + b[1..];
    }
  }

  lemma BucketKeysCons<K, V>(c: Bucket<K, V>, t: seq<Bucket<K, V>>)
    ensures BucketKeys([c] + t) == [c.key] + BucketKeys(t)
  {
    var l := BucketKeys([c] + t);
    var r := [c.key] + BucketKeys(t);
    forall i | 0 <= i < |l| ensures l[i] == r[i] {
      if i > 0 {
        assert ([c] + t)[i] == t[i - 1];
      }
    }
  }

  /** Appending never changes the keys already present, and adds a new key at the end. */
  lemma {:induction false} AddToKeys<K, V>(b: seq<Bucket<K, V>>, k: K, v: V)
    ensures BucketKeys(AddTo(b, k, v)) == if k in BucketKeys(b) then BucketKeys(b) else BucketKeys(b) + [k]
  {
    if |b| == 0 {
      assert BucketKeys(AddTo(b, k, v))[0] == k;
    } else {
      var tail := b[1..];
      assert b == [b[0]] + tail;
      BucketKeysCons(b[0], tail);
      if b[0].key == k {
        BucketKeysCons(Bucket(k, b[0].items + [v]), tail);
      } else {
        AddToKeys(tail, k, v);
        BucketKeysCons(b[0], AddTo(tail, k, v));
      }
    }
  }

  /** Appending under an existing key extends that bucket only. */
  lemma {:induction false} AddToExisting<K, V>(b: seq<Bucket<K, V>>, k: K, v: V)
    requires Distinct(BucketKeys(b))
    requires k in BucketKeys(b)
    ensures |AddTo(b, k, v)| == |b|
    ensures forall i :: 0 <= i < |b| ==>
      AddTo(b, k, v)[i] == (if b[i].key == k then Bucket(k, b[i].items + [v]) else b[i])
  {
    var tail := b[1..];
    var keys := BucketKeys(b);
    var r := AddTo(b, k, v);
    if b[0].key == k {
      assert r == [Bucket(k, b[0].items + [v])] + tail;
      forall i | 0 < i < |b| ensures r[i] == b[i] && b[i].key != k {
        assert keys[0] != keys[i];
        assert r[i] == tail[i - 1];
      }
    } else {
      var tkeys := BucketKeys(tail);
      assert Distinct(tkeys) by {
        forall i, j | 0 <= i < j < |tail| ensures tkeys[i] != tkeys[j] {
          assert keys[i + 1] != keys[j + 1];
        }
      }
      assert k in tkeys by {
        var i :| 0 <= i < |b| && keys[i] == k;
        assert tkeys[i - 1] == k;
      }
      AddToExisting(tail, k, v);
      var rt := AddTo(tail, k, v);
      assert r == [b[0]] + rt;
      forall i | 0 < i < |b| ensures r[i] == (if b[i].key == k then Bucket(k, b[i].items + [v]) else b[i]) {
        assert r[i] == rt[i - 1] && b[i] == tail[i - 1];
      }
    }
  }

  /** What the dictionary holds after the loop: one bucket per distinct key, holding
      exactly the values paired with that key in order, and nothing lost. */
  lemma GroupBySpec<K, V>(pairs: seq<(K, V)>)
    ensures var g := GroupBy(pairs);
      && Distinct(BucketKeys(g))
      && (forall i :: 0 <= i < |g| ==> g[i].items == ValuesFor(pairs, g[i].key) && |g[i].items| > 0)
      && (forall j :: 0 <= j < |pairs| ==> pairs[j].0 in BucketKeys(g))
      && TotalSize(g) == |pairs|
  {
    GroupByBuckets(pairs);
    GroupByCovers(pairs);
    GroupBySize(pairs);
  }

  lemma {:induction false} GroupBySize<K, V>(pairs: seq<(K, V)>)
    ensures TotalSize(GroupBy(pairs)) == |pairs|
  {
    if |pairs| > 0 {
      var last := pairs[|pairs| - 1];
      GroupBySize(pairs[..|pairs| - 1]);
      AddToSize(GroupBy(pairs[..|pairs| - 1]), last.0, last.1);
    }
  }

  /** `g` has one bucket per key, each holding exactly the values `pairs` gives that key. */
  ghost predicate BucketsMatch<K, V>(pairs: seq<(K, V)>, g: seq<Bucket<K, V>>) {
    && Distinct(BucketKeys(g))
    && forall i :: 0 <= i < |g| ==> g[i].items == ValuesFor(pairs, g[i].key) && |g[i].items| > 0
  }

  lemma ValuesForSnoc<K, V>(init: seq<(K, V)>, p: (K, V), k: K)
    ensures ValuesFor(init + [p], k) == ValuesFor(init, k) + (if p.0 == k then [p.1] else [])
  {
    assert (init + [p])[..|init|] == init;
  }

  /** `d[k].append(v)` for a key already present extends that bucket and keeps the others. */
  lemma AddMatchesExisting<K, V>(init: seq<(K, V)>, g0: seq<Bucket<K, V>>, k: K, v: V)
    requires BucketsMatch(init, g0)
    requires k in BucketKeys(g0)
    ensures BucketsMatch(init + [(k, v)], AddTo(g0, k, v))
  {
    var g := AddTo(g0, k, v);
    AddToKeys(g0, k, v);
    AddToExisting(g0, k, v);
    forall i | 0 <= i < |g| ensures g[i].items == ValuesFor(init + [(k, v)], g[i].key) && |g[i].items| > 0 {
      assert g[i].key == g0[i].key;
      ValuesForSnoc(init, (k, v), g0[i].key);
    }
  }

  /** `d[k].append(v)` for a key not yet present opens a new bucket at the end. */
  lemma AddMatchesNew<K, V>(init: seq<(K, V)>, g0: seq<Bucket<K, V>>, k: K, v: V)
    requires BucketsMatch(init, g0)
    requires k !in BucketKeys(g0)
    requires forall j :: 0 <= j < |init| ==> init[j].0 != k
    ensures BucketsMatch(init + [(k, v)], AddTo(g0, k, v))
  {
    var g := AddTo(g0, k, v);
    AddToNew(g0, k, v);
    assert g == g0 + [Bucket(k, [v])];
    forall i | 0 <= i < |g| ensures g[i].items == ValuesFor(init + [(k, v)], g[i].key) && |g[i].items| > 0 {
      if i < |g0| {
        assert g[i] == g0[i];
        assert g0[i].key == BucketKeys(g0)[i];
        ValuesForSnoc(init, (k, v), g0[i].key);
      } else {
        ValuesForAbsent(init, k);
        ValuesForSnoc(init, (k, v), k);
      }
    }
    AddToKeys(g0, k, v);
    var ks := BucketKeys(g);
    forall i, j | 0 <= i < j < |ks| ensures ks[i] != ks[j] {
      assert j < |g0| ==> BucketKeys(g0)[i] != BucketKeys(g0)[j];
    }
  }

  /** One more `d[k].append(v)` keeps the buckets matching the longer list of pairs. */
  lemma AddMatches<K, V>(init: seq<(K, V)>, g0: seq<Bucket<K, V>>, k: K, v: V)
    requires BucketsMatch(init, g0)
    requires k !in BucketKeys(g0) ==> forall j :: 0 <= j < |init| ==> init[j].0 != k
    ensures BucketsMatch(init + [(k, v)], AddTo(g0, k, v))
  {
    if k in BucketKeys(g0) {
      AddMatchesExisting(init, g0, k, v);
    } else {
      AddMatchesNew(init, g0, k, v);
    }
  }

  lemma {:induction false} GroupByBuckets<K, V>(pairs: seq<(K, V)>)
    ensures BucketsMatch(pairs, GroupBy(pairs))
  {
    if |pairs| > 0 {
      var init := pairs[..|pairs| - 1];
      var last := pairs[|pairs| - 1];
      assert pairs == init + [(last.0, last.1)];
      GroupByBuckets(init);
      GroupByCovers(init);
      AddMatches(init, GroupBy(init), last.0, last.1);
    }
  }

  lemma {:induction false} ValuesForAbsent<K, V>(pairs: seq<(K, V)>, k: K)
    requires forall j :: 0 <= j < |pairs| ==> pairs[j].0 != k
    ensures ValuesFor(pairs, k) == []
  {
    if |pairs| > 0 {
      ValuesForAbsent(pairs[..|pairs| - 1], k);
    }
  }

  lemma {:induction false} GroupByCovers<K, V>(pairs: seq<(K, V)>)
    ensures forall j :: 0 <= j < |pairs| ==> pairs[j].0 in BucketKeys(GroupBy(pairs))
  {
    if |pairs| > 0 {
      var init := pairs[..|pairs| - 1];
      var last := pairs[|pairs| - 1];
      var g0 := GroupBy(init);
      GroupByCovers(init);
      assert GroupBy(pairs) == AddTo(g0, last.0, last.1);
      AddToKeys(g0, last.0, last.1);
      var ks0 := BucketKeys(g0);
      var ks := BucketKeys(GroupBy(pairs));
      assert forall t :: t in ks0 ==> t in ks;
      assert last.0 in ks;
      forall j | 0 <= j < |pairs| ensures pairs[j].0 in ks {
        if j < |init| {
          assert init[j] == pairs[j];
          assert init[j].0 in ks0;
        }
      }
    }
  }

  /** The first values of the buckets increase in rank. */
  predicate FirstsOrdered<K, V>(g: seq<Bucket<K, V>>, rank: V -> int) {
    forall a, b :: 0 <= a < b < |g| && |g[a].items| > 0 && |g[b].items| > 0 ==>
      rank(g[a].items[0]) < rank(g[b].items[0])
  }

  /** Appending under an existing key keeps every bucket's first value. */
  lemma FirstsOrderedExisting<K, V>(g0: seq<Bucket<K, V>>, k: K, v: V, rank: V -> int)
    requires Distinct(BucketKeys(g0)) && k in BucketKeys(g0)
    requires forall a :: 0 <= a < |g0| ==> |g0[a].items| > 0
    requires FirstsOrdered(g0, rank)
    ensures FirstsOrdered(AddTo(g0, k, v), rank)
  {
    AddToExisting(g0, k, v);
    var g := AddTo(g0, k, v);
    forall a | 0 <= a < |g| ensures |g[a].items| > 0 && g[a].items[0] == g0[a].items[0] {
      if g0[a].key == k {
        assert g[a].items == g0[a].items + [v];
      }
    }
  }

  /** Appending under a new key a value that outranks every first value keeps them ordered. */
  lemma FirstsOrderedNew<K, V>(g0: seq<Bucket<K, V>>, k: K, v: V, rank: V -> int)
    requires k !in BucketKeys(g0)
    requires forall a :: 0 <= a < |g0| ==> |g0[a].items| > 0 && rank(g0[a].items[0]) < rank(v)
    requires FirstsOrdered(g0, rank)
    ensures FirstsOrdered(AddTo(g0, k, v), rank)
  {
    AddToNew(g0, k, v);
  }

  /** With values of increasing rank, every bucket's first value ranks below a later value. */
  lemma FirstsBefore<K, V>(init: seq<(K, V)>, v: V, rank: V -> int)
    requires forall j :: 0 <= j < |init| ==> rank(init[j].1) < rank(v)
    ensures var g0 := GroupBy(init);
      forall a :: 0 <= a < |g0| ==> |g0[a].items| > 0 && rank(g0[a].items[0]) < rank(v)
  {
    var g0 := GroupBy(init);
    GroupBySpec(init);
    forall a | 0 <= a < |g0| ensures |g0[a].items| > 0 && rank(g0[a].items[0]) < rank(v) {
      ValueForHasSource(init, g0[a].key, 0);
      var j :| 0 <= j < |init| && init[j] == (g0[a].key, g0[a].items[0]);
    }
  }

  /** Keys appear in the order they were first met: with values of increasing rank, the
      first values of the buckets increase in rank. */
  lemma {:induction false} GroupByFirstSeen<K, V>(pairs: seq<(K, V)>, rank: V -> int)
    requires forall i, j :: 0 <= i < j < |pairs| ==> rank(pairs[i].1) < rank(pairs[j].1)
    ensures var g := GroupBy(pairs);
      forall a, b :: 0 <= a < b < |g| && |g[a].items| > 0 && |g[b].items| > 0 ==>
        rank(g[a].items[0]) < rank(g[b].items[0])
  {
    if |pairs| > 0 {
      var init := pairs[..|pairs| - 1];
      var last := pairs[|pairs| - 1];
      var g0 := GroupBy(init);
      GroupByFirstSeen(init, rank);
      GroupBySpec(init);
      assert GroupBy(pairs) == AddTo(g0, last.0, last.1);
      if last.0 in BucketKeys(g0) {
        FirstsOrderedExisting(g0, last.0, last.1, rank);
      } else {
        assert forall j :: 0 <= j < |init| ==> init[j] == pairs[j];
        FirstsBefore(init, last.1, rank);
        FirstsOrderedNew(g0, last.0, last.1, rank);
      }
    }
  }

  /** The bucket of `t` over `Indexed(keys)` is the ascending list of the positions holding `t`. */
  lemma PositionsOf<K>(keys: seq<K>, t: K)
    ensures var ps: seq<nat> := ValuesFor(Indexed(keys), t);
      && StrictlyAscending(ps)
      && (forall x: nat :: x in ps <==> x < |keys| && keys[x] == t)
  {
    var pairs := Indexed(keys);
    ValuesForOrdered(pairs, t, (x: nat) => x as int);
    ValuesForMembers(pairs, t);
    forall x: nat | x < |keys| && keys[x] == t ensures x in ValuesFor(pairs, t) {
      assert pairs[x] == (t, x);
    }
  }

  // ---------------------------------------------------------------- position groups

  /** All group members, group after group. */
  function Flatten<K>(groups: seq<Bucket<K, nat>>): (xs: seq<nat>)
    ensures |xs| == TotalSize(groups)
    ensures forall x :: x in xs <==> exists a :: 0 <= a < |groups| && x in groups[a].items
  {
    if |groups| == 0 then []
    else
      var rest := Flatten(groups[1..]);
      assert forall a :: 0 < a < |groups| ==> groups[a] == groups[1..][a - 1];
      groups[0].items + rest
  }

  /** `g` holds ascending positions of its own key. */
  ghost predicate OwnPositions<K>(keys: seq<K>, g: Bucket<K, nat>) {
    && StrictlyAscending(g.items)
    && forall x: nat :: x in g.items ==> x < |keys| && keys[x] == g.key
  }

  /** The groups hold ascending positions of their own text, and no key twice. */
  ghost predicate SeparateGroups<K>(keys: seq<K>, groups: seq<Bucket<K, nat>>) {
    && (forall a :: 0 <= a < |groups| ==> OwnPositions(keys, groups[a]))
    && Distinct(BucketKeys(groups))
  }

  lemma {:induction false} FlattenDistinct<K>(keys: seq<K>, groups: seq<Bucket<K, nat>>)
    requires SeparateGroups(keys, groups)
    ensures Distinct(Flatten(groups))
  {
    if |groups| > 0 {
      var tail := groups[1..];
      var gks := BucketKeys(groups);
      assert SeparateGroups(keys, tail) by {
        forall a | 0 <= a < |tail| ensures OwnPositions(keys, tail[a]) {
          assert tail[a] == groups[a + 1];
        }
        var tks := BucketKeys(tail);
        forall i, j | 0 <= i < j < |tks| ensures tks[i] != tks[j] {
          assert tks[i] == gks[i + 1] && tks[j] == gks[j + 1];
        }
      }
      FlattenDistinct(keys, tail);
      var xs := groups[0].items;
      var ys := Flatten(tail);
      forall i, j | 0 <= i < |xs| && 0 <= j < |ys| ensures xs[i] != ys[j] {
        assert ys[j] in ys;
        var b :| 0 <= b < |tail| && ys[j] in tail[b].items;
        assert tail[b] == groups[b + 1];
        assert OwnPositions(keys, groups[0]) && OwnPositions(keys, groups[b + 1]);
        assert xs[i] in groups[0].items && ys[j] in groups[b + 1].items;
        assert gks[0] != gks[b + 1];
      }
      DistinctConcat(xs, ys);
    }
  }

  /** Every group member is a position of `keys`. */
  lemma FlattenBelow<K>(keys: seq<K>, groups: seq<Bucket<K, nat>>)
    requires SeparateGroups(keys, groups)
    ensures forall x :: x in Flatten(groups) ==> x < |keys|
  {
    forall x | x in Flatten(groups) ensures x < |keys| {
      var a :| 0 <= a < |groups| && x in groups[a].items;
      assert OwnPositions(keys, groups[a]);
    }
  }

  /** A position as a rank, for `ValuesForOrdered`. */
  function PositionRank(x: nat): int {
    x
  }

  /** The pairs `(keys[x], x)` for the positions `idx`, in order. */
  function KeyedPositions<K>(keys: seq<K>, idx: seq<nat>): (pairs: seq<(K, nat)>)
    requires forall k :: 0 <= k < |idx| ==> idx[k] < |keys|
    ensures |pairs| == |idx| && forall k :: 0 <= k < |idx| ==> pairs[k] == (keys[idx[k]], idx[k])
  {
    seq(|idx|, k requires 0 <= k < |idx| => (keys[idx[k]], idx[k]))
  }

  /** One bucket of keyed positions holds, in ascending order, exactly the chosen positions
      carrying its key. */
  lemma KeyedBucket<K>(keys: seq<K>, idx: seq<nat>, b: Bucket<K, nat>)
    requires StrictlyAscending(idx)
    requires forall k :: 0 <= k < |idx| ==> idx[k] < |keys|
    requires b.items == ValuesFor(KeyedPositions(keys, idx), b.key)
    ensures forall x: nat :: x in b.items <==> x in idx && keys[x] == b.key
    ensures OwnPositions(keys, b)
  {
    var pairs := KeyedPositions(keys, idx);
    ValuesForMembers(pairs, b.key);
    forall x: nat ensures x in b.items <==> x in idx && keys[x] == b.key {
      if x in idx && keys[x] == b.key {
        var j :| 0 <= j < |idx| && idx[j] == x;
        assert pairs[j] == (b.key, x);
      }
    }
    ValuesForOrdered(pairs, b.key, PositionRank);
    var vs := b.items;
    forall i, j | 0 <= i < j < |vs| ensures vs[i] < vs[j] {
      assert PositionRank(vs[i]) < PositionRank(vs[j]);
    }
  }

  /** Grouping ascending positions by their key: each bucket holds, in ascending order,
      exactly the chosen positions carrying its key, and every chosen position is in one. */
  lemma GroupPositions<K>(keys: seq<K>, idx: seq<nat>)
    requires StrictlyAscending(idx)
    requires forall k :: 0 <= k < |idx| ==> idx[k] < |keys|
    ensures var g := GroupBy(KeyedPositions(keys, idx));
      && SeparateGroups(keys, g)
      && TotalSize(g) == |idx|
      && (forall a, x: nat :: 0 <= a < |g| ==> (x in g[a].items <==> x in idx && keys[x] == g[a].key))
      && (forall x: nat :: x in idx ==> keys[x] in BucketKeys(g))
  {
    var pairs := KeyedPositions(keys, idx);
    var g := GroupBy(pairs);
    GroupBySpec(pairs);
    forall a | 0 <= a < |g|
      ensures OwnPositions(keys, g[a])
      ensures forall x: nat :: x in g[a].items <==> x in idx && keys[x] == g[a].key
    {
      KeyedBucket(keys, idx, g[a]);
    }
    forall x: nat | x in idx ensures keys[x] in BucketKeys(g) {
      var j :| 0 <= j < |idx| && idx[j] == x;
      assert pairs[j].0 == keys[x];
    }
  }
}
