/**
 * What a completed `deduplicate_questions` run guarantees: every input index is accounted
 * for exactly once, the sizes in the report add up, the output holds no two questions with
 * the same stripped text, and a second run finds no duplicates.
 */
module DedupLaws {
  import opened Wrappers
  import opened Seqs
  import opened Records
  import opened Grouping
  import opened Canonical
  import opened Merge
  import opened Duplicates
  import opened Dedup

  lemma WellGroupedSeparate(keys: seq<string>, groups: seq<Group>)
    requires WellGrouped(keys, groups)
    ensures SeparateGroups(keys, groups)
  {
    forall a | 0 <= a < |groups| ensures OwnPositions(keys, groups[a]) {
      assert IsGroupOf(keys, groups[a]);
    }
  }

  /** Separate groups cover as many positions as they have members. */
  lemma CoveredCount(keys: seq<string>, groups: seq<Group>)
    requires SeparateGroups(keys, groups)
    ensures |Ascending(|keys|, Elems(Flatten(groups)))| == TotalSize(groups)
  {
    var flat := Flatten(groups);
    var inside := Ascending(|keys|, Elems(flat));
    FlattenBelow(keys, groups);
    assert Elems(inside) == Elems(flat);
    AscendingCardinality(inside);
    FlattenDistinct(keys, groups);
    DistinctCardinality(flat);
  }

  /** The positions outside a family of separate groups number the total less the group sizes. */
  lemma CountOutside(keys: seq<string>, groups: seq<Group>, outside: seq<nat>)
    requires SeparateGroups(keys, groups)
    requires StrictlyAscending(outside)
    requires forall x: nat :: x in outside <==> x < |keys| && x !in Flatten(groups)
    ensures |outside| == |keys| - TotalSize(groups)
  {
    var members := Elems(Flatten(groups));
    AscendingComplement(|keys|, members, outside);
    CoveredCount(keys, groups);
  }

  // ---------------------------------------------------------------- conservation

  /** Every input index is accounted for exactly once: it is copied after the canonical
      records exactly when it lies in no duplicate group, and it lies in at most one group. */
  lemma EveryIndexAccountedOnce(records: seq<Record>, i: nat)
    requires QuestionsAreText(records) && Selectable(records, FindDuplicates(records))
    requires i < |records|
    ensures var groups := FindDuplicates(records);
      && (i in KeptIndices(records, groups) <==> forall a :: 0 <= a < |groups| ==> i !in groups[a].items)
      && forall a, b :: 0 <= a < |groups| && 0 <= b < |groups| && i in groups[a].items && i in groups[b].items ==> a == b
  {
    var groups := FindDuplicates(records);
    KeptIffOutside(records, groups, i);
    forall a, b | 0 <= a < |groups| && 0 <= b < |groups| && i in groups[a].items && i in groups[b].items
      ensures a == b
    {
      OneGroupPerIndex(QuestionKeys(records), groups, i, a, b);
    }
  }

  /** Each canonical record carries its group's audit trail: every member, in group order. */
  lemma CanonicalCarriesTrail(records: seq<Record>, a: nat)
    requires Runnable(records)
    requires a < |FindDuplicates(records)|
    ensures var groups := FindDuplicates(records);
      var out := Run(records).records;
      && a < |out|
      && out[a].sourceMetadata.Val?
      && var trail := out[a].sourceMetadata.value.allSources;
      && |trail| == |groups[a].items|
      && forall k :: 0 <= k < |trail| ==> trail[k].originalIndex == groups[a].items[k]
  {
    var groups := FindDuplicates(records);
    var out := Run(records).records;
    assert out[a] == EnhancedCanonicals(records, groups)[a];
  }

  /** The records copied after the canonical ones number the input size less all group members. */
  lemma KeptCount(records: seq<Record>)
    requires QuestionsAreText(records)
    requires Selectable(records, FindDuplicates(records))
    ensures |KeptIndices(records, FindDuplicates(records))| == |records| - TotalSize(FindDuplicates(records))
  {
    var groups := FindDuplicates(records);
    var keys := QuestionKeys(records);
    KeptComplement(records, groups);
    WellGroupedSeparate(keys, groups);
    CountOutside(keys, groups, KeptIndices(records, groups));
  }

  /** The kept indices are the positions outside every group. */
  lemma KeptComplement(records: seq<Record>, groups: seq<Group>)
    requires Selectable(records, groups)
    ensures forall x: nat :: x in KeptIndices(records, groups) <==> x < |records| && x !in Flatten(groups)
  {
    forall x: nat ensures x in KeptIndices(records, groups) <==> x < |records| && x !in Flatten(groups) {
      KeptIffOutside(records, groups, x);
    }
  }

  /** The output is the input less one record per duplicate instance, and the report's
      counters say so. */
  lemma OutputSize(records: seq<Record>)
    requires Runnable(records)
    ensures var out := Run(records);
      && |out.records| == |records| - out.report.totalDuplicateInstances
      && out.report.questionsRemoved == out.report.totalDuplicateInstances
      && out.report.totalAfterDeduplication == out.report.totalOriginal - out.report.totalDuplicateInstances
      && |out.report.duplicateGroups| == out.report.totalDuplicatesFound
  {
    KeptCount(records);
  }

  // ---------------------------------------------------------------- a clean result

  /** Canonical positions of well-formed groups followed by the positions outside every
      group never share a text. */
  lemma OriginTextsDistinct(keys: seq<string>, groups: seq<Group>, cs: seq<nat>, kept: seq<nat>)
    requires WellGrouped(keys, groups)
    requires |cs| == |groups| && forall a :: 0 <= a < |groups| ==> cs[a] in groups[a].items
    requires StrictlyAscending(kept)
    requires forall k :: 0 <= k < |kept| ==> kept[k] < |keys|
    requires forall k, a :: 0 <= k < |kept| && 0 <= a < |groups| ==> kept[k] !in groups[a].items
    ensures var os := cs + kept;
      forall j, l :: 0 <= j < l < |os| ==> os[j] < |keys| && os[l] < |keys| && keys[os[j]] != keys[os[l]]
  {
    var os := cs + kept;
    var g := |groups|;
    forall a | 0 <= a < g ensures cs[a] < |keys| && keys[cs[a]] == groups[a].key {
      assert IsGroupOf(keys, groups[a]);
    }
    forall k | 0 <= k < |kept| ensures keys[kept[k]] !in BucketKeys(groups) {
      forall a | 0 <= a < g ensures groups[a].key != keys[kept[k]] {
        assert IsGroupOf(keys, groups[a]);
      }
    }
    forall j, l | 0 <= j < l < |os| ensures os[j] < |keys| && os[l] < |keys| && keys[os[j]] != keys[os[l]] {
      if l < g {
        assert os[j] == cs[j] && os[l] == cs[l];
        assert BucketKeys(groups)[j] != BucketKeys(groups)[l];
      } else if j < g {
        assert os[j] == cs[j] && os[l] == kept[l - g];
        assert BucketKeys(groups)[j] == groups[j].key;
      } else {
        assert os[j] == kept[j - g] && os[l] == kept[l - g];
        assert kept[j - g] < kept[l - g];
        assert keys[kept[j - g]] !in BucketKeys(groups);
      }
    }
  }

  /** The records an assembly of canonical and kept records is made from: the canonical
      positions in group order, then the kept positions. */
  lemma AssembledOrigins(records: seq<Record>, groups: seq<Group>, kept: seq<nat>)
    requires GroupsRunnable(records, groups) && KeptRunnable(records, kept)
    ensures Selectable(records, groups)
    ensures var out := EnhancedCanonicals(records, groups) + TaggedRecords(records, kept);
      var os := Canonicals(records, groups) + kept;
      && |out| == |os|
      && forall j :: 0 <= j < |os| ==>
           && os[j] < |records|
           && out[j].question == records[os[j]].question
           && out[j].metadata.Val?
  {
    var ec := EnhancedCanonicals(records, groups);
    var tr := TaggedRecords(records, kept);
    var out := ec + tr;
    var os := Canonicals(records, groups) + kept;
    forall j | 0 <= j < |os| ensures os[j] < |records| && out[j].question == records[os[j]].question && out[j].metadata.Val? {
      if j < |groups| {
        assert out[j] == ec[j];
        assert GroupRunnable(records, groups[j]);
      } else {
        assert out[j] == tr[j - |groups|];
      }
    }
  }

  /** Each output record has the question of the input record it was made from, and
      mapping metadata. */
  lemma OutputOrigins(records: seq<Record>)
    requires Runnable(records)
    ensures var groups := FindDuplicates(records);
      var os := Canonicals(records, groups) + KeptIndices(records, groups);
      var out := Run(records).records;
      && |out| == |os|
      && forall j :: 0 <= j < |os| ==>
           os[j] < |records| && out[j].question == records[os[j]].question && out[j].metadata.Val?
  {
    var groups := FindDuplicates(records);
    var kept := KeptIndices(records, groups);
    AssembledOrigins(records, groups, kept);
  }

  /** The kept positions lie in no group. */
  lemma KeptOutside(records: seq<Record>, groups: seq<Group>)
    requires Selectable(records, groups)
    ensures var kept := KeptIndices(records, groups);
      forall k, a :: 0 <= k < |kept| && 0 <= a < |groups| ==> kept[k] !in groups[a].items
  {
    var kept := KeptIndices(records, groups);
    forall k, a | 0 <= k < |kept| && 0 <= a < |groups| ensures kept[k] !in groups[a].items {
      assert kept[k] in kept;
      KeptIffOutside(records, groups, kept[k]);
    }
  }

  /** Texts at pairwise different-text positions give a key sequence without repeats. */
  lemma DistinctKeysFromOrigins(records: seq<Record>, out: seq<Record>, os: seq<nat>)
    requires QuestionsAreText(records)
    requires |out| == |os|
    requires forall j :: 0 <= j < |os| ==> os[j] < |records| && out[j].question == records[os[j]].question
    requires forall j, l :: 0 <= j < l < |os| ==>
      os[j] < |records| && os[l] < |records| && QuestionKeys(records)[os[j]] != QuestionKeys(records)[os[l]]
    ensures QuestionsAreText(out)
    ensures Distinct(QuestionKeys(out))
  {
    var keys := QuestionKeys(records);
    assert QuestionsAreText(out) by {
      forall j | 0 <= j < |out| ensures !out[j].question.Null? {
        assert !records[os[j]].question.Null?;
      }
    }
    var outKeys := QuestionKeys(out);
    forall j, l | 0 <= j < l < |outKeys| ensures outKeys[j] != outKeys[l] {
      assert outKeys[j] == keys[os[j]] && outKeys[l] == keys[os[l]];
    }
  }

  /** Running the deduplicator leaves no two questions with the same stripped text. */
  lemma CleanOutput(records: seq<Record>)
    requires Runnable(records)
    ensures QuestionsAreText(Run(records).records)
    ensures FindDuplicates(Run(records).records) == []
  {
    var groups := FindDuplicates(records);
    var keys := QuestionKeys(records);
    var cs := Canonicals(records, groups);
    var kept := KeptIndices(records, groups);
    var out := Run(records).records;
    OutputOrigins(records);
    forall a | 0 <= a < |groups| ensures cs[a] in groups[a].items {
    }
    KeptOutside(records, groups);
    OriginTextsDistinct(keys, groups, cs, kept);
    DistinctKeysFromOrigins(records, out, cs + kept);
    NoGroupsForDistinctTexts(QuestionKeys(out));
  }

  // ---------------------------------------------------------------- running again

  /** The ascending sequence holding exactly `0 .. n-1` is `[0, 1, ..., n-1]`. */
  lemma AscendingAll(xs: seq<nat>, n: nat)
    requires StrictlyAscending(xs)
    requires forall x: nat :: x in xs <==> x < n
    ensures |xs| == n && forall k :: 0 <= k < n ==> xs[k] == k
  {
    var ys := seq(n, k requires 0 <= k < n => k as nat);
    forall x: nat ensures x in xs <==> x in ys {
      if x < n {
        assert ys[x] == x;
      }
    }
    SameAscending(xs, ys);
  }

  /** Without groups every position is kept, in order. */
  lemma KeptWithoutGroups(xs: seq<Record>)
    ensures var kept := KeptIndices(xs, []);
      |kept| == |xs| && forall k :: 0 <= k < |xs| ==> kept[k] == k
  {
    var kept := KeptIndices(xs, []);
    forall x: nat ensures x in kept <==> x < |xs| {
      KeptIffOutside(xs, [], x);
    }
    AscendingAll(kept, |xs|);
  }

  /** On records without duplicate texts the deduplicator completes, keeps every record in
      place and only marks it `is_deduplicated: false`. */
  lemma NoDuplicatesRun(xs: seq<Record>)
    requires QuestionsAreText(xs) && FindDuplicates(xs) == []
    requires forall j :: 0 <= j < |xs| ==> !xs[j].metadata.Null?
    ensures var res := Deduplicate(xs);
      && res.Success?
      && res.value.report.totalDuplicatesFound == 0
      && res.value.report.questionsRemoved == 0
      && |res.value.records| == |xs|
      && forall j :: 0 <= j < |xs| ==> res.value.records[j] == Tag(xs[j])
  {
    var kept := KeptIndices(xs, []);
    KeptWithoutGroups(xs);
    assert KeptRunnable(xs, kept);
    assert Runnable(xs);
    var tr := TaggedRecords(xs, kept);
    assert Run(xs).records == EnhancedCanonicals(xs, []) + tr;
    assert EnhancedCanonicals(xs, []) == [];
  }

  /** A second run over the output completes, finds no duplicate group and removes nothing:
      it only marks every record `is_deduplicated: false`. */
  lemma Rerun(records: seq<Record>)
    requires Runnable(records)
    ensures var out := Run(records).records;
      var again := Deduplicate(out);
      && again.Success?
      && again.value.report.totalDuplicatesFound == 0
      && again.value.report.questionsRemoved == 0
      && |again.value.records| == |out|
      && (forall j :: 0 <= j < |out| ==> out[j].metadata.Val?)
      && forall j :: 0 <= j < |out| ==> again.value.records[j] == Tag(out[j])
  {
    CleanOutput(records);
    OutputOrigins(records);
    NoDuplicatesRun(Run(records).records);
  }

  /** Consequently the script is not idempotent: whenever a group was found, the second run
      rewrites the first canonical record's `is_deduplicated` from `true` to `false`. */
  lemma RerunRetagsCanonical(records: seq<Record>)
    requires Runnable(records) && |FindDuplicates(records)| > 0
    ensures var out := Run(records).records;
      var again := Deduplicate(out);
      && again.Success?
      && |out| > 0 && |again.value.records| == |out|
      && out[0].metadata.Val? && again.value.records[0].metadata.Val?
      && out[0].metadata.value[IS_DEDUPLICATED] == JBool(true)
      && again.value.records[0].metadata.value[IS_DEDUPLICATED] == JBool(false)
  {
    var groups := FindDuplicates(records);
    var out := Run(records).records;
    assert out[0] == EnhancedCanonicals(records, groups)[0];
    Rerun(records);
  }
}
