/**
 * `deduplicate_questions`: one enhanced canonical record per duplicate group, in group order,
 * followed by every question outside all groups in original order, plus the report.
 */
module Dedup {
  import opened Wrappers
  import opened Seqs
  import opened Records
  import opened Grouping
  import opened Canonical
  import opened Merge
  import opened Duplicates

  // ---------------------------------------------------------------- records written out

  /** The `metadata` mapping once `{}` has been put in place of an absent one. */
  function MetadataOf(r: Record): map<string, Json>
    requires !r.metadata.Null?
  {
    match r.metadata
    case Val(m) => m
    case _ => map[]
  }

  /** The four keys the deduplicator sets on a canonical record's metadata. */
  predicate IsDedupKey(k: string) {
    k == SOURCE_PDFS || k == YEARS_FOUND || k == IS_DEDUPLICATED || k == DUPLICATE_COUNT
  }

  /** The enhanced canonical record: `source_metadata` replaced by the merged provenance and
      the four summary keys written into `metadata`; nothing else changes. */
  function Enhance(r: Record, p: Provenance): (e: Record)
    requires !r.metadata.Null?
    ensures e == r.(metadata := e.metadata, sourceMetadata := Val(p))
    ensures e.metadata.Val?
    ensures forall k :: k in e.metadata.value <==> k in MetadataOf(r) || IsDedupKey(k)
    ensures forall k :: k in MetadataOf(r) && !IsDedupKey(k) ==> e.metadata.value[k] == MetadataOf(r)[k]
    ensures SOURCE_PDFS in e.metadata.value && e.metadata.value[SOURCE_PDFS] == StringArray(p.sourcePdfs)
    ensures YEARS_FOUND in e.metadata.value && e.metadata.value[YEARS_FOUND] == StringArray(p.yearsFound)
    ensures IS_DEDUPLICATED in e.metadata.value && e.metadata.value[IS_DEDUPLICATED] == JBool(true)
    ensures DUPLICATE_COUNT in e.metadata.value && e.metadata.value[DUPLICATE_COUNT] == JInt(p.duplicateCount)
  {
    var m := MetadataOf(r)[SOURCE_PDFS := StringArray(p.sourcePdfs)]
                          [YEARS_FOUND := StringArray(p.yearsFound)]
                          [IS_DEDUPLICATED := JBool(true)]
                          [DUPLICATE_COUNT := JInt(p.duplicateCount)];
    r.(metadata := Val(m), sourceMetadata := Val(p))
  }

  /** A question outside every group, marked `is_deduplicated: false`; nothing else changes. */
  function Tag(r: Record): (t: Record)
    requires !r.metadata.Null?
    ensures t == r.(metadata := t.metadata)
    ensures t.metadata.Val?
    ensures forall k :: k in t.metadata.value <==> k in MetadataOf(r) || k == IS_DEDUPLICATED
    ensures forall k :: k in MetadataOf(r) && k != IS_DEDUPLICATED ==> t.metadata.value[k] == MetadataOf(r)[k]
    ensures IS_DEDUPLICATED in t.metadata.value && t.metadata.value[IS_DEDUPLICATED] == JBool(false)
  {
    r.(metadata := Val(MetadataOf(r)[IS_DEDUPLICATED := JBool(false)]))
  }

  // ---------------------------------------------------------------- canonicals and the rest

  /** Every group is non-empty and every member has a priority key. */
  predicate Selectable(records: seq<Record>, groups: seq<Group>) {
    forall a :: 0 <= a < |groups| ==> |groups[a].items| > 0 && KeysDefined(records, groups[a].items)
  }

  /** The canonical index of each group, in group order. */
  function Canonicals(records: seq<Record>, groups: seq<Group>): (cs: seq<nat>)
    requires Selectable(records, groups)
    ensures |cs| == |groups|
    ensures forall a :: 0 <= a < |groups| ==> cs[a] == SelectCanonical(records, groups[a].items)
  {
    seq(|groups|, a requires 0 <= a < |groups| && Selectable(records, groups) =>
      SelectCanonical(records, groups[a].items))
  }

  /** The indices `indices_to_keep.discard(idx)` removes: every member other than its
      group's canonical one. */
  function Removed(records: seq<Record>, groups: seq<Group>): (s: set<nat>)
    requires Selectable(records, groups)
    ensures forall x :: x in s <==>
      exists a :: 0 <= a < |groups| && x in groups[a].items && x != SelectCanonical(records, groups[a].items)
  {
    set a: nat, x: nat | a < |groups| && x in groups[a].items && x != SelectCanonical(records, groups[a].items) :: x
  }

  /** `sorted(indices_to_keep)` without the canonical indices: the records copied after the
      canonical ones. */
  function KeptIndices(records: seq<Record>, groups: seq<Group>): (kept: seq<nat>)
    requires Selectable(records, groups)
    ensures StrictlyAscending(kept)
    ensures forall x: nat :: x in kept <==>
      x < |records| && x !in Removed(records, groups) && x !in Canonicals(records, groups)
    ensures forall k :: 0 <= k < |kept| ==> kept[k] < |records|
  {
    var keep := Range(|records|) - Removed(records, groups);
    var sorted := Ascending(|records|, keep);
    var kept := Without(sorted, Canonicals(records, groups));
    WithoutAscending(sorted, Canonicals(records, groups));
    assert forall k :: 0 <= k < |kept| ==> kept[k] in kept;
    kept
  }

  /** The questions copied after the canonical ones are exactly those outside every group. */
  lemma KeptIffOutside(records: seq<Record>, groups: seq<Group>, x: nat)
    requires Selectable(records, groups)
    ensures x in KeptIndices(records, groups) <==>
      x < |records| && forall a :: 0 <= a < |groups| ==> x !in groups[a].items
  {
    var cs := Canonicals(records, groups);
    if exists a :: 0 <= a < |groups| && x in groups[a].items {
      var a :| 0 <= a < |groups| && x in groups[a].items;
      if x == SelectCanonical(records, groups[a].items) {
        assert cs[a] == x;
      }
    }
    forall a | 0 <= a < |cs| ensures cs[a] in groups[a].items {
    }
  }

  // ---------------------------------------------------------------- the report

  /** One entry of `duplicate_groups`. */
  datatype GroupAudit = GroupAudit(
    canonicalIndex: nat,
    canonicalUnit: Option<string>,
    canonicalYear: Option<YearValue>,
    duplicateIndices: seq<nat>,
    mergedSources: Provenance)

  datatype Report = Report(
    totalOriginal: nat,
    totalDuplicatesFound: nat,
    totalDuplicateInstances: int,
    duplicateGroups: seq<GroupAudit>,
    totalAfterDeduplication: nat,
    questionsRemoved: int)

  datatype Outcome = Outcome(records: seq<Record>, report: Report)

  /** `sum(len(v) - 1 for v in duplicates.values())`. */
  function DuplicateInstances(groups: seq<Group>): (n: int)
    ensures n == TotalSize(groups) - |groups|
  {
    if |groups| == 0 then 0 else (|groups[0].items| - 1) + DuplicateInstances(groups[1..])
  }

  // ---------------------------------------------------------------- where the script raises

  /** The exceptions `deduplicate_questions` can raise on well-typed input, by the index of
      the offending record. */
  datatype DedupError =
    | QuestionNotText(index: nat)     // `None.strip()`
    | YearNotInteger(index: nat)      // `int(year)` on a text that is not an integer
    | MetadataNotMapping(index: nat)  // item assignment on a `null` metadata

  /** Each group's canonical record can be computed and has usable metadata. */
  predicate GroupRunnable(records: seq<Record>, g: Group) {
    && |g.items| > 0
    && KeysDefined(records, g.items)
    && !records[SelectCanonical(records, g.items)].metadata.Null?
  }

  predicate GroupsRunnable(records: seq<Record>, groups: seq<Group>) {
    forall a :: 0 <= a < |groups| ==> GroupRunnable(records, groups[a])
  }

  predicate KeptRunnable(records: seq<Record>, kept: seq<nat>) {
    forall k :: 0 <= k < |kept| ==> kept[k] < |records| && !records[kept[k]].metadata.Null?
  }

  /** The script runs to completion on `records`. */
  predicate Runnable(records: seq<Record>) {
    && QuestionsAreText(records)
    && GroupsRunnable(records, FindDuplicates(records))
    && KeptRunnable(records, KeptIndices(records, FindDuplicates(records)))
  }

  /** `g` is non-empty, its keys can be computed, and `i` is its canonical index. */
  predicate GroupSelects(records: seq<Record>, g: Group, i: nat) {
    |g.items| > 0 && KeysDefined(records, g.items) && SelectCanonical(records, g.items) == i
  }

  /** Position `k` of `g` is the first member, in group order, whose year `int()` rejects. */
  predicate FirstYearFailure(records: seq<Record>, g: Group, k: nat) {
    && k < |g.items|
    && g.items[k] < |records|
    && PriorityKey(records[g.items[k]]).None?
    && forall m :: 0 <= m < k ==> g.items[m] < |records| && PriorityKey(records[g.items[m]]).Some?
  }

  /** How one group makes the script raise: at its first member whose year `int()` rejects;
      or, when every key can be computed, at its canonical record if that has `null` metadata. */
  ghost predicate GroupFailsWith(records: seq<Record>, g: Group, e: DedupError) {
    match e
    case YearNotInteger(i) => exists k: nat :: FirstYearFailure(records, g, k) && g.items[k] == i
    case MetadataNotMapping(i) => GroupSelects(records, g, i) && records[i].metadata.Null?
    case QuestionNotText(_) => false
  }

  /** The loop over `groups` raises `e` at group `a`: every earlier group goes through. */
  ghost predicate GroupsFailAt(records: seq<Record>, groups: seq<Group>, a: nat, e: DedupError) {
    && a < |groups|
    && GroupFailsWith(records, groups[a], e)
    && forall b :: 0 <= b < a ==> GroupRunnable(records, groups[b])
  }

  /** The loop over `groups` raises `e`. */
  ghost predicate GroupsFailWith(records: seq<Record>, groups: seq<Group>, e: DedupError) {
    exists a: nat :: GroupsFailAt(records, groups, a, e)
  }

  /** Position `k` of `kept` is the first whose record has `null` metadata. */
  predicate FirstNullKept(records: seq<Record>, kept: seq<nat>, k: nat) {
    && k < |kept|
    && kept[k] < |records|
    && records[kept[k]].metadata.Null?
    && forall m :: 0 <= m < k ==> kept[m] < |records| && !records[kept[m]].metadata.Null?
  }

  /** The first exception raised while processing one group. */
  function GroupError(records: seq<Record>, g: Group): (e: Option<DedupError>)
    requires |g.items| > 0 && InRange(records, g.items)
    ensures e.None? <==> GroupRunnable(records, g)
    ensures e.Some? ==> GroupFailsWith(records, g, e.value)
  {
    match FirstIndex(g.items, (i: nat) => i < |records| && PriorityKey(records[i]).None?)
    case Some(k) =>
      assert FirstYearFailure(records, g, k);
      Some(YearNotInteger(g.items[k]))
    case None =>
      var c := SelectCanonical(records, g.items);
      if records[c].metadata.Null? then Some(MetadataNotMapping(c)) else None
  }

  /** The first exception raised by the loop over the groups. */
  function GroupsError(records: seq<Record>, groups: seq<Group>): (e: Option<DedupError>)
    requires forall a :: 0 <= a < |groups| ==> |groups[a].items| > 0 && InRange(records, groups[a].items)
    ensures e.None? <==> GroupsRunnable(records, groups)
    ensures e.Some? ==> GroupsFailWith(records, groups, e.value)
  {
    if |groups| == 0 then None
    else match GroupError(records, groups[0])
      case Some(err) =>
        assert GroupsFailAt(records, groups, 0, err);
        Some(err)
      case None =>
        var rest := GroupsError(records, groups[1..]);
        assert forall a :: 0 < a < |groups| ==> groups[a] == groups[1..][a - 1];
        if rest.Some? then GroupsFailLater(records, groups, rest.value); rest else rest
  }

  /** A failure in the groups after a group that goes through is a failure of the whole loop. */
  lemma GroupsFailLater(records: seq<Record>, groups: seq<Group>, e: DedupError)
    requires |groups| > 0 && GroupRunnable(records, groups[0])
    requires GroupsFailWith(records, groups[1..], e)
    ensures GroupsFailWith(records, groups, e)
  {
    var a: nat :| GroupsFailAt(records, groups[1..], a, e);
    assert groups[a + 1] == groups[1..][a];
    forall b | 0 <= b < a + 1 ensures GroupRunnable(records, groups[b]) {
      if b > 0 {
        assert groups[b] == groups[1..][b - 1];
      }
    }
    assert GroupsFailAt(records, groups, a + 1, e);
  }

  /** The first exception raised by the loop over the remaining questions. */
  function KeptError(records: seq<Record>, kept: seq<nat>): (e: Option<DedupError>)
    requires forall k :: 0 <= k < |kept| ==> kept[k] < |records|
    ensures e.None? <==> KeptRunnable(records, kept)
    ensures e.Some? ==>
      && e.value.MetadataNotMapping?
      && exists k: nat :: FirstNullKept(records, kept, k) && kept[k] == e.value.index
  {
    match FirstIndex(kept, (i: nat) => i < |records| && records[i].metadata.Null?)
    case None => None
    case Some(k) =>
      assert FirstNullKept(records, kept, k);
      Some(MetadataNotMapping(kept[k]))
  }

  // ---------------------------------------------------------------- assembly

  function EnhancedCanonicals(records: seq<Record>, groups: seq<Group>): (rs: seq<Record>)
    requires GroupsRunnable(records, groups)
    ensures |rs| == |groups|
    ensures forall a :: 0 <= a < |groups| ==>
      rs[a] == Enhance(records[SelectCanonical(records, groups[a].items)], MergeSources(records, groups[a].items))
  {
    seq(|groups|, a requires 0 <= a < |groups| && GroupsRunnable(records, groups) =>
      Enhance(records[SelectCanonical(records, groups[a].items)], MergeSources(records, groups[a].items)))
  }

  function TaggedRecords(records: seq<Record>, kept: seq<nat>): (rs: seq<Record>)
    requires KeptRunnable(records, kept)
    ensures |rs| == |kept|
    ensures forall k :: 0 <= k < |kept| ==> rs[k] == Tag(records[kept[k]])
  {
    seq(|kept|, k requires 0 <= k < |kept| && KeptRunnable(records, kept) => Tag(records[kept[k]]))
  }

  /** The report's `duplicate_groups`: one entry per group, in group order, listing the group's
      members in order, the member chosen as canonical (the first of least key), that record's
      `unit` and `year` as `dict.get` reads them, and the group's merged provenance. */
  function Audits(records: seq<Record>, groups: seq<Group>): (audits: seq<GroupAudit>)
    requires Selectable(records, groups)
    ensures |audits| == |groups|
    ensures forall a :: 0 <= a < |groups| ==>
      && audits[a].duplicateIndices == groups[a].items
      && audits[a].canonicalIndex in groups[a].items
      && audits[a].canonicalIndex < |records|
      && IsFirstLeast(records, groups[a].items, audits[a].canonicalIndex)
      && audits[a].canonicalUnit == Get(records[audits[a].canonicalIndex].unit)
      && audits[a].canonicalYear == Get(records[audits[a].canonicalIndex].year)
      && audits[a].mergedSources == MergeSources(records, groups[a].items)
  {
    CanonicalsFirstLeast(records, groups);
    seq(|groups|, a requires 0 <= a < |groups| && Selectable(records, groups) =>
      var c := SelectCanonical(records, groups[a].items);
      GroupAudit(c, Get(records[c].unit), Get(records[c].year), groups[a].items,
                 MergeSources(records, groups[a].items)))
  }

  lemma CanonicalsFirstLeast(records: seq<Record>, groups: seq<Group>)
    requires Selectable(records, groups)
    ensures forall a :: 0 <= a < |groups| ==>
      IsFirstLeast(records, groups[a].items, SelectCanonical(records, groups[a].items))
  {
    forall a | 0 <= a < |groups|
      ensures IsFirstLeast(records, groups[a].items, SelectCanonical(records, groups[a].items))
    {
      CanonicalIsFirstLeast(records, groups[a].items);
    }
  }

  /** The result of a run that completes: the canonical records in group order, then the
      questions outside every group in ascending original order, and the report. */
  function Run(records: seq<Record>): Outcome
    requires Runnable(records)
  {
    var groups := FindDuplicates(records);
    var kept := KeptIndices(records, groups);
    var output := EnhancedCanonicals(records, groups) + TaggedRecords(records, kept);
    Outcome(output, Report(|records|, |groups|, DuplicateInstances(groups), Audits(records, groups),
                           |output|, |records| - |output|))
  }

  /** Which exception the script raises: at the first `null` question; otherwise at the first
      group that does not go through (its first member whose year `int()` rejects, or its
      canonical record's `null` metadata); otherwise at the first kept record with `null`
      metadata. */
  ghost predicate Explains(records: seq<Record>, e: DedupError) {
    match e
    case QuestionNotText(i) =>
      && i < |records|
      && records[i].question.Null?
      && forall j :: 0 <= j < i ==> !records[j].question.Null?
    case YearNotInteger(_) =>
      && QuestionsAreText(records)
      && GroupsFailWith(records, FindDuplicates(records), e)
    case MetadataNotMapping(i) =>
      && QuestionsAreText(records)
      && var groups := FindDuplicates(records);
         || GroupsFailWith(records, groups, e)
         || (GroupsRunnable(records, groups) && KeptFailsAt(records, groups, i))
  }

  /** Every group goes through and `i` is the first kept index whose metadata is `null`. */
  ghost predicate KeptFailsAt(records: seq<Record>, groups: seq<Group>, i: nat)
    requires GroupsRunnable(records, groups)
  {
    var kept := KeptIndices(records, groups);
    exists k: nat :: FirstNullKept(records, kept, k) && kept[k] == i
  }

  /** `deduplicate_questions(questions)`: the outcome, or the first exception it raises. */
  function Deduplicate(records: seq<Record>): (res: Result<Outcome, DedupError>)
    ensures res.Success? <==> Runnable(records)
    ensures res.Success? ==> res.value == Run(records)
    ensures res.Failure? ==> Explains(records, res.error)
  {
    match FirstIndex(records, (r: Record) => r.question.Null?)
    case Some(i) => Failure(QuestionNotText(i))
    case None => ProcessGroups(records)
  }

  /** The loop over the groups, once every question is text. */
  function ProcessGroups(records: seq<Record>): (res: Result<Outcome, DedupError>)
    requires QuestionsAreText(records)
    ensures res.Success? <==> Runnable(records)
    ensures res.Success? ==> res.value == Run(records)
    ensures res.Failure? ==> Explains(records, res.error)
  {
    var groups := FindDuplicates(records);
    GroupsInRange(records);
    match GroupsError(records, groups)
    case Some(e) => Failure(e)
    case None => ProcessKept(records)
  }

  /** The loop over the remaining questions, once every group went through. */
  function ProcessKept(records: seq<Record>): (res: Result<Outcome, DedupError>)
    requires QuestionsAreText(records) && GroupsRunnable(records, FindDuplicates(records))
    ensures res.Success? <==> Runnable(records)
    ensures res.Success? ==> res.value == Run(records)
    ensures res.Failure? ==> Explains(records, res.error)
  {
    var groups := FindDuplicates(records);
    var kept := KeptIndices(records, groups);
    match KeptError(records, kept)
    case Some(e) => Failure(e)
    case None => Success(Run(records))
  }

  lemma GroupsInRange(records: seq<Record>)
    requires QuestionsAreText(records)
    ensures var groups := FindDuplicates(records);
      forall a :: 0 <= a < |groups| ==> |groups[a].items| > 0 && InRange(records, groups[a].items)
  {
    var groups := FindDuplicates(records);
    forall a | 0 <= a < |groups| ensures InRange(records, groups[a].items) {
      assert IsGroupOf(QuestionKeys(records), groups[a]);
      assert forall k :: 0 <= k < |groups[a].items| ==> groups[a].items[k] in groups[a].items;
    }
  }

  // ---------------------------------------------------------------- membership facts

  /** An index lies in at most one duplicate group. */
  lemma OneGroupPerIndex(keys: seq<string>, groups: seq<Group>, i: nat, a: nat, b: nat)
    requires WellGrouped(keys, groups)
    requires a < |groups| && b < |groups| && i in groups[a].items && i in groups[b].items
    ensures a == b
  {
    assert groups[a].key == keys[i] == groups[b].key;
    assert BucketKeys(groups)[a] == BucketKeys(groups)[b];
  }

  // ---------------------------------------------------------------- the error is determined

  /** A group at which the script raises does not go through. */
  lemma FailingGroupBlocks(records: seq<Record>, g: Group, e: DedupError)
    requires GroupFailsWith(records, g, e)
    ensures !GroupRunnable(records, g)
  {
    if e.YearNotInteger? {
      var k: nat :| FirstYearFailure(records, g, k) && g.items[k] == e.index;
    }
  }

  /** One group raises at most one exception. */
  lemma GroupFailureUnique(records: seq<Record>, g: Group, e1: DedupError, e2: DedupError)
    requires GroupFailsWith(records, g, e1) && GroupFailsWith(records, g, e2)
    ensures e1 == e2
  {
    if e1.YearNotInteger? {
      var k1: nat :| FirstYearFailure(records, g, k1) && g.items[k1] == e1.index;
      if e2.YearNotInteger? {
        var k2: nat :| FirstYearFailure(records, g, k2) && g.items[k2] == e2.index;
        assert k1 == k2;
      }
    }
  }

  /** The loop over the groups raises at most one exception, at the first group that does not
      go through. */
  lemma GroupsFailureUnique(records: seq<Record>, groups: seq<Group>, e1: DedupError, e2: DedupError)
    requires GroupsFailWith(records, groups, e1) && GroupsFailWith(records, groups, e2)
    ensures e1 == e2
  {
    var a1: nat :| GroupsFailAt(records, groups, a1, e1);
    var a2: nat :| GroupsFailAt(records, groups, a2, e2);
    if a1 < a2 {
      FailingGroupBlocks(records, groups[a1], e1);
    } else if a2 < a1 {
      FailingGroupBlocks(records, groups[a2], e2);
    } else {
      GroupFailureUnique(records, groups[a1], e1, e2);
    }
  }

  /** A loop over the groups that raises does not go through every group. */
  lemma FailingGroupsBlock(records: seq<Record>, groups: seq<Group>, e: DedupError)
    requires GroupsFailWith(records, groups, e)
    ensures !GroupsRunnable(records, groups)
  {
    var a: nat :| GroupsFailAt(records, groups, a, e);
    FailingGroupBlocks(records, groups[a], e);
  }

  /** Two exceptions raised at the first kept record with `null` metadata are the same. */
  lemma KeptFailureUnique(records: seq<Record>, groups: seq<Group>, i1: nat, i2: nat)
    requires GroupsRunnable(records, groups)
    requires KeptFailsAt(records, groups, i1) && KeptFailsAt(records, groups, i2)
    ensures i1 == i2
  {
    var kept := KeptIndices(records, groups);
    var k1: nat :| FirstNullKept(records, kept, k1) && kept[k1] == i1;
    var k2: nat :| FirstNullKept(records, kept, k2) && kept[k2] == i2;
    assert k1 == k2;
  }

  /** At most one exception fits the input: the script's error is determined by the records,
      so `Deduplicate` reports exactly the exception the Python code raises. */
  lemma ErrorIsDetermined(records: seq<Record>, e1: DedupError, e2: DedupError)
    requires Explains(records, e1) && Explains(records, e2)
    ensures e1 == e2
  {
    if e1.QuestionNotText? || e2.QuestionNotText? {
    } else {
      var groups := FindDuplicates(records);
      if GroupsFailWith(records, groups, e1) && GroupsFailWith(records, groups, e2) {
        GroupsFailureUnique(records, groups, e1, e2);
      } else if GroupsFailWith(records, groups, e1) {
        FailingGroupsBlock(records, groups, e1);
      } else if GroupsFailWith(records, groups, e2) {
        FailingGroupsBlock(records, groups, e2);
      } else {
        KeptFailureUnique(records, groups, e1.index, e2.index);
      }
    }
  }
}
