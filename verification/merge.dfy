/**
 * `merge_sources`: the provenance of a duplicate group, as sorted duplicate-free lists of
 * source files and years plus the full audit trail in group order.
 */
module Merge {
  import opened Wrappers
  import opened Text
  import opened Records
  import opened Canonical

  /** `str(year)` when `q.get('year')` is truthy, otherwise nothing is collected. */
  function YearString(y: Slot<YearValue>): Option<string> {
    if !YearIsTruthy(y) then None
    else match y.value
      case YearText(t) => Some(t)
      case YearNumber(n) => Some(IntToDecimal(n))
  }

  /** `q.get('source_file')` when it is truthy (present, not `null`, not empty). */
  function TruthyFile(f: Slot<string>): Option<string> {
    match f
    case Val(s) => if s != "" then Some(s) else None
    case _ => None
  }

  /** `sorted(list(s))` for the set `s` of the values present in `vals`. */
  function SortedSet(vals: seq<Option<string>>): (r: seq<string>)
    ensures StrictlySorted(r)
    ensures forall x :: x in r <==> Some(x) in vals
  {
    if |vals| == 0 then []
    else
      var r := SortedSet(vals[..|vals| - 1]);
      assert forall x :: Some(x) in vals <==> Some(x) in vals[..|vals| - 1] || vals[|vals| - 1] == Some(x) by {
        assert vals == vals[..|vals| - 1] + [vals[|vals| - 1]];
      }
      match vals[|vals| - 1]
      case None => r
      case Some(x) => InsertSorted(r, x)
  }

  /** The audit-trail line of one duplicate instance. */
  function EntryOf(records: seq<Record>, i: nat): SourceEntry
    requires i < |records|
  {
    var q := records[i];
    SourceEntry(Get(q.year), Get(q.sourceFile), Get(q.questionNumber), i)
  }

  predicate InRange(records: seq<Record>, indices: seq<nat>) {
    forall k :: 0 <= k < |indices| ==> indices[k] < |records|
  }

  /** The `source_files` set of `merge_sources`, sorted. */
  function SourcePdfs(records: seq<Record>, indices: seq<nat>): (r: seq<string>)
    requires InRange(records, indices)
    ensures StrictlySorted(r)
    ensures forall f :: f in r <==>
      exists k :: 0 <= k < |indices| && TruthyFile(records[indices[k]].sourceFile) == Some(f)
  {
    var files := seq(|indices|, k requires 0 <= k < |indices| && InRange(records, indices) =>
      TruthyFile(records[indices[k]].sourceFile));
    var r := SortedSet(files);
    forall f ensures f in r <==> exists k :: 0 <= k < |indices| && TruthyFile(records[indices[k]].sourceFile) == Some(f) {
      if f in r {
        assert Some(f) in files;
        var k :| 0 <= k < |indices| && files[k] == Some(f);
        assert TruthyFile(records[indices[k]].sourceFile) == Some(f);
      }
      if exists k :: 0 <= k < |indices| && TruthyFile(records[indices[k]].sourceFile) == Some(f) {
        var k :| 0 <= k < |indices| && TruthyFile(records[indices[k]].sourceFile) == Some(f);
        assert files[k] == Some(f);
      }
    }
    r
  }

  /** The `years` set of `merge_sources`, sorted. */
  function YearsFound(records: seq<Record>, indices: seq<nat>): (r: seq<string>)
    requires InRange(records, indices)
    ensures StrictlySorted(r)
    ensures forall y :: y in r <==>
      exists k :: 0 <= k < |indices| && YearString(records[indices[k]].year) == Some(y)
  {
    var years := seq(|indices|, k requires 0 <= k < |indices| && InRange(records, indices) =>
      YearString(records[indices[k]].year));
    var r := SortedSet(years);
    forall y ensures y in r <==> exists k :: 0 <= k < |indices| && YearString(records[indices[k]].year) == Some(y) {
      if y in r {
        assert Some(y) in years;
        var k :| 0 <= k < |indices| && years[k] == Some(y);
        assert YearString(records[indices[k]].year) == Some(y);
      }
      if exists k :: 0 <= k < |indices| && YearString(records[indices[k]].year) == Some(y) {
        var k :| 0 <= k < |indices| && YearString(records[indices[k]].year) == Some(y);
        assert years[k] == Some(y);
      }
    }
    r
  }

  /** `merge_sources(questions, indices)`. */
  function MergeSources(records: seq<Record>, indices: seq<nat>): (p: Provenance)
    requires InRange(records, indices)
    ensures p.duplicateCount == |indices|
    ensures |p.allSources| == |indices|
    ensures forall k :: 0 <= k < |indices| ==>
      var e := p.allSources[k];
      var q := records[indices[k]];
      && e.originalIndex == indices[k]
      && e.year == Get(q.year)
      && e.sourceFile == Get(q.sourceFile)
      && e.questionNumber == Get(q.questionNumber)
    ensures StrictlySorted(p.sourcePdfs)
    ensures forall f :: f in p.sourcePdfs <==>
      exists k :: 0 <= k < |indices| && TruthyFile(records[indices[k]].sourceFile) == Some(f)
    ensures StrictlySorted(p.yearsFound)
    ensures forall y :: y in p.yearsFound <==>
      exists k :: 0 <= k < |indices| && YearString(records[indices[k]].year) == Some(y)
  {
    var entries := seq(|indices|, k requires 0 <= k < |indices| && InRange(records, indices) =>
      EntryOf(records, indices[k]));
    Provenance(SourcePdfs(records, indices), YearsFound(records, indices), entries, |indices|)
  }

  /** `source_pdfs` is THE sorted list of the group's distinct truthy source files: any
      strictly sorted list with those elements is equal to it. */
  lemma SourcePdfsDetermined(records: seq<Record>, indices: seq<nat>, xs: seq<string>)
    requires InRange(records, indices)
    requires StrictlySorted(xs)
    requires forall f :: f in xs <==>
      exists k :: 0 <= k < |indices| && TruthyFile(records[indices[k]].sourceFile) == Some(f)
    ensures xs == MergeSources(records, indices).sourcePdfs
  {
    SortedUnique(xs, MergeSources(records, indices).sourcePdfs);
  }

  /** Likewise `years_found` is THE sorted list of the group's distinct truthy years, as text. */
  lemma YearsFoundDetermined(records: seq<Record>, indices: seq<nat>, ys: seq<string>)
    requires InRange(records, indices)
    requires StrictlySorted(ys)
    requires forall y :: y in ys <==>
      exists k :: 0 <= k < |indices| && YearString(records[indices[k]].year) == Some(y)
    ensures ys == MergeSources(records, indices).yearsFound
  {
    SortedUnique(ys, MergeSources(records, indices).yearsFound);
  }
}
