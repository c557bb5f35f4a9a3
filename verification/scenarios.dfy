/**
 * Worked examples of the deduplicator on small lists: a known unit beating an earlier year,
 * a missing year ranking last, and one whole run over three records. Each is stated for any
 * texts, codes and file names meeting a few conditions, then for the literal values.
 */
module Scenarios {
  import opened Wrappers
  import opened Seqs
  import opened Text
  import opened Records
  import opened Grouping
  import opened Canonical
  import opened Merge
  import opened Duplicates
  import opened Dedup
  import opened DedupLaws

  /** A record as it comes out of the extractor: question, unit, year and source file, with
      no question number, metadata or other keys. */
  function Extracted(question: string, unit: string, year: Slot<YearValue>, file: string): Record {
    Record(Val(question), Val(unit), year, Val(file), Missing, Missing, Missing, map[])
  }

  /** The value of a decimal digit. */
  function DigitValue(c: char): int {
    c as int - '0' as int
  }

  /** `int()` reads four decimal digits as the number they spell. */
  lemma FourDigits(s: string)
    requires |s| == 4 && forall k :: 0 <= k < 4 ==> IsDigit(s[k])
    ensures ParseInt(s) == Some(1000 * DigitValue(s[0]) + 100 * DigitValue(s[1]) + 10 * DigitValue(s[2]) + DigitValue(s[3]))
  {
    StripFixed(s);
    assert IsDigitGroup(s);
    assert s[..3][..2] == s[..2] && s[..2][..1] == s[..1] && s[..1][..0] == [];
    assert DigitsValue(s[..1]) == DigitValue(s[0]);
    assert DigitsValue(s[..2]) == 10 * DigitValue(s[0]) + DigitValue(s[1]);
    assert DigitsValue(s[..3]) == 100 * DigitValue(s[0]) + 10 * DigitValue(s[1]) + DigitValue(s[2]);
  }

  /** The priority key of an extracted record whose year text `int()` accepts. */
  lemma DatedKey(question: string, unit: string, year: string, file: string)
    requires ParseInt(year).Some?
    ensures PriorityKey(Extracted(question, unit, Val(YearText(year)), file)) == Some(Key(unit == UNKNOWN, ParseInt(year).value, 0))
  {
    assert year != [] by {
      assert Strip([]) == [];
    }
  }

  /** The priority key of an extracted record without a year. */
  lemma UndatedKey(question: string, unit: string, file: string)
    ensures PriorityKey(Extracted(question, unit, Missing, file)) == Some(Key(unit == UNKNOWN, MISSING_YEAR, 0))
  {
  }

  /** `BBIT106` is a known unit code. */
  lemma KnownCode()
    ensures "BBIT106" != UNKNOWN
  {
    assert "BBIT106"[0] != UNKNOWN[0];
  }

  // ---------------------------------------------------------------- a known unit beats an earlier year

  /** An `"Unknown"` record loses to a record with a known unit, whatever their years. */
  lemma TieBreakPrefersKnownUnit(q: string, code: string, y0: string, y1: string, f0: string, f1: string)
    requires code != UNKNOWN
    requires ParseInt(y0).Some? && ParseInt(y1).Some?
    ensures var rs := [Extracted(q, UNKNOWN, Val(YearText(y0)), f0), Extracted(q, code, Val(YearText(y1)), f1)];
      KeysDefined(rs, [0, 1]) && SelectCanonical(rs, [0, 1]) == 1
  {
    var rs := [Extracted(q, UNKNOWN, Val(YearText(y0)), f0), Extracted(q, code, Val(YearText(y1)), f1)];
    DatedKey(q, UNKNOWN, y0, f0);
    DatedKey(q, code, y1, f1);
    assert KeysDefined(rs, [0, 1]);
    KnownUnitChosen(rs, [0, 1], 1);
  }

  /** A concrete instance: `[{unit: "Unknown", year: "2020"}, {unit: "BBIT106", year: "2021"}]`
      chooses index 1. */
  lemma TieBreakExample()
    ensures var rs := [Extracted("Q", UNKNOWN, Val(YearText("2020")), "a.pdf"), Extracted("Q", "BBIT106", Val(YearText("2021")), "b.pdf")];
      KeysDefined(rs, [0, 1]) && SelectCanonical(rs, [0, 1]) == 1
  {
    KnownCode();
    FourDigits("2020");
    FourDigits("2021");
    TieBreakPrefersKnownUnit("Q", "BBIT106", "2020", "2021", "a.pdf", "b.pdf");
  }

  // ---------------------------------------------------------------- a missing year ranks last

  /** Of two records with the same known unit, the one without a year loses to one whose year
      `int()` reads as less than 9999. */
  lemma SentinelPrefersDatedRecord(q: string, code: string, y1: string, f0: string, f1: string)
    requires code != UNKNOWN
    requires ParseInt(y1).Some? && ParseInt(y1).value < MISSING_YEAR
    ensures var rs := [Extracted(q, code, Missing, f0), Extracted(q, code, Val(YearText(y1)), f1)];
      KeysDefined(rs, [0, 1]) && SelectCanonical(rs, [0, 1]) == 1
  {
    var rs := [Extracted(q, code, Missing, f0), Extracted(q, code, Val(YearText(y1)), f1)];
    UndatedKey(q, code, f0);
    DatedKey(q, code, y1, f1);
    assert KeysDefined(rs, [0, 1]);
    DatedRecordChosen(rs, [0, 1], 1);
  }

  /** A concrete instance: `[{unit: "BBIT106"}, {unit: "BBIT106", year: "2019"}]`
      chooses index 1. */
  lemma SentinelExample()
    ensures var rs := [Extracted("Q", "BBIT106", Missing, "a.pdf"), Extracted("Q", "BBIT106", Val(YearText("2019")), "b.pdf")];
      KeysDefined(rs, [0, 1]) && SelectCanonical(rs, [0, 1]) == 1
  {
    KnownCode();
    FourDigits("2019");
    SentinelPrefersDatedRecord("Q", "BBIT106", "2019", "a.pdf", "b.pdf");
  }

  // ---------------------------------------------------------------- one whole run

  /** Three question texts, the first two equal and the third different, form exactly one
      duplicate group: positions 0 and 1. */
  lemma PairThenOther(keys: seq<string>)
    requires |keys| == 3 && keys[0] == keys[1] && keys[0] != keys[2]
    ensures WellGrouped(keys, [Bucket(keys[0], [0, 1])])
  {
    var g: Group := Bucket(keys[0], [0, 1]);
    forall y: nat ensures y in g.items <==> y < |keys| && keys[y] == g.key {
      assert y in g.items <==> y == 0 || y == 1;
    }
    assert IsGroupOf(keys, g);
    assert BucketKeys([g]) == [g.key];
  }

  /** Three records whose first two questions agree once stripped and differ from the third
      give exactly one duplicate group: positions 0 and 1. */
  lemma OnlyGroup(rs: seq<Record>)
    requires |rs| == 3 && QuestionsAreText(rs)
    requires QuestionKey(rs[0]) == QuestionKey(rs[1]) != QuestionKey(rs[2])
    ensures FindDuplicates(rs) == [Bucket(QuestionKey(rs[0]), [0, 1])]
  {
    var keys := QuestionKeys(rs);
    PairThenOther(keys);
    WellGroupedUnique(keys, [Bucket(keys[0], [0, 1])], FindDuplicates(rs));
  }

  /** The ascending positions below 3 outside `{0, 1}`. */
  lemma OnlyTwo(kept: seq<nat>)
    requires StrictlyAscending(kept)
    requires forall x: nat :: x in kept <==> x < 3 && x != 0 && x != 1
    ensures kept == [2]
  {
    SameAscending(kept, [2]);
  }

  /** With that one group, only the third question is copied after the canonical one. */
  lemma OnlyThirdKept(rs: seq<Record>, g: Group)
    requires |rs| == 3 && g.items == [0, 1] && KeysDefined(rs, [0, 1])
    ensures Selectable(rs, [g])
    ensures KeptIndices(rs, [g]) == [2]
  {
    assert Selectable(rs, [g]);
    KeptComplement(rs, [g]);
    forall x: nat ensures x in Flatten([g]) <==> x == 0 || x == 1 {
      assert x in Flatten([g]) <==> x in [g][0].items;
    }
    OnlyTwo(KeptIndices(rs, [g]));
  }

  /** `source_pdfs` of a two-record group with two truthy files in sorted order. */
  lemma PairFiles(rs: seq<Record>, f0: string, f1: string)
    requires |rs| >= 2
    requires TruthyFile(rs[0].sourceFile) == Some(f0) && TruthyFile(rs[1].sourceFile) == Some(f1)
    requires StrLess(f0, f1)
    ensures InRange(rs, [0, 1])
    ensures MergeSources(rs, [0, 1]).sourcePdfs == [f0, f1]
  {
    var idx: seq<nat> := [0, 1];
    assert InRange(rs, idx);
    forall f ensures f in [f0, f1] <==> exists k :: 0 <= k < |idx| && TruthyFile(rs[idx[k]].sourceFile) == Some(f) {
      if f == f0 {
        assert TruthyFile(rs[idx[0]].sourceFile) == Some(f);
      }
      if f == f1 {
        assert TruthyFile(rs[idx[1]].sourceFile) == Some(f);
      }
    }
    SourcePdfsDetermined(rs, idx, [f0, f1]);
  }

  /** `years_found` of a two-record group with two truthy years, the second sorting first. */
  lemma PairYears(rs: seq<Record>, y0: string, y1: string)
    requires |rs| >= 2
    requires YearString(rs[0].year) == Some(y0) && YearString(rs[1].year) == Some(y1)
    requires StrLess(y1, y0)
    ensures InRange(rs, [0, 1])
    ensures MergeSources(rs, [0, 1]).yearsFound == [y1, y0]
  {
    var idx: seq<nat> := [0, 1];
    assert InRange(rs, idx);
    forall y ensures y in [y1, y0] <==> exists k :: 0 <= k < |idx| && YearString(rs[idx[k]].year) == Some(y) {
      if y == y0 {
        assert YearString(rs[idx[0]].year) == Some(y);
      }
      if y == y1 {
        assert YearString(rs[idx[1]].year) == Some(y);
      }
    }
    YearsFoundDetermined(rs, idx, [y1, y0]);
  }

  /** The audit trail of a two-record group: one line per record, in group order. */
  lemma PairEntries(rs: seq<Record>)
    requires |rs| >= 2
    ensures InRange(rs, [0, 1])
    ensures MergeSources(rs, [0, 1]).allSources == [EntryOf(rs, 0), EntryOf(rs, 1)]
  {
    var idx: seq<nat> := [0, 1];
    assert InRange(rs, idx);
    var p := MergeSources(rs, idx);
    assert p.allSources[0] == EntryOf(rs, 0);
    assert p.allSources[1] == EntryOf(rs, 1);
  }

  /** The script runs to completion on three records whose first two form the only group, the
      second being canonical, when the records it writes into have usable metadata. */
  lemma ThreeRunnable(rs: seq<Record>, g: Group)
    requires |rs| == 3 && QuestionsAreText(rs) && FindDuplicates(rs) == [g]
    requires g.items == [0, 1] && KeysDefined(rs, [0, 1]) && SelectCanonical(rs, [0, 1]) == 1
    requires !rs[1].metadata.Null? && !rs[2].metadata.Null?
    ensures Runnable(rs)
    ensures KeptIndices(rs, [g]) == [2]
  {
    OnlyThirdKept(rs, g);
    assert GroupRunnable(rs, g);
    assert KeptRunnable(rs, [2]);
  }

  /** The canonical records written out for that one group. */
  lemma OneEnhanced(rs: seq<Record>, g: Group, p: Provenance)
    requires |rs| == 3 && g.items == [0, 1] && KeysDefined(rs, [0, 1]) && !rs[1].metadata.Null?
    requires GroupsRunnable(rs, [g]) && SelectCanonical(rs, [0, 1]) == 1 && InRange(rs, [0, 1]) && MergeSources(rs, [0, 1]) == p
    ensures EnhancedCanonicals(rs, [g]) == [Enhance(rs[1], p)]
  {
  }

  /** Its audit entry in `duplicate_groups`. */
  lemma OneAudit(rs: seq<Record>, g: Group, p: Provenance)
    requires |rs| == 3 && g.items == [0, 1] && KeysDefined(rs, [0, 1]) && Selectable(rs, [g])
    requires SelectCanonical(rs, [0, 1]) == 1 && InRange(rs, [0, 1]) && MergeSources(rs, [0, 1]) == p
    ensures Audits(rs, [g]) == [GroupAudit(1, Get(rs[1].unit), Get(rs[1].year), [0, 1], p)]
  {
  }

  /** The third question, tagged. */
  lemma OneTagged(rs: seq<Record>)
    requires |rs| == 3 && !rs[2].metadata.Null? && KeptRunnable(rs, [2])
    ensures TaggedRecords(rs, [2]) == [Tag(rs[2])]
  {
  }

  /** A group of two holds one duplicate instance. */
  lemma OneInstance(g: Group)
    requires |g.items| == 2
    ensures DuplicateInstances([g]) == 1
  {
    assert [g][1..] == [];
  }

  /** The records that run writes out. */
  lemma ThreeRecords(rs: seq<Record>, g: Group, p: Provenance)
    requires |rs| == 3 && Runnable(rs) && FindDuplicates(rs) == [g] && KeptIndices(rs, [g]) == [2]
    requires !rs[1].metadata.Null? && !rs[2].metadata.Null?
    requires g.items == [0, 1] && KeysDefined(rs, [0, 1]) && SelectCanonical(rs, [0, 1]) == 1
    requires InRange(rs, [0, 1]) && MergeSources(rs, [0, 1]) == p
    ensures Run(rs).records == [Enhance(rs[1], p), Tag(rs[2])]
  {
    OneEnhanced(rs, g, p);
    OneTagged(rs);
  }

  /** The counts in the report of that run. */
  lemma ThreeCounts(rs: seq<Record>, g: Group)
    requires |rs| == 3 && Runnable(rs) && FindDuplicates(rs) == [g] && KeptIndices(rs, [g]) == [2]
    requires |g.items| == 2
    ensures var r := Run(rs).report;
      r.totalOriginal == 3 && r.totalDuplicatesFound == 1 && r.totalDuplicateInstances == 1
      && r.totalAfterDeduplication == 2 && r.questionsRemoved == 1
  {
    OneInstance(g);
    assert |Run(rs).records| == |EnhancedCanonicals(rs, [g])| + |TaggedRecords(rs, [2])| == 2;
  }

  /** The `duplicate_groups` entry in the report of that run. */
  lemma ThreeAudit(rs: seq<Record>, g: Group, p: Provenance)
    requires |rs| == 3 && Runnable(rs) && FindDuplicates(rs) == [g]
    requires g.items == [0, 1] && KeysDefined(rs, [0, 1]) && SelectCanonical(rs, [0, 1]) == 1
    requires InRange(rs, [0, 1]) && MergeSources(rs, [0, 1]) == p
    ensures Run(rs).report.duplicateGroups == [GroupAudit(1, Get(rs[1].unit), Get(rs[1].year), [0, 1], p)]
  {
    assert Selectable(rs, [g]);
    OneAudit(rs, g, p);
  }

  /** A whole run over three records whose first two form the only group, the second being
      canonical: the enhanced canonical record, the tagged third one, and the report. */
  lemma RunOfThree(rs: seq<Record>, p: Provenance)
    requires |rs| == 3 && QuestionsAreText(rs)
    requires QuestionKey(rs[0]) == QuestionKey(rs[1]) != QuestionKey(rs[2])
    requires KeysDefined(rs, [0, 1]) && SelectCanonical(rs, [0, 1]) == 1
    requires !rs[1].metadata.Null? && !rs[2].metadata.Null?
    requires InRange(rs, [0, 1]) && MergeSources(rs, [0, 1]) == p
    ensures Deduplicate(rs) == Success(Outcome(
      [Enhance(rs[1], p), Tag(rs[2])],
      Report(3, 1, 1, [GroupAudit(1, Get(rs[1].unit), Get(rs[1].year), [0, 1], p)], 2, 1)))
  {
    var g: Group := Bucket(QuestionKey(rs[0]), [0, 1]);
    OnlyGroup(rs);
    ThreeRunnable(rs, g);
    ThreeRecords(rs, g, p);
    ThreeCounts(rs, g);
    ThreeAudit(rs, g, p);
  }

  /** The free values of a three-question run: two wordings of one question (`first` with unit
      `"Unknown"`, `second` with unit `code`) and one other question, with their years and
      source files. */
  datatype Sample = Sample(
    first: string, second: string, other: string, code: string,
    firstYear: string, secondYear: string, otherYear: string,
    firstFile: string, secondFile: string, otherFile: string)

  /** The three records: the first two share their question once stripped, the third does not. */
  function SampleRecords(x: Sample): (rs: seq<Record>)
    ensures |rs| == 3
  {
    [Extracted(x.first, UNKNOWN, Val(YearText(x.firstYear)), x.firstFile),
     Extracted(x.second, x.code, Val(YearText(x.secondYear)), x.secondFile),
     Extracted(x.other, x.code, Val(YearText(x.otherYear)), x.otherFile)]
  }

  /** What the run below needs of the values: the first two questions agree once stripped and
      differ from the third; `code` is a known unit; both group years are integers, the
      second's text sorting first; both group files are non-empty, the first's sorting first. */
  predicate Fits(x: Sample) {
    && Strip(x.first) == Strip(x.second)
    && Strip(x.first) != Strip(x.other)
    && x.code != UNKNOWN
    && ParseInt(x.firstYear).Some? && ParseInt(x.secondYear).Some?
    && StrLess(x.secondYear, x.firstYear)
    && x.firstFile != "" && x.secondFile != ""
    && StrLess(x.firstFile, x.secondFile)
  }

  /** The merged provenance of the sample's group. */
  function SampleProvenance(x: Sample): Provenance {
    Provenance([x.firstFile, x.secondFile], [x.secondYear, x.firstYear],
               [SourceEntry(Some(YearText(x.firstYear)), Some(x.firstFile), None, 0),
                SourceEntry(Some(YearText(x.secondYear)), Some(x.secondFile), None, 1)],
               2)
  }

  /** `merge_sources` on the sample's group: both files, both years, both audit lines, count 2. */
  lemma SampleMerge(x: Sample)
    requires x.firstYear != "" && x.secondYear != "" && StrLess(x.secondYear, x.firstYear)
    requires x.firstFile != "" && x.secondFile != "" && StrLess(x.firstFile, x.secondFile)
    ensures InRange(SampleRecords(x), [0, 1])
    ensures MergeSources(SampleRecords(x), [0, 1]) == SampleProvenance(x)
  {
    var rs := SampleRecords(x);
    PairFiles(rs, x.firstFile, x.secondFile);
    PairYears(rs, x.firstYear, x.secondYear);
    PairEntries(rs);
  }

  /** The record with the known unit is the canonical one of the sample's group. */
  lemma SampleCanonical(x: Sample)
    requires x.code != UNKNOWN && ParseInt(x.firstYear).Some? && ParseInt(x.secondYear).Some?
    ensures KeysDefined(SampleRecords(x), [0, 1])
    ensures SelectCanonical(SampleRecords(x), [0, 1]) == 1
  {
    var rs := SampleRecords(x);
    DatedKey(x.first, UNKNOWN, x.firstYear, x.firstFile);
    DatedKey(x.second, x.code, x.secondYear, x.secondFile);
    assert KeysDefined(rs, [0, 1]);
    KnownUnitChosen(rs, [0, 1], 1);
  }

  /** The sample's questions, as `find_duplicates` compares them. */
  lemma SampleKeys(x: Sample)
    ensures QuestionsAreText(SampleRecords(x))
    ensures QuestionKey(SampleRecords(x)[0]) == Strip(x.first)
    ensures QuestionKey(SampleRecords(x)[1]) == Strip(x.second)
    ensures QuestionKey(SampleRecords(x)[2]) == Strip(x.other)
  {
  }

  /** The whole run on the sample: the record with the known unit is kept, enhanced with both
      files and both years, then the other question tagged; three in, one group holding one
      duplicate instance, two out. */
  lemma SampleRun(x: Sample)
    requires Fits(x)
    ensures var rs := SampleRecords(x);
      var p := SampleProvenance(x);
      Deduplicate(rs) == Success(Outcome(
        [Enhance(rs[1], p), Tag(rs[2])],
        Report(3, 1, 1, [GroupAudit(1, Some(x.code), Some(YearText(x.secondYear)), [0, 1], p)], 2, 1)))
  {
    var rs := SampleRecords(x);
    SampleFacts(x);
    RunOfThree(rs, SampleProvenance(x));
  }

  /** The sample meets what a run over three records needs. */
  lemma SampleFacts(x: Sample)
    requires Fits(x)
    ensures var rs := SampleRecords(x);
      && QuestionsAreText(rs)
      && QuestionKey(rs[0]) == QuestionKey(rs[1]) != QuestionKey(rs[2])
      && KeysDefined(rs, [0, 1]) && SelectCanonical(rs, [0, 1]) == 1
      && !rs[1].metadata.Null? && !rs[2].metadata.Null?
      && InRange(rs, [0, 1]) && MergeSources(rs, [0, 1]) == SampleProvenance(x)
      && Get(rs[1].unit) == Some(x.code) && Get(rs[1].year) == Some(YearText(x.secondYear))
  {
    SampleKeys(x);
    SampleCanonical(x);
    assert x.firstYear != "" && x.secondYear != "" by {
      assert Strip([]) == [];
    }
    SampleMerge(x);
  }

  /** A concrete sample: two wordings of "What is OOP?" from `a.pdf` (2020, unit
      `"Unknown"`) and `b.pdf` (2019, unit `BBIT106`), and "Define SQL." from `c.pdf`. */
  function OopSample(): Sample {
    Sample("What is OOP?", "What is OOP?", "Define SQL.", "BBIT106",
           "2020", "2019", "2021", "a.pdf", "b.pdf", "c.pdf")
  }

  lemma OopTexts()
    ensures Strip(OopSample().first) == Strip(OopSample().second) != Strip(OopSample().other)
  {
    var x := OopSample();
    StripFixed(x.first);
    StripFixed(x.other);
    assert x.first[0] != x.other[0];
  }

  lemma OopFirstYear()
    ensures ParseInt(OopSample().firstYear).Some?
  {
    FourDigits(OopSample().firstYear);
  }

  lemma OopSecondYear()
    ensures ParseInt(OopSample().secondYear).Some?
  {
    FourDigits(OopSample().secondYear);
  }

  lemma OopYearOrder()
    ensures StrLess(OopSample().secondYear, OopSample().firstYear)
  {
    var x := OopSample();
    assert x.secondYear[1..][1..][1..] == "9" && x.firstYear[1..][1..][1..] == "0";
  }

  lemma OopFiles()
    ensures StrLess(OopSample().firstFile, OopSample().secondFile)
  {
    var x := OopSample();
    assert x.firstFile[0] < x.secondFile[0];
  }

  /** The run on that sample keeps the `b.pdf` wording, lists both files and both years
      (`"2019"` before `"2020"`), and keeps "Define SQL." after it. */
  lemma OopSampleRun()
    ensures var rs := SampleRecords(OopSample());
      var p := Provenance(["a.pdf", "b.pdf"], ["2019", "2020"],
                          [SourceEntry(Some(YearText("2020")), Some("a.pdf"), None, 0),
                           SourceEntry(Some(YearText("2019")), Some("b.pdf"), None, 1)],
                          2);
      Deduplicate(rs) == Success(Outcome(
        [Enhance(rs[1], p), Tag(rs[2])],
        Report(3, 1, 1, [GroupAudit(1, Some("BBIT106"), Some(YearText("2019")), [0, 1], p)], 2, 1)))
  {
    OopTexts();
    OopFirstYear();
    OopSecondYear();
    OopYearOrder();
    OopFiles();
    KnownCode();
    assert Fits(OopSample());
    SampleRun(OopSample());
  }
}
