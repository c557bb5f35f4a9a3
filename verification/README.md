# Question deduplication and unit-code correction, modelled in Dafny

This project models two batch transforms over a loaded list of exam-question records.

- **`deduplicate_questions`** groups records whose stripped question text is identical. It keeps
  groups of two or more, in the order each text was first met. For each group it picks one
  canonical record by a priority key:
  - a known unit first;
  - then the earliest year, with a missing year ranked as 9999;
  - then non-empty metadata;
  - then the first position.

  It merges the group's provenance into sorted sets of source files and years, plus an ordered
  audit trail. It writes an enhanced canonical record per group, then every record outside all
  groups in ascending index order, each tagged `is_deduplicated`, and computes the report
  counters.
- **`fix_unknown_units`** works on the records whose unit is `"Unknown"`:
  - it exports them bucketed by source file;
  - it builds a mapping template with one `null` line per such record;
  - it applies an index → unit mapping;
  - it counts known and unknown units.

Records are immutable datatypes. A JSON key is modelled as a three-way `Slot`, so an absent key
and `null` stay apart. The difference matters to `dict.get` with a default, to truthiness, and
to `'k' in d`. Every place where the Python code raises on well-typed input is an explicit error
value: a `null` question reaching `.strip()` or a slice, a year text that `int()` rejects, a
`null` metadata written into, a mapping key that is not an integer, and a negative index below
`-len`. Each error comes with a lemma naming the input that causes it.

Modules follow the program's structure:

| module | file | contents |
|---|---|---|
| `Wrappers` | wrappers.dfy | `Option`, `Result` |
| `Seqs` | seqs.dfy | distinctness, ascending index lists, counting, positions |
| `Text` | text.dfy | `str.strip`, string order, `str(int)` and `int(str)` |
| `Grouping` | grouping.dfy | insertion-ordered `defaultdict(list)` and its laws |
| `Records` | records.dfy | the question record, provenance, JSON values |
| `Duplicates` | duplicates.dfy | `find_duplicates` |
| `Canonical` | canonical.dfy | `priority_key` and `select_canonical_version` |
| `Merge` | merge.dfy | `merge_sources` |
| `Dedup` | dedup.dfy | `deduplicate_questions`, its errors and its report |
| `DedupLaws` | dedup_laws.dfy | conservation, output order, clean output, rerun |
| `UnitFixes` | unit_fixes.dfy | export, template, apply, statistics |
| `Scenarios` | scenarios.dfy | small worked runs: the tie-break, the missing-year sentinel, one whole deduplication |

## Where the code and the design description differ (the model follows the code)

- **Rerunning on the output changes it.** The design describes a rerun as idempotent. The code
  does not leave the corpus unchanged: a former canonical record is retagged
  `is_deduplicated = false` on the second pass. `DedupLaws.Rerun` proves that the second pass
  finds no groups and removes nothing. `DedupLaws.RerunRetagsCanonical` proves the retagging.
- **Non-numeric year.** The design ranks a non-numeric year as 9999. In the code, `int()`
  raises on it. This is `Dedup.DedupError.YearNotInteger`.
- **Provenance trail.** The design says every original index appears in some output record's
  provenance trail. In the code only canonical records get a new `source_metadata`. Records
  outside all groups get none added; one they already carry is copied unchanged.
- **`null` fields.** The design never throws for missing data. In the code, a `null` question
  fails in `.strip()` and a `null` metadata fails on item assignment. Both are modelled as
  failures.
- **`null` unit.** A `null` unit is not `"Unknown"` to the priority key, so it counts as known.
  In the unit statistics it is counted under its own `None` bucket.

## Model

| member | source | states |
|---|---|---|
| Text.Strip | scripts/deduplicate_questions.py:42 | the result is the input with its leading and trailing white space removed: what is dropped is all white space, and the result neither starts nor ends with white space |
| Text.StripIdempotent | scripts/deduplicate_questions.py:42 | stripping twice is stripping once |
| Grouping.GroupBySpec | scripts/deduplicate_questions.py:40-43 | the insertion-ordered dictionary has distinct keys; each bucket holds exactly the values appended under its key, in order, and is non-empty; every appended key has a bucket; the bucket sizes sum to the number of appends |
| Grouping.GroupByFirstSeen | scripts/deduplicate_questions.py:40-43 | when values are appended in increasing rank, the buckets are ordered by the rank of their first value, i.e. by when their key was first met |
| Duplicates.FindDuplicates | scripts/deduplicate_questions.py:40-46 | every group has at least two strictly ascending indices, and they are exactly the indices whose stripped text is its key; there is one group per text; every repeated text has a group; groups are in first-seen order |
| Duplicates.WellGroupedUnique | scripts/deduplicate_questions.py:40-46 | those four conditions determine the result: two groupings that meet them are equal |
| Duplicates.NoGroupsForDistinctTexts | scripts/deduplicate_questions.py:45-46 | when all stripped texts differ, no group is returned |
| Canonical.FirstMin | scripts/deduplicate_questions.py:78 | `min` with a key returns a position no element beats, and every earlier element is strictly worse |
| Canonical.FirstMinUnique | scripts/deduplicate_questions.py:78 | the first-minimum conditions pick exactly one position |
| Canonical.SelectCanonical | scripts/deduplicate_questions.py:62-79 | the canonical index is a member of the group, and its priority key can be computed |
| Canonical.CanonicalIsFirstLeast | scripts/deduplicate_questions.py:62-78 | no group member has a strictly smaller key `(unit is Unknown, year or 9999, -has metadata)` than the canonical one, and every member before it has a strictly larger key |
| Canonical.FirstLeastUnique | scripts/deduplicate_questions.py:78 | at most one member of a group is the first of least key, so the canonical choice depends only on the keys and their order |
| Canonical.KnownUnitOutranksUnknown | scripts/deduplicate_questions.py:67-75 | a record with a known unit outranks one whose unit is missing or `"Unknown"`, whatever the years |
| Canonical.KnownUnitChosen | scripts/deduplicate_questions.py:62-78 | if any member has a known unit, the canonical record has one |
| Canonical.MissingYearRanksLater | scripts/deduplicate_questions.py:68-75 | with equal unit status, a record with a falsy or missing year ranks after one with a year below 9999 |
| Canonical.DatedRecordChosen | scripts/deduplicate_questions.py:62-78 | when all members have the same unit status and one has a year below 9999, the canonical record has a truthy year |
| Merge.SortedSet | scripts/deduplicate_questions.py:111-112 | `sorted(list(set))` is strictly sorted and holds exactly the values present |
| Merge.MergeSources | scripts/deduplicate_questions.py:89-115 | `all_sources` has one entry per index, in order, with that record's year, source file and question number as `dict.get` returns them and its original index; `source_pdfs` and `years_found` are strictly sorted and hold exactly the truthy source files and the stringified truthy years; `duplicate_count` is the group size |
| Merge.SourcePdfsDetermined | scripts/deduplicate_questions.py:100-111 | any strictly sorted list of exactly the truthy source files is `source_pdfs` |
| Merge.YearsFoundDetermined | scripts/deduplicate_questions.py:98-112 | any strictly sorted list of exactly the stringified truthy years is `years_found` |
| Text.SortedUnique | scripts/deduplicate_questions.py:111-112 | two strictly sorted lists with the same members are equal |
| Dedup.Enhance | scripts/deduplicate_questions.py:145-154 | the enhanced record equals the canonical one except that `source_metadata` is the merged provenance and `metadata` (created if absent) has the four summary keys overwritten; every other metadata key keeps its value |
| Dedup.Tag | scripts/deduplicate_questions.py:175-178 | a kept record differs from the original only in `metadata.is_deduplicated = false` (metadata created if absent) |
| Dedup.KeptIndices | scripts/deduplicate_questions.py:128-174 | the kept indices are strictly ascending and are exactly the in-range indices that are neither removed nor canonical |
| Dedup.KeptIffOutside | scripts/deduplicate_questions.py:158-174 | an index is kept exactly when it is in range and in no group |
| Dedup.DuplicateInstances | scripts/deduplicate_questions.py:133 | `sum(len(v) - 1)` equals the total group size minus the number of groups |
| Dedup.GroupError | scripts/deduplicate_questions.py:139-154 | one group raises nothing exactly when its keys can be computed and its canonical record's metadata is not `null`; otherwise it raises at its first member, in group order, whose year `int()` rejects, or, when there is none, at its canonical record |
| Dedup.GroupsError | scripts/deduplicate_questions.py:138-154 | processing the groups raises nothing exactly when every group's keys can be computed and its canonical record's metadata is not `null`; otherwise the error is raised at the first group that fails, every earlier group going through, and within that group at its first member whose year `int()` rejects, or else at its canonical record whose metadata is `null` |
| Dedup.KeptError | scripts/deduplicate_questions.py:173-178 | tagging the kept records raises exactly when one of them has `null` metadata, and then names the first such kept record in ascending order |
| Dedup.Audits | scripts/deduplicate_questions.py:164-170 | one report entry per group, in group order: the entry lists the group's members in order; its canonical index is the member of first least priority key; its unit and year are that record's `dict.get` values; its merged sources are the group's provenance |
| Dedup.Deduplicate | scripts/deduplicate_questions.py:118-184 | the run succeeds exactly when no step raises; then its result is the canonical records followed by the kept ones, with the report; otherwise the error is the one the script raises first: the first `null` question; else the first failing group's first member whose year `int()` rejects, or its canonical record's `null` metadata; else the first kept record with `null` metadata |
| Dedup.ErrorIsDetermined | scripts/deduplicate_questions.py:118-184 | at most one error meets that description, so the error a failing run reports is determined by the records |
| DedupLaws.EveryIndexAccountedOnce | scripts/deduplicate_questions.py:128-179 | every input index is in at most one group, and it is kept exactly when it is in none |
| DedupLaws.KeptCount | scripts/deduplicate_questions.py:158-179 | the number of kept records is the input size minus the total group size |
| DedupLaws.OutputSize | scripts/deduplicate_questions.py:130-182 | the output length is `N - sum(len(g) - 1)`; `questions_removed` equals `total_duplicate_instances`; `total_after_deduplication` is `total_original - total_duplicate_instances`; there is one report entry per group found |
| DedupLaws.CanonicalCarriesTrail | scripts/deduplicate_questions.py:142-156 | the a-th output record carries the a-th group's audit trail, one entry per member in group order |
| DedupLaws.OutputOrigins | scripts/deduplicate_questions.py:138-179 | the output records are, in order, copies of the canonical records of the groups and then of the kept records, each with its original question and with metadata present |
| DedupLaws.CleanOutput | scripts/deduplicate_questions.py:138-179 | the output's stripped question texts are pairwise distinct, so grouping it finds no duplicates |
| DedupLaws.NoDuplicatesRun | scripts/deduplicate_questions.py:172-184 | on a list without duplicates the run finds no groups, removes nothing, and tags every record in place |
| DedupLaws.Rerun | scripts/deduplicate_questions.py:172-179 | rerunning on the output succeeds, finds no groups, removes nothing, and only retags each record |
| DedupLaws.RerunRetagsCanonical | scripts/deduplicate_questions.py:153-178 | when there was a group, the rerun turns the first output record's `is_deduplicated` from true to false |
| Scenarios.FourDigits | scripts/deduplicate_questions.py:68 | `int()` reads a four-digit year text as the number its digits spell |
| Scenarios.DatedKey | scripts/deduplicate_questions.py:65-76 | a record with a unit and a year text `int()` accepts has key `(unit is "Unknown", int(year), 0)` when it has no metadata |
| Scenarios.TieBreakPrefersKnownUnit | scripts/deduplicate_questions.py:62-78 | of an `"Unknown"` record and a record with a known unit, the known one is canonical whatever the two years are |
| Scenarios.TieBreakExample | scripts/deduplicate_questions.py:62-78 | `[{unit: "Unknown", year: "2020"}, {unit: "BBIT106", year: "2021"}]` picks index 1, although its year is later |
| Scenarios.SentinelPrefersDatedRecord | scripts/deduplicate_questions.py:68-78 | of two records with the same known unit, one without a year loses to one whose year is below 9999 |
| Scenarios.SentinelExample | scripts/deduplicate_questions.py:68-78 | `[{unit: "BBIT106"}, {unit: "BBIT106", year: "2019"}]` picks index 1 |
| Scenarios.OnlyGroup | scripts/deduplicate_questions.py:40-46 | when the first two of three questions agree once stripped and the third differs, `find_duplicates` returns exactly one group, positions 0 and 1 |
| Scenarios.OnlyThirdKept | scripts/deduplicate_questions.py:158-174 | with that one group, only position 2 is copied after the canonical record |
| Scenarios.PairFiles | scripts/deduplicate_questions.py:100-111 | two truthy source files in sorted order are `source_pdfs` as they stand |
| Scenarios.PairYears | scripts/deduplicate_questions.py:98-112 | two truthy years whose texts sort the other way round are `years_found` in reverse |
| Scenarios.PairEntries | scripts/deduplicate_questions.py:103-113 | `all_sources` of a two-record group is one line per record, in group order |
| Scenarios.RunOfThree | scripts/deduplicate_questions.py:118-184 | on three records whose first two form the only group with the second canonical, the run succeeds with the enhanced second record then the tagged third, and reports 3 in, 1 group, 1 duplicate instance, 2 out, 1 removed, and one group entry with canonical index 1 |
| Scenarios.SampleRun | scripts/deduplicate_questions.py:118-184 | for any texts, unit code, years and files meeting the sample's conditions, the run keeps the known-unit wording enhanced with both files and both years, then the other question, and reports as above |
| Scenarios.OopSampleRun | scripts/deduplicate_questions.py:118-184 | the run on two wordings of "What is OOP?" (`a.pdf`, 2020, `"Unknown"`; `b.pdf`, 2019, `BBIT106`) and "Define SQL." keeps the `b.pdf` record with `source_pdfs ["a.pdf", "b.pdf"]` and `years_found ["2019", "2020"]`, then "Define SQL." |
| Text.IntDecimalRoundTrip | scripts/fix_unknown_units.py:127 | `int(str(i)) == i` for every integer |
| Text.PaddedDecimalRoundTrip | scripts/fix_unknown_units.py:127 | `int()` of an integer's decimal text with any white space around it, ASCII or not, other than the information separators U+001C to U+001F, is that integer |
| Text.SeparatorAtEndRejected | scripts/deduplicate_questions.py:68 | `int()` raises on a text that starts or ends with an information separator U+001C to U+001F, although `str.strip()` removes those |
| Text.NatToDecimalInjective | scripts/fix_unknown_units.py:99 | different indices get different `str(index)` keys |
| Grouping.GroupPositions | scripts/fix_unknown_units.py:76-83 | grouping ascending positions by their key gives buckets of ascending positions of their own key only, with distinct keys, covering every position exactly once |
| UnitFixes.UnknownIndices | scripts/fix_unknown_units.py:31-32 | the selected indices are ascending and are exactly those whose `unit` is present and equal to `"Unknown"`; there are as many as such records |
| UnitFixes.Preview | scripts/fix_unknown_units.py:39 | the preview fails exactly when the question is `null`, naming that index |
| UnitFixes.PreviewSpec | scripts/fix_unknown_units.py:39 | a preview is a prefix of the question (empty when the question is absent), at most 200 characters long, followed by `"..."` |
| UnitFixes.Export | scripts/fix_unknown_units.py:30-51 | the export succeeds exactly when every row can be built, and `total_unknown` is the number of `"Unknown"` records |
| UnitFixes.ExportSucceeds | scripts/fix_unknown_units.py:31-43 | building the rows succeeds exactly when no `"Unknown"` record has a `null` question |
| UnitFixes.ExportSelects | scripts/fix_unknown_units.py:31-43 | there is one row per `"Unknown"` record, in ascending index order; every row's index is such a record, and every such record has a row |
| UnitFixes.ExportDescribes | scripts/fix_unknown_units.py:33-43 | each row carries its record's year, source file, question number, course and full question, and its preview |
| UnitFixes.ExportFailsAtFirst | scripts/fix_unknown_units.py:31-39 | a failed export names the first `"Unknown"` record whose question is `null` |
| UnitFixes.ExportBuckets | scripts/fix_unknown_units.py:46-52 | `total_unknown` equals the number of rows, which is the total bucket size; bucket keys are distinct and buckets non-empty; each row is in exactly the bucket of its source file; buckets hold only rows; within a bucket, indices ascend |
| UnitFixes.TemplateIndices | scripts/fix_unknown_units.py:96-105 | the template's indices are distinct and exactly the `"Unknown"` records' indices, so the printed total is their count |
| UnitFixes.TemplateLines | scripts/fix_unknown_units.py:76-99 | the template has one line per `"Unknown"` record, no line twice, and every line maps to `null` |
| UnitFixes.TemplateSources | scripts/fix_unknown_units.py:96-99 | a source's section holds `str(x): null` exactly when record x has unit `"Unknown"` and that source file |
| UnitFixes.TemplateSourcesDistinct | scripts/fix_unknown_units.py:76-97 | no source file has two sections |
| UnitFixes.ApplyStep | scripts/fix_unknown_units.py:125-131 | one line raises exactly when it has a unit and its key is not an integer or is below `-len`; a `null` line or an index at or past the end changes nothing; otherwise only that record's unit changes, and the count goes up by one |
| UnitFixes.ApplySpec | scripts/fix_unknown_units.py:120-131 | applying a mapping succeeds exactly when every line is accepted, and otherwise fails on the first rejected line; on success `fixed_count` is the number of applied lines, and each record is the original with its unit replaced by the last line that addresses it, if any |
| UnitFixes.LastWriterNone | scripts/fix_unknown_units.py:124-130 | a record keeps its unit exactly when no line addresses it |
| UnitFixes.LastWriterLast | scripts/fix_unknown_units.py:124-130 | the unit a record ends with comes from a line that addresses it, after which no line does |
| UnitFixes.SingleLine | scripts/fix_unknown_units.py:126-131 | a single line with index i is ignored when `i >= len`, sets record i when `0 <= i < len`, sets record `len + i` when `-len <= i < 0`, and raises `IndexError` when `i < -len` |
| UnitFixes.NonIntegerKey | scripts/fix_unknown_units.py:126-127 | a non-integer key is ignored when its unit is `null` and raises when it has one |
| UnitFixes.MappedTwice | scripts/fix_unknown_units.py:124-131 | an index mapped twice ends with the second unit and is counted twice |
| UnitFixes.FilledTemplateApplies | scripts/fix_unknown_units.py:96-131 | applying a filled-in template never raises, changes only the `"Unknown"` records it gives a unit to, and counts the lines given a unit |
| UnitFixes.UnfilledTemplateIsIdentity | scripts/fix_unknown_units.py:99-126 | applying the template as created changes nothing and counts zero |
| UnitFixes.FullyFilledFixesAll | scripts/fix_unknown_units.py:77-131 | when every line is filled in, every `"Unknown"` record gets its unit and the count is the number of such records |
| UnitFixes.Statistics | scripts/fix_unknown_units.py:149-156 | there is a result exactly when the list is non-empty (the percentage divides by its length); known plus unknown is the total |
| UnitFixes.UnitClasses | scripts/fix_unknown_units.py:149-164 | every record is exactly one of: counted per unit, missing a unit, or `"Unknown"` |
| UnitFixes.StatisticsSpec | scripts/fix_unknown_units.py:149-164 | `unknown_count` counts `"Unknown"` records; the per-unit counts plus the records without a unit make up `known_count`; units are distinct and `"Unknown"` is not one; each unit counts exactly the records whose unit (after the `"Unknown"` default) is that unit |

## Left out

- File reading and writing, the `os.path.exists` check, `main`, the command dispatch, and all
  printing (`print_report` and the progress lines) are left out. Every function takes the
  loaded list as a parameter and returns what it would write.
- The constant `instructions` lists, and the constant `current_unit` and `suggested_unit`
  fields of an exported row, are left out. They do not depend on the input.
- The order in which the export summary and the statistics are printed (sorted by count) is
  left out; only the counts are modelled.
- The percentages in `show_statistics` are floating point and are left out. Only the division
  by zero on an empty list is kept, as the `None` result.
- Shallow copies are modelled functionally. The Python code's `metadata` writes also reach the
  input records through the shared dictionary; no property about the input afterwards is
  stated.
- A mapping's unit values are modelled as strings or `null`. Other JSON values (numbers,
  lists) would be written into `unit` unchanged, and a `mappings` value that is not an object,
  or a source's section that is not an object (`index_mapping.items()` at
  scripts/fix_unknown_units.py:125), would raise. Neither case is modelled.
- The template's `None` source key is written by `json.dump` as the string `"null"`, so it
  could merge with a source file literally named `null`. Source keys are kept as
  `Option<string>`.
- `metadata` is modelled as a map without key order. The order of keys in the written JSON is
  not modelled.
- `Text.ParseInt` models `int()` on text with ASCII digits: surrounding white space (the
  `str.isspace()` characters except the information separators U+001C to U+001F, which make it
  raise), an optional sign, and digits with single underscores between them. Non-ASCII
  decimal digits, which Python also accepts, are not modelled. Neither is the limit on the
  number of digits `int()` converts (4300 by default since Python 3.11, configurable), above
  which it raises `ValueError`: the model parses any length.
- JSON values outside the record schema are not modelled: a non-integer number (a float) as
  `year` (it would be ranked by `int()` and merged as text such as `"2020.0"`; integer years
  are modelled), a list as `metadata` (item
  assignment at scripts/deduplicate_questions.py:151 would raise `TypeError`), and a
  non-string `unit`, `source_file` or `question_number`.
- Canonical.MissingYearRanksLater: stated only against a year below 9999. A record whose year is
  9999 or more ties with, or ranks after, one with a missing year, as the code does.
- Dedup.Deduplicate: a record whose `question` is neither a string nor `null` (a number, say)
  is outside the record type and not modelled.
