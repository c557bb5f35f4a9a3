/**
 * The list-processing core of the unit-code repair helper (`fix_unknown_units.py`):
 * selecting the records whose unit is the `"Unknown"` sentinel, exporting them for review
 * grouped by source file, writing a mapping template keyed by decimal index, applying a
 * filled-in mapping, and the unit statistics. Reading and writing the JSON files and the
 * printed messages are left to the caller: every operation works on the loaded list.
 */
module UnitFixes {
  import opened Wrappers
  import opened Seqs
  import opened Text
  import opened Records
  import opened Grouping

  /** The exceptions the helper's loops can raise on a loaded list. */
  datatype FixError =
    | PreviewOfNull(at: nat)        // slicing a `null` question for the preview
    | IndexNotInteger(key: string)  // `int()` rejects a mapping key
    | IndexOutOfRange(index: int)   // a negative index below `-len(questions)`

  // ---------------------------------------------------------------- selection

  /** `q.get('unit') == 'Unknown'`: a record with no `unit` key, or a `null` one, is not selected. */
  predicate IsUnknownUnit(r: Record) {
    r.unit == Val(UNKNOWN)
  }

  /** The indices of the selected records, ascending. */
  function UnknownIndices(qs: seq<Record>): (u: seq<nat>)
    ensures |u| == CountIf(qs, IsUnknownUnit)
    ensures StrictlyAscending(u)
    ensures forall x: nat :: x in u <==> x < |qs| && IsUnknownUnit(qs[x])
  {
    PositionsSpec(qs, IsUnknownUnit);
    Positions(qs, IsUnknownUnit)
  }

  /** `q.get('source_file')` for every record. */
  function SourceKeys(qs: seq<Record>): (keys: seq<Option<string>>)
    ensures |keys| == |qs| && forall i :: 0 <= i < |qs| ==> keys[i] == Get(qs[i].sourceFile)
  {
    seq(|qs|, i requires 0 <= i < |qs| => Get(qs[i].sourceFile))
  }

  // ---------------------------------------------------------------- export

  const PREVIEW_LENGTH: nat := 200
  const ELLIPSIS: string := "..."

  /** One exported review row. The constant `current_unit` and `suggested_unit` fields are
      not carried. */
  datatype ExportRow = ExportRow(
    index: nat,
    year: Option<YearValue>,
    sourceFile: Option<string>,
    questionNumber: Option<string>,
    course: Json,
    preview: string,
    fullQuestion: Option<string>)

  /** The export file's contents besides the constant instructions. */
  datatype Exported = Exported(
    totalUnknown: nat,
    bySourceFile: seq<Bucket<Option<string>, ExportRow>>)

  /** `q.get('course')` as it is written back out: an absent key and `null` both give `null`. */
  function Course(r: Record): Json {
    if "course" in r.extra then r.extra["course"] else JNull
  }

  /** `q.get('question', '')[:200] + '...'`; slicing a `null` question raises. */
  function Preview(r: Record, i: nat): (p: Result<string, FixError>)
    ensures p.Failure? <==> r.question.Null?
    ensures p.Failure? ==> p.error == PreviewOfNull(i)
  {
    match r.question
    case Missing => Success(ELLIPSIS)
    case Null => Failure(PreviewOfNull(i))
    case Val(q) => Success(q[..if |q| < PREVIEW_LENGTH then |q| else PREVIEW_LENGTH] + ELLIPSIS)
  }

  /** A preview is the first 200 characters of the question (all of it when shorter, none
      when the key is absent) followed by an ellipsis. */
  lemma PreviewSpec(r: Record, i: nat)
    requires Preview(r, i).Success?
    ensures var p := Preview(r, i).value;
      var text := if r.question.Val? then r.question.value else "";
      && |p| >= |ELLIPSIS|
      && p[|p| - |ELLIPSIS|..] == ELLIPSIS
      && p[..|p| - |ELLIPSIS|] <= text
      && |p| - |ELLIPSIS| == (if |text| < PREVIEW_LENGTH then |text| else PREVIEW_LENGTH)
  {
    if r.question.Val? {
      var q := r.question.value;
      var shown := q[..if |q| < PREVIEW_LENGTH then |q| else PREVIEW_LENGTH];
      assert (shown + ELLIPSIS)[..|shown|] == shown;
    }
  }

  /** The row a selected record contributes, or the error its preview raises. */
  function RowOf(qs: seq<Record>, i: nat): Result<ExportRow, FixError>
    requires i < |qs|
  {
    var r := qs[i];
    match Preview(r, i)
    case Failure(e) => Failure(e)
    case Success(p) =>
      Success(ExportRow(i, Get(r.year), Get(r.sourceFile), Get(r.questionNumber), Course(r), p, Get(r.question)))
  }

  /** The rows of the records at `idx`, in order; the first failing record stops the loop. */
  function RowsFor(qs: seq<Record>, idx: seq<nat>): (rows: Result<seq<ExportRow>, FixError>)
    requires forall k :: 0 <= k < |idx| ==> idx[k] < |qs|
    ensures rows.Success? ==> |rows.value| == |idx|
  {
    if |idx| == 0 then Success([])
    else
      match RowsFor(qs, idx[..|idx| - 1])
      case Failure(e) => Failure(e)
      case Success(rows) =>
        match RowOf(qs, idx[|idx| - 1])
        case Failure(e) => Failure(e)
        case Success(row) => Success(rows + [row])
  }

  /** The rows `export_unknown_units` collects before grouping them. */
  function ExportedRows(qs: seq<Record>): Result<seq<ExportRow>, FixError> {
    RowsFor(qs, UnknownIndices(qs))
  }

  /** The pairs the export groups by: each row under its source file. */
  function BySource(rows: seq<ExportRow>): (pairs: seq<(Option<string>, ExportRow)>)
    ensures |pairs| == |rows| && forall k :: 0 <= k < |rows| ==> pairs[k] == (rows[k].sourceFile, rows[k])
  {
    seq(|rows|, k requires 0 <= k < |rows| => (rows[k].sourceFile, rows[k]))
  }

  /** `export_unknown_units` without the file writing: the count and the rows by source file. */
  function Export(qs: seq<Record>): (e: Result<Exported, FixError>)
    ensures e.Success? <==> ExportedRows(qs).Success?
    ensures e.Success? ==> e.value.totalUnknown == CountIf(qs, IsUnknownUnit)
  {
    match ExportedRows(qs)
    case Failure(err) => Failure(err)
    case Success(rows) => Success(Exported(|rows|, GroupBy(BySource(rows))))
  }

  /** What a row says about its record. */
  predicate Describes(row: ExportRow, qs: seq<Record>)
    requires row.index < |qs|
  {
    var r := qs[row.index];
    && row.year == Get(r.year)
    && row.sourceFile == Get(r.sourceFile)
    && row.questionNumber == Get(r.questionNumber)
    && row.course == Course(r)
    && Preview(r, row.index) == Success(row.preview)
    && row.fullQuestion == Get(r.question)
  }

  /** The row loop fails exactly when one of its records has a `null` question, and then
      at the first such record, the `k`-th. */
  lemma {:induction false} RowsForOutcome(qs: seq<Record>, idx: seq<nat>) returns (k: nat)
    requires forall k :: 0 <= k < |idx| ==> idx[k] < |qs|
    ensures RowsFor(qs, idx).Success? <==> forall j :: 0 <= j < |idx| ==> !qs[idx[j]].question.Null?
    ensures RowsFor(qs, idx).Failure? ==>
      && k < |idx| && qs[idx[k]].question.Null? && RowsFor(qs, idx).error == PreviewOfNull(idx[k])
      && forall j :: 0 <= j < k ==> !qs[idx[j]].question.Null?
  {
    k := 0;
    if |idx| > 0 {
      var init := idx[..|idx| - 1];
      var i := idx[|idx| - 1];
      k := RowsForOutcome(qs, init);
      var r0 := RowsFor(qs, init);
      assert forall j :: 0 <= j < |init| ==> idx[j] == init[j];
      if r0.Success? {
        k := |idx| - 1;
        if !qs[i].question.Null? {
          assert RowsFor(qs, idx) == Success(r0.value + [RowOf(qs, i).value]);
        }
      }
    }
  }

  /** Row `k` of the loop is that of the `k`-th index. */
  lemma {:induction false} RowsForIndices(qs: seq<Record>, idx: seq<nat>)
    requires forall k :: 0 <= k < |idx| ==> idx[k] < |qs|
    requires RowsFor(qs, idx).Success?
    ensures forall k :: 0 <= k < |idx| ==> RowOf(qs, idx[k]) == Success(RowsFor(qs, idx).value[k])
  {
    if |idx| > 0 {
      var init := idx[..|idx| - 1];
      var r0 := RowsFor(qs, init);
      assert r0.Success?;
      RowsForIndices(qs, init);
      var rows := RowsFor(qs, idx).value;
      assert rows == r0.value + [RowOf(qs, idx[|idx| - 1]).value];
      forall k | 0 <= k < |idx| - 1 ensures RowOf(qs, idx[k]) == Success(rows[k]) {
        assert rows[k] == r0.value[k] && idx[k] == init[k];
      }
    }
  }

  /** A successful row describes its record and carries its index. */
  lemma RowOfDescribes(qs: seq<Record>, i: nat)
    requires i < |qs| && RowOf(qs, i).Success?
    ensures RowOf(qs, i).value.index == i && Describes(RowOf(qs, i).value, qs)
  {
  }

  /** Row `k` of the loop carries the `k`-th index. */
  lemma RowsForIndexOrder(qs: seq<Record>, idx: seq<nat>)
    requires forall k :: 0 <= k < |idx| ==> idx[k] < |qs|
    requires RowsFor(qs, idx).Success?
    ensures forall k :: 0 <= k < |idx| ==> RowsFor(qs, idx).value[k].index == idx[k]
  {
    RowsForIndices(qs, idx);
  }

  /** Export fails exactly when a selected record has a `null` question. */
  lemma ExportSucceeds(qs: seq<Record>)
    ensures ExportedRows(qs).Success? <==>
      forall i :: 0 <= i < |qs| && IsUnknownUnit(qs[i]) ==> !qs[i].question.Null?
  {
    var u := UnknownIndices(qs);
    var _ := RowsForOutcome(qs, u);
    if ExportedRows(qs).Success? {
      forall i | 0 <= i < |qs| && IsUnknownUnit(qs[i]) ensures !qs[i].question.Null? {
        assert i in u;
      }
    } else {
      var k :| 0 <= k < |u| && qs[u[k]].question.Null?;
      assert u[k] in u;
    }
  }

  /** Export selects exactly the records whose unit is the sentinel, one row each, in
      ascending index order. */
  lemma ExportSelects(qs: seq<Record>)
    requires ExportedRows(qs).Success?
    ensures var rows := ExportedRows(qs).value;
      && |rows| == CountIf(qs, IsUnknownUnit)
      && (forall k, l :: 0 <= k < l < |rows| ==> rows[k].index < rows[l].index)
      && (forall k :: 0 <= k < |rows| ==> rows[k].index < |qs| && IsUnknownUnit(qs[rows[k].index]))
      && (forall i :: 0 <= i < |qs| && IsUnknownUnit(qs[i]) ==>
            exists k :: 0 <= k < |rows| && rows[k].index == i)
  {
    var u := UnknownIndices(qs);
    var rows := ExportedRows(qs).value;
    RowsForIndexOrder(qs, u);
    forall i | 0 <= i < |qs| && IsUnknownUnit(qs[i]) ensures exists k :: 0 <= k < |rows| && rows[k].index == i {
      assert i in u;
      var k :| 0 <= k < |u| && u[k] == i;
      assert rows[k].index == i;
    }
    forall k | 0 <= k < |rows| ensures IsUnknownUnit(qs[rows[k].index]) {
      assert u[k] in u;
    }
  }

  /** Every exported row describes the record it names: its year, source file, question
      number, course, preview and full question. */
  lemma ExportDescribes(qs: seq<Record>)
    requires ExportedRows(qs).Success?
    ensures var rows := ExportedRows(qs).value;
      forall k :: 0 <= k < |rows| ==> rows[k].index < |qs| && Describes(rows[k], qs)
  {
    var u := UnknownIndices(qs);
    var rows := ExportedRows(qs).value;
    var _ := RowsForOutcome(qs, u);
    RowsForIndices(qs, u);
    forall k | 0 <= k < |rows| ensures rows[k].index < |qs| && Describes(rows[k], qs) {
      RowOfDescribes(qs, u[k]);
    }
  }

  /** A failing export stops at the first selected record whose question is `null`. */
  lemma ExportFailsAtFirst(qs: seq<Record>)
    requires ExportedRows(qs).Failure?
    ensures exists i :: (0 <= i < |qs| && IsUnknownUnit(qs[i]) && qs[i].question.Null?
      && ExportedRows(qs).error == PreviewOfNull(i)
      && forall j :: 0 <= j < i && IsUnknownUnit(qs[j]) ==> !qs[j].question.Null?)
  {
    var u := UnknownIndices(qs);
    var rows := ExportedRows(qs);
    var k := RowsForOutcome(qs, u);
    var i := u[k];
    forall j | 0 <= j < i && IsUnknownUnit(qs[j]) ensures !qs[j].question.Null? {
      assert j in u;
      var m :| 0 <= m < |u| && u[m] == j;
      assert m < k;
    }
  }

  /** Grouping rows by source file: each row lies in exactly one bucket, the one of its
      source file, and every bucket item is one of the rows. */
  lemma RowBucketMembers(rows: seq<ExportRow>)
    ensures var bk := GroupBy(BySource(rows));
      && (forall k, a :: 0 <= k < |rows| && 0 <= a < |bk| ==> (rows[k] in bk[a].items <==> bk[a].key == rows[k].sourceFile))
      && (forall a, row :: 0 <= a < |bk| && row in bk[a].items ==> row in rows)
  {
    var pairs := BySource(rows);
    var bk := GroupBy(pairs);
    GroupByBuckets(pairs);
    forall a | 0 <= a < |bk|
      ensures forall k :: 0 <= k < |rows| ==> (rows[k] in bk[a].items <==> bk[a].key == rows[k].sourceFile)
      ensures forall row :: row in bk[a].items ==> row in rows
    {
      var key := bk[a].key;
      assert bk[a].items == ValuesFor(pairs, key);
      ValuesForMembers(pairs, key);
      forall k | 0 <= k < |rows| && key == rows[k].sourceFile ensures rows[k] in bk[a].items {
        assert pairs[k] == (key, rows[k]);
      }
      forall row | row in bk[a].items ensures row in rows && row.sourceFile == key {
        var j :| 0 <= j < |pairs| && pairs[j] == (key, row);
        assert rows[j] == row;
      }
    }
  }

  function RowRank(row: ExportRow): int {
    row.index
  }

  /** Rows that come in ascending index order keep it inside every bucket. */
  lemma RowBucketOrder(rows: seq<ExportRow>)
    requires forall k, l :: 0 <= k < l < |rows| ==> rows[k].index < rows[l].index
    ensures var bk := GroupBy(BySource(rows));
      forall a, i, j :: 0 <= a < |bk| && 0 <= i < j < |bk[a].items| ==>
        bk[a].items[i].index < bk[a].items[j].index
  {
    var pairs := BySource(rows);
    var bk := GroupBy(pairs);
    GroupByBuckets(pairs);
    var rank := RowRank;
    forall a | 0 <= a < |bk|
      ensures forall i, j :: 0 <= i < j < |bk[a].items| ==> bk[a].items[i].index < bk[a].items[j].index
    {
      ValuesForOrdered(pairs, bk[a].key, rank);
      var vs := bk[a].items;
      assert vs == ValuesFor(pairs, bk[a].key);
      forall i, j | 0 <= i < j < |vs| ensures vs[i].index < vs[j].index {
        assert rank(vs[i]) < rank(vs[j]);
      }
    }
  }

  /** Each exported row lies in exactly one bucket, the one of its source file; a bucket
      lists its rows in ascending index order; nothing is lost or invented. */
  lemma ExportBuckets(qs: seq<Record>)
    requires Export(qs).Success?
    ensures var bk := Export(qs).value.bySourceFile;
      var rows := ExportedRows(qs).value;
      && Export(qs).value.totalUnknown == |rows| == TotalSize(bk)
      && Distinct(BucketKeys(bk))
      && (forall a :: 0 <= a < |bk| ==> |bk[a].items| > 0)
      && (forall k, a :: 0 <= k < |rows| && 0 <= a < |bk| ==> (rows[k] in bk[a].items <==> bk[a].key == rows[k].sourceFile))
      && (forall a, row :: 0 <= a < |bk| && row in bk[a].items ==> row in rows)
      && (forall a, i, j :: 0 <= a < |bk| && 0 <= i < j < |bk[a].items| ==>
            bk[a].items[i].index < bk[a].items[j].index)
  {
    var rows := ExportedRows(qs).value;
    ExportSelects(qs);
    GroupBySpec(BySource(rows));
    RowBucketMembers(rows);
    RowBucketOrder(rows);
  }

  // ---------------------------------------------------------------- mapping file

  /** One `"index": unit_code` line of a mapping; `null` is `None`. */
  datatype Entry = Entry(indexKey: string, unit: Option<string>)

  /** The mapping lines listed under one source file. */
  datatype SourceMapping<S> = SourceMapping(source: S, entries: seq<Entry>)

  /** A loaded mapping file; `mappings` is `None` when the key is absent. */
  datatype MappingFile<S> = MappingFile(mappings: Option<seq<SourceMapping<S>>>)

  /** All mapping lines, source after source, in iteration order. */
  function Entries<S>(ms: seq<SourceMapping<S>>): seq<Entry> {
    if |ms| == 0 then [] else ms[0].entries + Entries(ms[1..])
  }

  /** `mapping_data.get('mappings', {})`, flattened. */
  function EntriesOf<S>(f: MappingFile<S>): seq<Entry> {
    if f.mappings.Some? then Entries(f.mappings.value) else []
  }

  // ---------------------------------------------------------------- template

  /** The selected indices grouped by source file, as `create_mapping_template` builds them. */
  function TemplateGroups(qs: seq<Record>): seq<Bucket<Option<string>, nat>> {
    GroupBy(KeyedPositions(SourceKeys(qs), UnknownIndices(qs)))
  }

  /** One line per index, keyed by `str(index)`, with the unit `code` gives that key. */
  function KeyEntries(xs: seq<nat>, code: string -> Option<string>): (es: seq<Entry>)
    ensures |es| == |xs|
    ensures forall j :: 0 <= j < |xs| ==> es[j] == Entry(NatToDecimal(xs[j]), code(NatToDecimal(xs[j])))
  {
    seq(|xs|, j requires 0 <= j < |xs| => Entry(NatToDecimal(xs[j]), code(NatToDecimal(xs[j]))))
  }

  /** The mapping with one source per group and one line per group member. */
  function Filled(g: seq<Bucket<Option<string>, nat>>, code: string -> Option<string>): (ms: seq<SourceMapping<Option<string>>>)
    ensures |ms| == |g|
    ensures forall a :: 0 <= a < |g| ==> ms[a] == SourceMapping(g[a].key, KeyEntries(g[a].items, code))
  {
    seq(|g|, a requires 0 <= a < |g| => SourceMapping(g[a].key, KeyEntries(g[a].items, code)))
  }

  /** The unit a template leaves for every line: `null`. */
  function Unfilled(key: string): Option<string> {
    None
  }

  /** `create_mapping_template` without the file writing. */
  function Template(qs: seq<Record>): seq<SourceMapping<Option<string>>> {
    Filled(TemplateGroups(qs), Unfilled)
  }

  /** Someone filling in a mapping by hand: every line gets the unit `code` gives its key. */
  function Fill<S>(ms: seq<SourceMapping<S>>, code: string -> Option<string>): (r: seq<SourceMapping<S>>)
    ensures |r| == |ms|
    ensures forall a :: 0 <= a < |ms| ==> r[a].source == ms[a].source && |r[a].entries| == |ms[a].entries|
    ensures forall a, j :: 0 <= a < |ms| && 0 <= j < |ms[a].entries| ==>
      r[a].entries[j] == Entry(ms[a].entries[j].indexKey, code(ms[a].entries[j].indexKey))
  {
    seq(|ms|, a requires 0 <= a < |ms| =>
      SourceMapping(ms[a].source, seq(|ms[a].entries|, j requires 0 <= j < |ms[a].entries| =>
        Entry(ms[a].entries[j].indexKey, code(ms[a].entries[j].indexKey)))))
  }

  predicate HasUnit(e: Entry) {
    e.unit.Some?
  }

  // ---------------------------------------------------------------- applying a mapping

  /** The list after applying, and `fixed_count`. */
  datatype Applied = Applied(records: seq<Record>, fixedCount: nat)

  /** One pass of the inner loop of `apply_unit_fixes`: a `null` unit is skipped, a key
      `int()` rejects raises, an index at or past the end is skipped, a negative one counts
      from the end, and one below `-len` raises. */
  function ApplyEntry(a: Applied, e: Entry): (r: Result<Applied, FixError>)
    ensures r.Success? ==> |r.value.records| == |a.records|
  {
    if e.unit.None? then Success(a)
    else
      match ParseInt(e.indexKey)
      case None => Failure(IndexNotInteger(e.indexKey))
      case Some(index) =>
        var n := |a.records|;
        if index >= n then Success(a)
        else
          var at := if index >= 0 then index else n + index;
          if at < 0 then Failure(IndexOutOfRange(index))
          else Success(Applied(a.records[at := a.records[at].(unit := Val(e.unit.value))], a.fixedCount + 1))
  }

  /** The loop of `apply_unit_fixes` over the mapping lines; the first raising line stops it. */
  function ApplyEntries(qs: seq<Record>, es: seq<Entry>): (r: Result<Applied, FixError>)
    ensures r.Success? ==> |r.value.records| == |qs|
  {
    if |es| == 0 then Success(Applied(qs, 0))
    else
      match ApplyEntries(qs, es[..|es| - 1])
      case Failure(e) => Failure(e)
      case Success(a) => ApplyEntry(a, es[|es| - 1])
  }

  /** `apply_unit_fixes` on a loaded list and mapping, without the file handling. */
  function ApplyUnitFixes<S>(qs: seq<Record>, f: MappingFile<S>): Result<Applied, FixError> {
    ApplyEntries(qs, EntriesOf(f))
  }

  // ---------------------------------------------------------------- reference definitions

  /** The record a line rewrites in a list of `n` records, if any. */
  function Target(n: nat, e: Entry): (t: Option<nat>)
    ensures t.Some? ==> t.value < n && e.unit.Some?
  {
    if e.unit.None? then None
    else
      match ParseInt(e.indexKey)
      case None => None
      case Some(i) => if -(n as int) <= i < n then Some(if i >= 0 then i else n + i) else None
  }

  /** A line that does not raise. */
  predicate Accepted(n: nat, e: Entry) {
    e.unit.None? || (ParseInt(e.indexKey).Some? && ParseInt(e.indexKey).value >= -(n as int))
  }

  /** What a raising line raises. */
  function Rejection(e: Entry): FixError {
    match ParseInt(e.indexKey)
    case None => IndexNotInteger(e.indexKey)
    case Some(i) => IndexOutOfRange(i)
  }

  /** The unit of the last line that rewrites record `k`, if any. */
  function LastWriter(es: seq<Entry>, n: nat, k: nat): Option<string> {
    if |es| == 0 then None
    else if Target(n, es[|es| - 1]) == Some(k) then es[|es| - 1].unit
    else LastWriter(es[..|es| - 1], n, k)
  }

  /** The number of lines that rewrite a record. */
  function AppliedCount(n: nat, es: seq<Entry>): nat {
    if |es| == 0 then 0
    else AppliedCount(n, es[..|es| - 1]) + (if Target(n, es[|es| - 1]).Some? then 1 else 0)
  }

  /** A record with its unit replaced, when there is a replacement. */
  function Patched(r: Record, w: Option<string>): Record {
    if w.Some? then r.(unit := Val(w.value)) else r
  }

  // ---------------------------------------------------------------- laws of applying

  /** One line either raises, exactly when it is not accepted, or rewrites the unit of the
      record it addresses and counts it, or changes nothing. */
  lemma ApplyStep(a: Applied, e: Entry)
    ensures var r := ApplyEntry(a, e); var n := |a.records|;
      && (r.Success? <==> Accepted(n, e))
      && (r.Failure? ==> r.error == Rejection(e))
      && (r.Success? && Target(n, e).None? ==> r.value == a)
      && (r.Success? && Target(n, e).Some? ==>
            var t := Target(n, e).value;
            r.value == Applied(a.records[t := a.records[t].(unit := Val(e.unit.value))], a.fixedCount + 1))
  {
  }

  /** A record keeps its unit exactly when no line addresses it. */
  lemma {:induction false} LastWriterNone(es: seq<Entry>, n: nat, k: nat)
    ensures LastWriter(es, n, k).None? <==> forall j :: 0 <= j < |es| ==> Target(n, es[j]) != Some(k)
  {
    if |es| > 0 {
      var init := es[..|es| - 1];
      LastWriterNone(init, n, k);
      assert forall j :: 0 <= j < |init| ==> init[j] == es[j];
    }
  }

  /** The last line addressing a record is the one whose unit it keeps: `j` is that line. */
  lemma {:induction false} LastWriterLast(es: seq<Entry>, n: nat, k: nat) returns (j: nat)
    requires LastWriter(es, n, k).Some?
    ensures j < |es| && Target(n, es[j]) == Some(k) && LastWriter(es, n, k) == es[j].unit
    ensures forall i :: j < i < |es| ==> Target(n, es[i]) != Some(k)
  {
    var last := |es| - 1;
    var init := es[..last];
    if Target(n, es[last]) == Some(k) {
      j := last;
    } else {
      j := LastWriterLast(init, n, k);
      assert forall i :: 0 <= i < |init| ==> init[i] == es[i];
    }
  }

  /** Applying a mapping: it raises, at its first raising line, exactly when some line is
      not accepted; otherwise every record keeps all its fields but the unit, which becomes
      that of the last line addressing it, and `fixed_count` counts the rewriting lines. */
  lemma {:induction false} ApplySpec(qs: seq<Record>, es: seq<Entry>)
    ensures var r := ApplyEntries(qs, es); var n := |qs|;
      && (r.Success? <==> forall j :: 0 <= j < |es| ==> Accepted(n, es[j]))
      && (r.Failure? ==> exists j :: (0 <= j < |es| && !Accepted(n, es[j]) && r.error == Rejection(es[j])
            && forall i :: 0 <= i < j ==> Accepted(n, es[i])))
      && (r.Success? ==>
            && r.value.fixedCount == AppliedCount(n, es)
            && forall k :: 0 <= k < n ==> r.value.records[k] == Patched(qs[k], LastWriter(es, n, k)))
  {
    if |es| > 0 {
      var n := |qs|;
      var init := es[..|es| - 1];
      var e := es[|es| - 1];
      ApplySpec(qs, init);
      assert forall j :: 0 <= j < |init| ==> init[j] == es[j];
      var r0 := ApplyEntries(qs, init);
      if r0.Success? {
        var a := r0.value;
        ApplyStep(a, e);
        var r := ApplyEntry(a, e);
        if r.Success? {
          forall k | 0 <= k < n ensures r.value.records[k] == Patched(qs[k], LastWriter(es, n, k)) {
            assert a.records[k] == Patched(qs[k], LastWriter(init, n, k));
          }
        }
      }
    }
  }

  // ---------------------------------------------------------------- laws of the template

  /** A template line `str(x)` addresses record `x`, and never raises. */
  lemma DecimalTarget(n: nat, x: nat, c: Option<string>)
    requires x < n
    ensures Accepted(n, Entry(NatToDecimal(x), c))
    ensures Target(n, Entry(NatToDecimal(x), c)) == (if c.Some? then Some(x) else None)
  {
    assert IntToDecimal(x) == NatToDecimal(x);
    IntDecimalRoundTrip(x);
  }

  /** Filling a mapping built from groups is building it with the new units. */
  lemma FillFilled(g: seq<Bucket<Option<string>, nat>>, c0: string -> Option<string>, code: string -> Option<string>)
    ensures Fill(Filled(g, c0), code) == Filled(g, code)
  {
    var l := Fill(Filled(g, c0), code);
    var r := Filled(g, code);
    forall a | 0 <= a < |g| ensures l[a] == r[a] {
      assert l[a].entries == r[a].entries;
    }
  }

  lemma KeyEntriesAppend(xs: seq<nat>, ys: seq<nat>, code: string -> Option<string>)
    ensures KeyEntries(xs + ys, code) == KeyEntries(xs, code) + KeyEntries(ys, code)
  {
    var l := KeyEntries(xs + ys, code);
    var r := KeyEntries(xs, code) + KeyEntries(ys, code);
    forall j | 0 <= j < |l| ensures l[j] == r[j] {
      if j < |xs| {
        assert (xs + ys)[j] == xs[j];
      } else {
        assert (xs + ys)[j] == ys[j - |xs|];
      }
    }
  }

  /** The lines of a mapping built from groups are those of the group members, in order. */
  lemma {:induction false} EntriesFilled(g: seq<Bucket<Option<string>, nat>>, code: string -> Option<string>)
    ensures Entries(Filled(g, code)) == KeyEntries(Flatten(g), code)
  {
    if |g| > 0 {
      var ms := Filled(g, code);
      assert ms[1..] == Filled(g[1..], code);
      EntriesFilled(g[1..], code);
      KeyEntriesAppend(g[0].items, Flatten(g[1..]), code);
    }
  }

  /** Lines keyed by `str(x)` leave to record `k` the unit `code` gives its key, if `k` is listed. */
  lemma {:induction false} KeyedWriter(xs: seq<nat>, code: string -> Option<string>, n: nat, k: nat)
    requires forall j :: 0 <= j < |xs| ==> xs[j] < n
    ensures LastWriter(KeyEntries(xs, code), n, k) == if k in xs then code(NatToDecimal(k)) else None
  {
    if |xs| > 0 {
      var init := xs[..|xs| - 1];
      var x := xs[|xs| - 1];
      var es := KeyEntries(xs, code);
      assert es[..|es| - 1] == KeyEntries(init, code);
      KeyedWriter(init, code, n, k);
      DecimalTarget(n, x, code(NatToDecimal(x)));
      assert xs == init + [x];
    }
  }

  /** Lines keyed by `str(x)` never raise, and those with a unit each rewrite one record. */
  lemma {:induction false} KeyedCount(xs: seq<nat>, code: string -> Option<string>, n: nat)
    requires forall j :: 0 <= j < |xs| ==> xs[j] < n
    ensures forall j :: 0 <= j < |xs| ==> Accepted(n, KeyEntries(xs, code)[j])
    ensures AppliedCount(n, KeyEntries(xs, code)) == CountIf(KeyEntries(xs, code), HasUnit)
  {
    var es := KeyEntries(xs, code);
    forall j | 0 <= j < |xs| ensures Accepted(n, es[j]) {
      DecimalTarget(n, xs[j], code(NatToDecimal(xs[j])));
    }
    if |xs| > 0 {
      var init := xs[..|xs| - 1];
      var x := xs[|xs| - 1];
      assert es[..|es| - 1] == KeyEntries(init, code);
      KeyedCount(init, code, n);
      DecimalTarget(n, x, code(NatToDecimal(x)));
    }
  }

  /** The template lists each selected index once, and nothing else. */
  lemma TemplateIndices(qs: seq<Record>)
    ensures var flat := Flatten(TemplateGroups(qs));
      && Distinct(flat)
      && |flat| == CountIf(qs, IsUnknownUnit)
      && (forall j :: 0 <= j < |flat| ==> flat[j] < |qs|)
      && (forall x: nat :: x in flat <==> x < |qs| && IsUnknownUnit(qs[x]))
  {
    var keys := SourceKeys(qs);
    var u := UnknownIndices(qs);
    var g := TemplateGroups(qs);
    var flat := Flatten(g);
    GroupPositions(keys, u);
    FlattenDistinct(keys, g);
    FlattenBelow(keys, g);
    forall j | 0 <= j < |flat| ensures flat[j] < |qs| {
      assert flat[j] in flat;
    }
    forall x: nat ensures x in flat <==> x < |qs| && IsUnknownUnit(qs[x]) {
      if x in u {
        var a :| 0 <= a < |g| && BucketKeys(g)[a] == keys[x];
        assert x in g[a].items;
      }
    }
  }

  /** Keying lines by `str(x)` keeps distinct indices distinct. */
  lemma KeyEntriesDistinct(xs: seq<nat>, code: string -> Option<string>)
    requires Distinct(xs)
    ensures Distinct(KeyEntries(xs, code))
  {
    var es := KeyEntries(xs, code);
    forall i, j | 0 <= i < j < |es| ensures es[i] != es[j] {
      if es[i] == es[j] {
        NatToDecimalInjective(xs[i], xs[j]);
      }
    }
  }

  /** The line `str(x)` is present exactly when `x` is listed. */
  lemma KeyEntriesMembers(xs: seq<nat>, code: string -> Option<string>, x: nat)
    ensures Entry(NatToDecimal(x), code(NatToDecimal(x))) in KeyEntries(xs, code) <==> x in xs
  {
    var es := KeyEntries(xs, code);
    if Entry(NatToDecimal(x), code(NatToDecimal(x))) in es {
      var j :| 0 <= j < |es| && es[j] == Entry(NatToDecimal(x), code(NatToDecimal(x)));
      NatToDecimalInjective(xs[j], x);
    }
    if x in xs {
      var j :| 0 <= j < |xs| && xs[j] == x;
      assert es[j] == Entry(NatToDecimal(x), code(NatToDecimal(x)));
    }
  }

  /** One source of the template lists the lines of its selected records. */
  lemma TemplateSource(qs: seq<Record>, a: nat, x: nat)
    requires a < |Template(qs)|
    ensures var t := Template(qs);
      Entry(NatToDecimal(x), None) in t[a].entries <==>
        x < |qs| && IsUnknownUnit(qs[x]) && Get(qs[x].sourceFile) == t[a].source
  {
    var g := TemplateGroups(qs);
    GroupPositions(SourceKeys(qs), UnknownIndices(qs));
    assert Template(qs)[a] == SourceMapping(g[a].key, KeyEntries(g[a].items, Unfilled));
    KeyEntriesMembers(g[a].items, Unfilled, x);
  }

  /** No source appears twice in the template. */
  lemma TemplateSourcesDistinct(qs: seq<Record>)
    ensures var t := Template(qs);
      forall a, b :: 0 <= a < b < |t| ==> t[a].source != t[b].source
  {
    var g := TemplateGroups(qs);
    var t := Template(qs);
    GroupByBuckets(KeyedPositions(SourceKeys(qs), UnknownIndices(qs)));
    forall a, b | 0 <= a < b < |t| ensures t[a].source != t[b].source {
      assert t[a].source == g[a].key == BucketKeys(g)[a];
      assert t[b].source == g[b].key == BucketKeys(g)[b];
    }
  }

  /** The template's lines: one per selected record, none twice, all with a `null` unit. */
  lemma TemplateLines(qs: seq<Record>)
    ensures var es := Entries(Template(qs));
      && |es| == CountIf(qs, IsUnknownUnit)
      && Distinct(es)
      && forall j :: 0 <= j < |es| ==> es[j].unit.None?
  {
    var g := TemplateGroups(qs);
    TemplateIndices(qs);
    EntriesFilled(g, Unfilled);
    KeyEntriesDistinct(Flatten(g), Unfilled);
  }

  /** Each source of the template lists exactly the lines of its own selected records,
      each keyed by the decimal text of the record's index. */
  lemma TemplateSources(qs: seq<Record>)
    ensures var t := Template(qs);
      forall a, x: nat :: 0 <= a < |t| ==>
        (Entry(NatToDecimal(x), None) in t[a].entries <==>
          x < |qs| && IsUnknownUnit(qs[x]) && Get(qs[x].sourceFile) == t[a].source)
  {
    var t := Template(qs);
    forall a, x: nat | 0 <= a < |t|
      ensures Entry(NatToDecimal(x), None) in t[a].entries <==>
        x < |qs| && IsUnknownUnit(qs[x]) && Get(qs[x].sourceFile) == t[a].source
    {
      TemplateSource(qs, a, x);
    }
  }

  /** Filling in the template and applying it: nothing raises, each selected record whose
      line got a unit takes it, every other record is unchanged, and `fixed_count` is the
      number of filled lines. */
  lemma FilledTemplateApplies(qs: seq<Record>, code: string -> Option<string>)
    ensures var t := Fill(Template(qs), code);
      var r := ApplyUnitFixes(qs, MappingFile(Some(t)));
      && r.Success?
      && |r.value.records| == |qs|
      && r.value.fixedCount == CountIf(Entries(t), HasUnit)
      && forall k :: 0 <= k < |qs| ==>
           r.value.records[k] == (if IsUnknownUnit(qs[k]) && code(NatToDecimal(k)).Some?
             then qs[k].(unit := Val(code(NatToDecimal(k)).value)) else qs[k])
  {
    var g := TemplateGroups(qs);
    var flat := Flatten(g);
    var n := |qs|;
    FillFilled(g, Unfilled, code);
    EntriesFilled(g, code);
    TemplateIndices(qs);
    var es := KeyEntries(flat, code);
    KeyedCount(flat, code, n);
    ApplySpec(qs, es);
    forall k | 0 <= k < n ensures LastWriter(es, n, k) == if k in flat then code(NatToDecimal(k)) else None {
      KeyedWriter(flat, code, n, k);
    }
  }

  /** Applying the template as written changes nothing and fixes nothing. */
  lemma UnfilledTemplateIsIdentity(qs: seq<Record>)
    ensures ApplyUnitFixes(qs, MappingFile(Some(Template(qs)))) == Success(Applied(qs, 0))
  {
    var g := TemplateGroups(qs);
    FillFilled(g, Unfilled, Unfilled);
    FilledTemplateApplies(qs, Unfilled);
    var t := Template(qs);
    var r := ApplyUnitFixes(qs, MappingFile(Some(t)));
    EntriesFilled(g, Unfilled);
    NoneCounted(Entries(t));
    var recs := r.value.records;
    forall k | 0 <= k < |qs| ensures recs[k] == qs[k] {
      assert Unfilled(NatToDecimal(k)).None?;
    }
    assert recs == qs;
  }

  /** Lines without a unit count nothing. */
  lemma {:induction false} NoneCounted(es: seq<Entry>)
    requires forall j :: 0 <= j < |es| ==> es[j].unit.None?
    ensures CountIf(es, HasUnit) == 0
  {
    if |es| > 0 {
      NoneCounted(es[..|es| - 1]);
    }
  }

  /** Lines that all have a unit are all counted. */
  lemma {:induction false} AllCounted(es: seq<Entry>)
    requires forall j :: 0 <= j < |es| ==> es[j].unit.Some?
    ensures CountIf(es, HasUnit) == |es|
  {
    if |es| > 0 {
      AllCounted(es[..|es| - 1]);
    }
  }

  /** A template filled in completely rewrites the unit of every selected record, and
      `fixed_count` is the number of selected records. */
  lemma FullyFilledFixesAll(qs: seq<Record>, code: string -> Option<string>)
    requires forall key :: code(key).Some?
    ensures var r := ApplyUnitFixes(qs, MappingFile(Some(Fill(Template(qs), code))));
      && r.Success?
      && |r.value.records| == |qs|
      && r.value.fixedCount == CountIf(qs, IsUnknownUnit)
      && forall k :: 0 <= k < |qs| && IsUnknownUnit(qs[k]) ==>
           r.value.records[k].unit == Val(code(NatToDecimal(k)).value)
  {
    var g := TemplateGroups(qs);
    var t := Fill(Template(qs), code);
    FilledTemplateApplies(qs, code);
    FillFilled(g, Unfilled, code);
    EntriesFilled(g, code);
    TemplateIndices(qs);
    AllCounted(Entries(t));
  }

  /** A single line with an integer key: past the end it is skipped, inside the list it
      rewrites that record, a negative key counts from the end, and below `-len` it raises. */
  lemma SingleLine(qs: seq<Record>, i: int, c: string)
    ensures var n := |qs|;
      var r := ApplyEntries(qs, [Entry(IntToDecimal(i), Some(c))]);
      && (i >= n ==> r == Success(Applied(qs, 0)))
      && (0 <= i < n ==> r == Success(Applied(qs[i := qs[i].(unit := Val(c))], 1)))
      && (-(n as int) <= i < 0 ==> r == Success(Applied(qs[n + i := qs[n + i].(unit := Val(c))], 1)))
      && (i < -(n as int) ==> r == Failure(IndexOutOfRange(i)))
  {
    IntDecimalRoundTrip(i);
    var es := [Entry(IntToDecimal(i), Some(c))];
    assert es[..0] == [];
  }

  /** A line with a `null` unit is skipped before its key is read, so even a key `int()`
      rejects is harmless; with a unit, such a key raises. */
  lemma NonIntegerKey(qs: seq<Record>, key: string, c: string)
    requires ParseInt(key).None?
    ensures ApplyEntries(qs, [Entry(key, None)]) == Success(Applied(qs, 0))
    ensures ApplyEntries(qs, [Entry(key, Some(c))]) == Failure(IndexNotInteger(key))
  {
    assert [Entry(key, None)][..0] == [] && [Entry(key, Some(c))][..0] == [];
  }

  /** An index listed under two sources is rewritten twice and counted twice; the later
      line's unit stays. */
  lemma MappedTwice(qs: seq<Record>, x: nat, first: string, second: string)
    requires x < |qs|
    ensures ApplyEntries(qs, [Entry(NatToDecimal(x), Some(first)), Entry(NatToDecimal(x), Some(second))])
      == Success(Applied(qs[x := qs[x].(unit := Val(second))], 2))
  {
    var n := |qs|;
    var es := [Entry(NatToDecimal(x), Some(first)), Entry(NatToDecimal(x), Some(second))];
    DecimalTarget(n, x, Some(first));
    DecimalTarget(n, x, Some(second));
    var a0 := Applied(qs, 0);
    ApplyStep(a0, es[0]);
    var a1 := Applied(qs[x := qs[x].(unit := Val(first))], 1);
    assert es[..1] == [es[0]] && es[..1][..0] == [];
    assert ApplyEntries(qs, es[..1]) == Success(a1);
    ApplyStep(a1, es[1]);
    assert a1.records[x := a1.records[x].(unit := Val(second))] == qs[x := qs[x].(unit := Val(second))];
  }

  // ---------------------------------------------------------------- statistics

  /** `q.get('unit', 'Unknown')`: an absent key reads as the sentinel, a `null` one as `None`. */
  function UnitOrDefault(r: Record): Option<string> {
    match r.unit
    case Missing => Some(UNKNOWN)
    case Null => None
    case Val(u) => Some(u)
  }

  /** The records the per-unit table counts: `unit != 'Unknown'` after the default. */
  predicate CountedUnit(r: Record) {
    UnitOrDefault(r) != Some(UNKNOWN)
  }

  predicate IsMissingUnit(r: Record) {
    r.unit.Missing?
  }

  function UnitKeys(qs: seq<Record>): (keys: seq<Option<string>>)
    ensures |keys| == |qs| && forall i :: 0 <= i < |qs| ==> keys[i] == UnitOrDefault(qs[i])
  {
    seq(|qs|, i requires 0 <= i < |qs| => UnitOrDefault(qs[i]))
  }

  /** The figures `show_statistics` prints. `perUnit` keeps, under each unit, the positions
      it counts; the printed count is the bucket's size. */
  datatype UnitStats = UnitStats(
    total: nat,
    known: nat,
    unknown: nat,
    perUnit: seq<Bucket<Option<string>, nat>>)

  /** `show_statistics` without the printing; `None` for an empty list, where the
      percentage divides by zero. */
  function Statistics(qs: seq<Record>): (s: Option<UnitStats>)
    ensures s.None? <==> |qs| == 0
    ensures s.Some? ==> s.value.total == |qs| && s.value.known + s.value.unknown == s.value.total
  {
    if |qs| == 0 then None
    else
      var unknown := CountIf(qs, IsUnknownUnit);
      var counted := Positions(qs, CountedUnit);
      Some(UnitStats(|qs|, |qs| - unknown, unknown, GroupBy(KeyedPositions(UnitKeys(qs), counted))))
  }

  /** Every record is counted per unit, has no unit key, or has the sentinel unit: exactly one. */
  lemma {:induction false} UnitClasses(qs: seq<Record>)
    ensures CountIf(qs, CountedUnit) + CountIf(qs, IsMissingUnit) + CountIf(qs, IsUnknownUnit) == |qs|
  {
    if |qs| > 0 {
      UnitClasses(qs[..|qs| - 1]);
    }
  }

  /** The statistics: the unknown figure counts the sentinel units; each per-unit bucket
      holds exactly the records whose unit (after the default) is its key and not the
      sentinel; no unit twice; and the per-unit counts add up to the known figure less the
      records with no unit key, which are known but in no bucket. */
  lemma StatisticsSpec(qs: seq<Record>)
    requires |qs| > 0
    ensures var s := Statistics(qs).value;
      && s.unknown == CountIf(qs, IsUnknownUnit)
      && TotalSize(s.perUnit) + CountIf(qs, IsMissingUnit) == s.known
      && Distinct(BucketKeys(s.perUnit))
      && Some(UNKNOWN) !in BucketKeys(s.perUnit)
      && (forall a, x: nat :: 0 <= a < |s.perUnit| ==>
            (x in s.perUnit[a].items <==> x < |qs| && CountedUnit(qs[x]) && UnitOrDefault(qs[x]) == s.perUnit[a].key))
  {
    var keys := UnitKeys(qs);
    var counted := Positions(qs, CountedUnit);
    var g := GroupBy(KeyedPositions(keys, counted));
    PositionsSpec(qs, CountedUnit);
    GroupPositions(keys, counted);
    GroupBySpec(KeyedPositions(keys, counted));
    UnitClasses(qs);
    forall a | 0 <= a < |g| ensures g[a].key != Some(UNKNOWN) {
      var x := g[a].items[0];
      assert x in g[a].items;
    }
  }
}
