/**
 * The question record as it sits in the loaded JSON list, and the provenance record the
 * deduplicator attaches to canonical questions.
 */
module Records {
  import opened Wrappers

  /** One key of a JSON object: absent, present with `null`, or present with a value.
      `dict.get(key)` does not tell the first two apart; `dict.get(key, default)` and
      `key in dict` do. */
  datatype Slot<T> = Missing | Null | Val(value: T)

  /** Python's `d.get(key)`: `None` for an absent key and for `null`. */
  function Get<T>(s: Slot<T>): Option<T> {
    match s
    case Val(v) => Some(v)
    case _ => None
  }

  /** A JSON value, for fields the scripts copy without looking inside (floats aside). */
  datatype Json =
    | JNull
    | JBool(b: bool)
    | JInt(i: int)
    | JStr(s: string)
    | JArray(elems: seq<Json>)
    | JObject(members: map<string, Json>)

  /** The `year` field as found in the data: a string such as `"2020"` or a JSON integer. */
  datatype YearValue = YearText(text: string) | YearNumber(number: int)

  /** One line of the audit trail: where one duplicate instance came from. */
  datatype SourceEntry = SourceEntry(
    year: Option<YearValue>,
    sourceFile: Option<string>,
    questionNumber: Option<string>,
    originalIndex: nat)

  /** The merged provenance of a duplicate group (`merge_sources`' result). */
  datatype Provenance = Provenance(
    sourcePdfs: seq<string>,
    yearsFound: seq<string>,
    allSources: seq<SourceEntry>,
    duplicateCount: nat)

  /** One question record. `extra` holds every key the scripts do not name (such as
      `course`), copied unchanged. A record read from JSON never has a named key in `extra`;
      the type does not enforce this, and no operation reads `extra` or writes into it. */
  datatype Record = Record(
    question: Slot<string>,
    unit: Slot<string>,
    year: Slot<YearValue>,
    sourceFile: Slot<string>,
    questionNumber: Slot<string>,
    metadata: Slot<map<string, Json>>,
    sourceMetadata: Slot<Provenance>,
    extra: map<string, Json>)

  /** The sentinel unit code for "not yet determined". */
  const UNKNOWN: string := "Unknown"

  /** Keys the deduplicator writes into `metadata`. */
  const SOURCE_PDFS: string := "source_pdfs"
  const YEARS_FOUND: string := "years_found"
  const IS_DEDUPLICATED: string := "is_deduplicated"
  const DUPLICATE_COUNT: string := "duplicate_count"

  /** `[str, ...]` as a JSON array. */
  function StringArray(xs: seq<string>): (j: Json)
    ensures j.JArray? && |j.elems| == |xs|
    ensures forall k :: 0 <= k < |xs| ==> j.elems[k] == JStr(xs[k])
  {
    JArray(seq(|xs|, k requires 0 <= k < |xs| => JStr(xs[k])))
  }
}
