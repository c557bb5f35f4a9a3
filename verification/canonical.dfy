/**
 * Choosing the representative of a duplicate group (`select_canonical_version` and its
 * `priority_key`): the first member with the least key
 * `(unit == 'Unknown', year or 9999, -has_metadata)`.
 */
module Canonical {
  import opened Wrappers
  import opened Text
  import opened Records

  /** The tuple `priority_key` returns. */
  datatype Key = Key(unitUnknown: bool, year: int, negHasMetadata: int)

  /** Python's `<` on such tuples: component by component, with `False < True`. */
  predicate KeyLess(a: Key, b: Key) {
    if a.unitUnknown != b.unitUnknown then !a.unitUnknown
    else if a.year != b.year then a.year < b.year
    else a.negHasMetadata < b.negHasMetadata
  }

  /** The year a record without a usable year is ranked at. */
  const MISSING_YEAR: int := 9999

  /** `q.get('unit', 'Unknown') == 'Unknown'`: an absent unit counts as unknown, a `null` one does not. */
  predicate UnitIsUnknown(r: Record) {
    match r.unit
    case Missing => true
    case Null => false
    case Val(u) => u == UNKNOWN
  }

  /** Python truthiness of `q.get('year')`: absent, `null`, `""` and `0` are false. */
  predicate YearIsTruthy(y: Slot<YearValue>) {
    match y
    case Val(YearText(t)) => t != ""
    case Val(YearNumber(n)) => n != 0
    case _ => false
  }

  /** `int(q.get('year', 9999)) if q.get('year') else 9999`; `None` where `int()` raises. */
  function YearRank(y: Slot<YearValue>): Option<int> {
    if !YearIsTruthy(y) then Some(MISSING_YEAR)
    else match y.value
      case YearNumber(n) => Some(n)
      case YearText(t) => ParseInt(t)
  }

  /** `1 if q.get('metadata') else 0`: metadata present, not `null`, and not empty. */
  predicate HasMetadata(r: Record) {
    r.metadata.Val? && |r.metadata.value| > 0
  }

  /** `priority_key`; `None` where it raises. */
  function PriorityKey(r: Record): Option<Key> {
    match YearRank(r.year)
    case None => None
    case Some(y) => Some(Key(UnitIsUnknown(r), y, if HasMetadata(r) then -1 else 0))
  }

  /** Every index is in range and every member's key can be computed. */
  predicate KeysDefined(records: seq<Record>, indices: seq<nat>) {
    forall k :: 0 <= k < |indices| ==> indices[k] < |records| && PriorityKey(records[indices[k]]).Some?
  }

  function KeyAt(records: seq<Record>, i: nat): Key
    requires i < |records| && PriorityKey(records[i]).Some?
  {
    PriorityKey(records[i]).value
  }

  function KeysOf(records: seq<Record>, indices: seq<nat>): (ks: seq<Key>)
    requires KeysDefined(records, indices)
    ensures |ks| == |indices|
    ensures forall k :: 0 <= k < |indices| ==> ks[k] == KeyAt(records, indices[k])
  {
    seq(|indices|, k requires 0 <= k < |indices| && KeysDefined(records, indices) => KeyAt(records, indices[k]))
  }

  /** `min(..., key=...)`: it keeps the first item and replaces it only by a strictly smaller
      one, so it returns the position of the FIRST least key. */
  function FirstMin(ks: seq<Key>): (p: nat)
    requires |ks| > 0
    ensures p < |ks|
    ensures forall j :: 0 <= j < |ks| ==> !KeyLess(ks[j], ks[p])
    ensures forall j :: 0 <= j < p ==> KeyLess(ks[p], ks[j])
  {
    if |ks| == 1 then 0
    else
      var p := FirstMin(ks[..|ks| - 1]);
      if KeyLess(ks[|ks| - 1], ks[p]) then |ks| - 1 else p
  }

  /** The two properties of `FirstMin` pin it down: the choice is total and deterministic. */
  lemma FirstMinUnique(ks: seq<Key>, p: nat)
    requires p < |ks|
    requires forall j :: 0 <= j < |ks| ==> !KeyLess(ks[j], ks[p])
    requires forall j :: 0 <= j < p ==> KeyLess(ks[p], ks[j])
    ensures p == FirstMin(ks)
  {
  }

  /** `select_canonical_version`: the member at the first position of least key. */
  function SelectCanonical(records: seq<Record>, indices: seq<nat>): (c: nat)
    requires |indices| > 0 && KeysDefined(records, indices)
    ensures c in indices && c < |records| && PriorityKey(records[c]).Some?
  {
    indices[FirstMin(KeysOf(records, indices))]
  }

  /** The canonical member: no member has a strictly smaller key, and every member listed
      before it has a strictly greater one. */
  lemma CanonicalIsFirstLeast(records: seq<Record>, indices: seq<nat>)
    requires |indices| > 0 && KeysDefined(records, indices)
    ensures var c := SelectCanonical(records, indices);
      && (forall j :: 0 <= j < |indices| ==> !KeyLess(KeyAt(records, indices[j]), KeyAt(records, c)))
      && exists p ::
           && 0 <= p < |indices|
           && indices[p] == c
           && (forall j :: 0 <= j < p ==> KeyLess(KeyAt(records, c), KeyAt(records, indices[j])))
  {
    var ks := KeysOf(records, indices);
    var p := FirstMin(ks);
    assert ks[p] == KeyAt(records, indices[p]);
  }

  /** `c` is listed in `indices`, no member has a strictly smaller key, and every member listed
      before it has a strictly greater one. */
  ghost predicate IsFirstLeast(records: seq<Record>, indices: seq<nat>, c: nat)
    requires KeysDefined(records, indices)
  {
    exists p ::
      && 0 <= p < |indices|
      && indices[p] == c
      && (forall j :: 0 <= j < |indices| ==> !KeyLess(KeyAt(records, indices[j]), KeyAt(records, c)))
      && (forall j :: 0 <= j < p ==> KeyLess(KeyAt(records, c), KeyAt(records, indices[j])))
  }

  /** At most one member is the first of least key, so the choice does not depend on anything
      but the keys and their order. */
  lemma FirstLeastUnique(records: seq<Record>, indices: seq<nat>, c1: nat, c2: nat)
    requires KeysDefined(records, indices)
    requires IsFirstLeast(records, indices, c1) && IsFirstLeast(records, indices, c2)
    ensures c1 == c2
  {
    var p1 :| && 0 <= p1 < |indices| && indices[p1] == c1
              && (forall j :: 0 <= j < |indices| ==> !KeyLess(KeyAt(records, indices[j]), KeyAt(records, c1)))
              && (forall j :: 0 <= j < p1 ==> KeyLess(KeyAt(records, c1), KeyAt(records, indices[j])));
    var p2 :| && 0 <= p2 < |indices| && indices[p2] == c2
              && (forall j :: 0 <= j < |indices| ==> !KeyLess(KeyAt(records, indices[j]), KeyAt(records, c2)))
              && (forall j :: 0 <= j < p2 ==> KeyLess(KeyAt(records, c2), KeyAt(records, indices[j])));
    assert !KeyLess(KeyAt(records, c2), KeyAt(records, c1)) && !KeyLess(KeyAt(records, c1), KeyAt(records, c2));
  }

  // ---------------------------------------------------------------- tie-break facts

  /** A known unit outranks an unknown one, whatever the years and metadata. */
  lemma KnownUnitOutranksUnknown(a: Record, b: Record)
    requires PriorityKey(a).Some? && PriorityKey(b).Some?
    requires !UnitIsUnknown(a) && UnitIsUnknown(b)
    ensures KeyLess(PriorityKey(a).value, PriorityKey(b).value)
  {
  }

  /** Hence a group with any known-unit member gets a known-unit canonical record. */
  lemma KnownUnitChosen(records: seq<Record>, indices: seq<nat>, m: nat)
    requires |indices| > 0 && KeysDefined(records, indices)
    requires m in indices && !UnitIsUnknown(records[m])
    ensures !UnitIsUnknown(records[SelectCanonical(records, indices)])
  {
    var c := SelectCanonical(records, indices);
    CanonicalIsFirstLeast(records, indices);
    var j :| 0 <= j < |indices| && indices[j] == m;
    assert !KeyLess(KeyAt(records, m), KeyAt(records, c));
  }

  /** With equal unit status, a record without a usable year ranks after one whose year is
      below the 9999 sentinel. (A year of 9999 or more ranks level with or after it.) */
  lemma MissingYearRanksLater(a: Record, b: Record)
    requires UnitIsUnknown(a) == UnitIsUnknown(b)
    requires !YearIsTruthy(a.year)
    requires PriorityKey(b).Some? && PriorityKey(b).value.year < MISSING_YEAR
    ensures PriorityKey(a).Some? && KeyLess(PriorityKey(b).value, PriorityKey(a).value)
  {
  }

  /** Hence if every member has the same unit status and one has a year below 9999, the
      canonical record has a usable year. */
  lemma DatedRecordChosen(records: seq<Record>, indices: seq<nat>, m: nat)
    requires |indices| > 0 && KeysDefined(records, indices)
    requires m in indices && KeyAt(records, m).year < MISSING_YEAR
    requires forall k :: 0 <= k < |indices| ==> UnitIsUnknown(records[indices[k]]) == UnitIsUnknown(records[m])
    ensures YearIsTruthy(records[SelectCanonical(records, indices)].year)
  {
    var c := SelectCanonical(records, indices);
    CanonicalIsFirstLeast(records, indices);
    var j :| 0 <= j < |indices| && indices[j] == m;
    assert !KeyLess(KeyAt(records, m), KeyAt(records, c));
    var p :| 0 <= p < |indices| && indices[p] == c;
    assert UnitIsUnknown(records[c]) == UnitIsUnknown(records[m]);
  }
}
