/** The attendance ledger: a sequence of entries keyed by the cell
    `(employeeId, date)`, with the upsert, the retention filter and the two
    queries of the storage layer, as pure functions on sequences. */
module Ledger {
  import opened Wrappers
  import opened Types
  import opened Seqs
  import opened Strings

  /** The entry belongs to the cell of this employee on this date. */
  predicate IsCell(e: Entry, employeeId: string, date: string) {
    e.employeeId == employeeId && e.date == date
  }

  predicate HasCell(l: seq<Entry>, employeeId: string, date: string) {
    exists i :: 0 <= i < |l| && IsCell(l[i], employeeId, date)
  }

  /** At most one entry per cell. */
  predicate UniqueCells(l: seq<Entry>) {
    forall i, j :: 0 <= i < j < |l| ==> !IsCell(l[j], l[i].employeeId, l[i].date)
  }

  /** `findIndex` on the cell: the first index holding it, if any. */
  function FindCell(l: seq<Entry>, employeeId: string, date: string): (r: Option<nat>)
    ensures r.Some? ==> r.value < |l| && IsCell(l[r.value], employeeId, date)
    ensures r.Some? ==> forall j :: 0 <= j < r.value ==> !IsCell(l[j], employeeId, date)
    ensures r.None? <==> !HasCell(l, employeeId, date)
  {
    if l == [] then None
    else if IsCell(l[0], employeeId, date) then Some(0)
    else
      match FindCell(l[1..], employeeId, date)
      case None =>
        assert forall j :: 1 <= j < |l| ==> l[j] == l[1..][j - 1];
        None
      case Some(i) => Some(i + 1)
  }

  /** `find` on the cell: the first entry holding it, if any. */
  function Lookup(l: seq<Entry>, employeeId: string, date: string): (r: Option<Entry>)
    ensures r.None? <==> !HasCell(l, employeeId, date)
    ensures r.Some? ==> exists i :: 0 <= i < |l| && l[i] == r.value
                          && IsCell(l[i], employeeId, date)
                          && forall j :: 0 <= j < i ==> !IsCell(l[j], employeeId, date)
  {
    match FindCell(l, employeeId, date)
    case None => None
    case Some(i) => Some(l[i])
  }

  /** `addAttendanceEntry` on an in-memory ledger: overwrite the first entry
      of the same cell, or append when the cell is new. */
  function Upsert(l: seq<Entry>, e: Entry): (r: seq<Entry>)
    ensures e in r
    ensures !HasCell(l, e.employeeId, e.date) ==> r == l + [e]
    ensures HasCell(l, e.employeeId, e.date) ==> |r| == |l|
    ensures forall j :: 0 <= j < |l| && !IsCell(l[j], e.employeeId, e.date) ==> r[j] == l[j]
  {
    match FindCell(l, e.employeeId, e.date)
    case Some(i) =>
      assert l[i := e][i] == e;
      l[i := e]
    case None => l + [e]
  }

  /** The retention filter: keep the entries dated on or after the cutoff,
      by string comparison. */
  function Clean(l: seq<Entry>, cutoff: string): (r: seq<Entry>)
    ensures forall e :: e in r <==> e in l && AtOrAfter(e.date, cutoff)
  {
    Filter(l, (e: Entry) => AtOrAfter(e.date, cutoff))
  }

  /** The entries of one date. */
  function ForDate(l: seq<Entry>, date: string): (r: seq<Entry>)
    ensures forall e :: e in r <==> e in l && e.date == date
  {
    Filter(l, (e: Entry) => e.date == date)
  }

  /** A date bound of the range query: absent and empty both mean "none"
      (the source tests the bound for truthiness). */
  predicate Bounded(bound: Option<string>) {
    bound.Some? && bound.value != ""
  }

  predicate InRange(date: string, from: Option<string>, to: Option<string>) {
    && !(Bounded(from) && Before(date, from.value))
    && !(Bounded(to) && Before(to.value, date))
  }

  /** The entries of one employee whose date lies within the inclusive bounds. */
  function ForEmployee(l: seq<Entry>, employeeId: string, from: Option<string>, to: Option<string>): (r: seq<Entry>)
    ensures forall e :: e in r <==>
      && e in l
      && e.employeeId == employeeId
      && (!Bounded(from) || AtOrAfter(e.date, from.value))
      && (!Bounded(to) || AtOrAfter(to.value, e.date))
  {
    Filter(l, (e: Entry) => e.employeeId == employeeId && InRange(e.date, from, to))
  }

  // ---------------------------------------------------------------- upsert

  /** When the cell exists, the upsert replaces exactly its first entry. */
  lemma UpsertReplacesFirst(l: seq<Entry>, e: Entry, i: nat)
    requires FindCell(l, e.employeeId, e.date) == Some(i)
    ensures Upsert(l, e) == l[i := e]
    ensures |Upsert(l, e)| == |l| && Upsert(l, e)[i] == e
  {
  }

  /** After an upsert, looking the cell up finds the upserted entry, and
      every other cell looks up as before. */
  lemma {:induction false} UpsertThenLookup(l: seq<Entry>, e: Entry, employeeId: string, date: string)
    ensures Lookup(Upsert(l, e), e.employeeId, e.date) == Some(e)
    ensures !(employeeId == e.employeeId && date == e.date) ==>
              Lookup(Upsert(l, e), employeeId, date) == Lookup(l, employeeId, date)
  {
    var r := Upsert(l, e);
    match FindCell(l, e.employeeId, e.date)
    case Some(i) =>
      assert r == l[i := e];
      assert FindCell(r, e.employeeId, e.date) == Some(i) by {
        FindCellUnique(r, e.employeeId, e.date, i);
      }
      if !(employeeId == e.employeeId && date == e.date) {
        LookupUnderOtherCell(l, i, e, employeeId, date);
      }
    case None =>
      assert r == l + [e];
      assert FindCell(r, e.employeeId, e.date) == Some(|l|) by {
        FindCellUnique(r, e.employeeId, e.date, |l|);
      }
      if !(employeeId == e.employeeId && date == e.date) {
        FindCellAppend(l, e, employeeId, date);
      }
  }

  /** The first index of a cell is determined by the contents. */
  lemma FindCellUnique(l: seq<Entry>, employeeId: string, date: string, i: nat)
    requires i < |l| && IsCell(l[i], employeeId, date)
    requires forall j :: 0 <= j < i ==> !IsCell(l[j], employeeId, date)
    ensures FindCell(l, employeeId, date) == Some(i)
  {
  }

  lemma LookupUnderOtherCell(l: seq<Entry>, i: nat, e: Entry, employeeId: string, date: string)
    requires i < |l| && IsCell(l[i], e.employeeId, e.date)
    requires !(employeeId == e.employeeId && date == e.date)
    ensures Lookup(l[i := e], employeeId, date) == Lookup(l, employeeId, date)
  {
    var r := l[i := e];
    assert forall j :: 0 <= j < |l| ==> (IsCell(r[j], employeeId, date) <==> IsCell(l[j], employeeId, date));
    match FindCell(l, employeeId, date)
    case Some(k) =>
      FindCellUnique(r, employeeId, date, k);
    case None =>
      assert !HasCell(r, employeeId, date);
  }

  lemma FindCellAppend(l: seq<Entry>, e: Entry, employeeId: string, date: string)
    requires !(employeeId == e.employeeId && date == e.date)
    ensures Lookup(l + [e], employeeId, date) == Lookup(l, employeeId, date)
  {
    var r := l + [e];
    match FindCell(l, employeeId, date)
    case Some(k) =>
      FindCellUnique(r, employeeId, date, k);
    case None =>
      assert !HasCell(r, employeeId, date);
  }

  /** Upserting the same entry twice is the same as upserting it once. */
  lemma UpsertIdempotent(l: seq<Entry>, e: Entry)
    ensures Upsert(Upsert(l, e), e) == Upsert(l, e)
  {
    var r := Upsert(l, e);
    match FindCell(l, e.employeeId, e.date)
    case Some(i) =>
      FindCellUnique(r, e.employeeId, e.date, i);
    case None =>
      FindCellUnique(r, e.employeeId, e.date, |l|);
  }

  /** The upsert keeps the ledger free of duplicate cells. */
  lemma UpsertKeepsCellsUnique(l: seq<Entry>, e: Entry)
    requires UniqueCells(l)
    ensures UniqueCells(Upsert(l, e))
  {
  }

  // ------------------------------------------------------------- retention

  /** Retention keeps the surviving entries in their original order: it
      distributes over concatenation. */
  lemma CleanConcat(a: seq<Entry>, b: seq<Entry>, cutoff: string)
    ensures Clean(a + b, cutoff) == Clean(a, cutoff) + Clean(b, cutoff)
  {
    FilterConcat(a, b, (e: Entry) => AtOrAfter(e.date, cutoff));
  }

  /** The date query distributes over concatenation: it keeps the ledger's
      order and every repeated entry. */
  lemma ForDateConcat(a: seq<Entry>, b: seq<Entry>, date: string)
    ensures ForDate(a + b, date) == ForDate(a, date) + ForDate(b, date)
  {
    FilterConcat(a, b, (e: Entry) => e.date == date);
  }

  /** The employee range query distributes over concatenation: it keeps the
      ledger's order and every repeated entry. */
  lemma ForEmployeeConcat(a: seq<Entry>, b: seq<Entry>, employeeId: string, from: Option<string>, to: Option<string>)
    ensures ForEmployee(a + b, employeeId, from, to) == ForEmployee(a, employeeId, from, to) + ForEmployee(b, employeeId, from, to)
  {
    FilterConcat(a, b, (e: Entry) => e.employeeId == employeeId && InRange(e.date, from, to));
  }

  /** Cleaning twice with the same cutoff is cleaning once. */
  lemma CleanIdempotent(l: seq<Entry>, cutoff: string)
    ensures Clean(Clean(l, cutoff), cutoff) == Clean(l, cutoff)
  {
    var p := (e: Entry) => AtOrAfter(e.date, cutoff);
    FilterNested(l, p, p);
  }

  /** Cleaning with an earlier cutoff and then with a later one is the same
      as cleaning with the later one: successive sweeps compose. */
  lemma CleanLaterCutoff(l: seq<Entry>, earlier: string, later: string)
    requires AtOrAfter(later, earlier)
    ensures Clean(Clean(l, earlier), later) == Clean(l, later)
  {
    var p := (e: Entry) => AtOrAfter(e.date, earlier);
    var q := (e: Entry) => AtOrAfter(e.date, later);
    forall x | x in l && q(x) ensures p(x) {
      if Before(x.date, earlier) {
        BeforeTotal(later, earlier);
        if later == earlier {
        } else {
          BeforeTransitive(x.date, earlier, later);
        }
      }
    }
    FilterNested(l, p, q);
  }

  /** Retention removes something exactly when some entry predates the cutoff. */
  lemma CleanShrinksIffStale(l: seq<Entry>, cutoff: string)
    ensures |Clean(l, cutoff)| != |l| <==> exists i :: 0 <= i < |l| && Before(l[i].date, cutoff)
    ensures |Clean(l, cutoff)| == |l| <==> Clean(l, cutoff) == l
  {
    FilterKeepsAll(l, (e: Entry) => AtOrAfter(e.date, cutoff));
  }

  /** With no date bounds the range query returns all of the employee's
      entries; an empty-string bound is the same as none. */
  lemma ForEmployeeEmptyBound(l: seq<Entry>, employeeId: string, from: Option<string>, to: Option<string>)
    ensures ForEmployee(l, employeeId, Some(""), to) == ForEmployee(l, employeeId, None, to)
    ensures ForEmployee(l, employeeId, from, Some("")) == ForEmployee(l, employeeId, from, None)
  {
    FilterCongruence(l, (e: Entry) => e.employeeId == employeeId && InRange(e.date, Some(""), to),
                        (e: Entry) => e.employeeId == employeeId && InRange(e.date, None, to));
    FilterCongruence(l, (e: Entry) => e.employeeId == employeeId && InRange(e.date, from, Some("")),
                        (e: Entry) => e.employeeId == employeeId && InRange(e.date, from, None));
  }
}
