/** The week calendar's cell click: from the current ledger snapshot, an
    employee id and a date string, compute the entry to write. Existing
    entries cycle absent -> present -> present with dog -> absent, the dog
    step being skipped when two other employees already bring a dog that
    day; a new cell starts with a dog when fewer than two are booked. */
module Calendar {
  import opened Wrappers
  import opened Types
  import opened Seqs
  import opened Ledger
  import opened Strings
  import Storage

  /** The most dogs the calendar lets a click book for one day. */
  const DogQuota: nat := 2

  predicate IsDogOn(e: Entry, date: string) {
    e.date == date && e.status == PresentWithDog
  }

  /** `getDogCountForDate`: the entries of the day with status present with dog. */
  function DogCount(l: seq<Entry>, date: string): (r: nat)
    ensures r <= |l|
  {
    var dogs := Filter(l, (e: Entry) => IsDogOn(e, date));
    |dogs|
  }

  /** The dogs of the day booked by employees other than the given one. */
  function OtherDogCount(l: seq<Entry>, employeeId: string, date: string): (r: nat)
    ensures r <= |l|
  {
    var dogs := Filter(l, (e: Entry) => IsDogOn(e, date) && e.employeeId != employeeId);
    |dogs|
  }

  /** The day's dog count is zero exactly when no entry that day is present
      with a dog. */
  lemma DogCountZeroIff(l: seq<Entry>, date: string)
    ensures DogCount(l, date) == 0 <==> forall i :: 0 <= i < |l| ==> !IsDogOn(l[i], date)
  {
    var dogs := Filter(l, (e: Entry) => IsDogOn(e, date));
    assert dogs != [] ==> dogs[0] in dogs;
    assert forall i :: 0 <= i < |l| ==> l[i] in l;
  }

  /** The other employees' dog count is zero exactly when no other
      employee's entry that day is present with a dog. */
  lemma OtherDogCountZeroIff(l: seq<Entry>, employeeId: string, date: string)
    ensures OtherDogCount(l, employeeId, date) == 0
        <==> forall i :: 0 <= i < |l| ==> !(IsDogOn(l[i], date) && l[i].employeeId != employeeId)
  {
    var dogs := Filter(l, (e: Entry) => IsDogOn(e, date) && e.employeeId != employeeId);
    assert dogs != [] ==> dogs[0] in dogs;
    assert forall i :: 0 <= i < |l| ==> l[i] in l;
  }

  /** Other employees' dogs are among the day's dogs. */
  lemma OtherDogsAtMostDogs(l: seq<Entry>, employeeId: string, date: string)
    ensures OtherDogCount(l, employeeId, date) <= DogCount(l, date)
  {
    FilterStrongerCount(l, (e: Entry) => IsDogOn(e, date) && e.employeeId != employeeId,
                           (e: Entry) => IsDogOn(e, date));
  }

  /** The status an existing entry moves to, given the other employees'
      dogs of the day. */
  function NextStatus(current: Status, otherDogs: nat): (r: Status)
    ensures current == Absent ==> r == Present
    ensures current == Present ==> (r == PresentWithDog <==> otherDogs < DogQuota)
    ensures current == Present ==> (r == Absent <==> otherDogs >= DogQuota)
    ensures current == PresentWithDog ==> r == Absent
  {
    match current
    case Absent => Present
    case Present => if otherDogs < DogQuota then PresentWithDog else Absent
    case PresentWithDog => Absent
  }

  /** The status a new cell starts with, given the dogs of the day. */
  function InitialStatus(dogs: nat): (r: Status)
    ensures r != Absent
    ensures r == PresentWithDog <==> dogs < DogQuota
  {
    if dogs < DogQuota then PresentWithDog else Present
  }

  /** `handleCellClick`'s computation of the entry to write. An existing
      entry keeps every field but its status; a new one gets the fresh id
      and no optional fields. */
  function Click(l: seq<Entry>, employeeId: string, date: string, freshId: string): (r: Entry)
    ensures IsCell(r, employeeId, date)
    ensures Lookup(l, employeeId, date).Some? ==>
              r == Lookup(l, employeeId, date).value.(status := r.status)
    ensures Lookup(l, employeeId, date).Some? ==>
              r.status == NextStatus(Lookup(l, employeeId, date).value.status, OtherDogCount(l, employeeId, date))
    ensures Lookup(l, employeeId, date).None? ==>
              r == Entry(freshId, employeeId, date, r.status, None, None, None, None) && r.status != Absent
    ensures Lookup(l, employeeId, date).None? ==> r.status == InitialStatus(DogCount(l, date))
  {
    match Lookup(l, employeeId, date)
    case Some(existing) =>
      existing.(status := NextStatus(existing.status, OtherDogCount(l, employeeId, date)))
    case None =>
      Entry(freshId, employeeId, date, InitialStatus(DogCount(l, date)), None, None, None, None)
  }

  /** The ledger after the click's entry is written. */
  function ClickAndUpsert(l: seq<Entry>, employeeId: string, date: string, freshId: string): seq<Entry> {
    Upsert(l, Click(l, employeeId, date, freshId))
  }

  // -------------------------------------------------------------- counting

  /** The day's dogs split into the given employee's and everyone else's. */
  lemma {:induction false} DogCountSplit(l: seq<Entry>, employeeId: string, date: string)
    ensures DogCount(l, date) == OtherDogCount(l, employeeId, date)
                               + |Filter(l, (e: Entry) => IsDogOn(e, date) && e.employeeId == employeeId)|
  {
    if l != [] {
      DogCountSplit(l[1..], employeeId, date);
    }
  }

  /** With unique cells, the only entry of the employee's cell is the one at
      its index, so that employee contributes at most that entry's dog. */
  lemma OwnDogs(l: seq<Entry>, employeeId: string, date: string, i: nat)
    requires UniqueCells(l)
    requires i < |l| && IsCell(l[i], employeeId, date)
    ensures DogCount(l, date) == OtherDogCount(l, employeeId, date) + (if l[i].status == PresentWithDog then 1 else 0)
  {
    var own := (e: Entry) => IsDogOn(e, date) && e.employeeId == employeeId;
    DogCountSplit(l, employeeId, date);
    assert l == l[..i] + [l[i]] + l[i + 1..];
    FilterConcat(l[..i] + [l[i]], l[i + 1..], own);
    FilterConcat(l[..i], [l[i]], own);
    FilterNone(l[..i], own);
    FilterNone(l[i + 1..], own);
  }

  /** Overwriting the employee's own entry in a cell of that date does not
      change the other employees' dog count. */
  lemma OtherDogsUnchanged(l: seq<Entry>, employeeId: string, date: string, i: nat, x: Entry)
    requires i < |l| && l[i].employeeId == employeeId && x.employeeId == employeeId
    ensures OtherDogCount(l[i := x], employeeId, date) == OtherDogCount(l, employeeId, date)
  {
    FilterUpdateCount(l, i, x, (e: Entry) => IsDogOn(e, date) && e.employeeId != employeeId);
  }

  // ---------------------------------------------------------- the quota

  /** A click never pushes the day's dog count above the quota: after the
      write the count is at most the larger of its old value and 2. With a
      ledger that was within the quota, it stays within the quota. */
  lemma ClickRespectsDogQuota(l: seq<Entry>, employeeId: string, date: string, freshId: string)
    requires UniqueCells(l)
    ensures var after := DogCount(ClickAndUpsert(l, employeeId, date, freshId), date);
            after <= DogCount(l, date) || after <= DogQuota
    ensures DogCount(l, date) <= DogQuota ==>
              DogCount(ClickAndUpsert(l, employeeId, date, freshId), date) <= DogQuota
  {
    var e := Click(l, employeeId, date, freshId);
    var dog := (x: Entry) => IsDogOn(x, date);
    match FindCell(l, employeeId, date)
    case Some(i) =>
      UpsertReplacesFirst(l, e, i);
      FilterUpdateCount(l, i, e, dog);
      OwnDogs(l, employeeId, date, i);
    case None =>
      FilterAppend(l, e, dog);
  }

  /** The click touches one cell only: every other date keeps its dog count. */
  lemma ClickLeavesOtherDates(l: seq<Entry>, employeeId: string, date: string, freshId: string, other: string)
    requires other != date
    ensures DogCount(ClickAndUpsert(l, employeeId, date, freshId), other) == DogCount(l, other)
  {
    var e := Click(l, employeeId, date, freshId);
    var dog := (x: Entry) => IsDogOn(x, other);
    match FindCell(l, employeeId, date)
    case Some(i) =>
      UpsertReplacesFirst(l, e, i);
      FilterUpdateCount(l, i, e, dog);
    case None =>
      FilterAppend(l, e, dog);
  }

  // ---------------------------------------------------------- the cycle

  /** Clicking an existing cell rewrites that cell's entry in place with the
      next status and keeps every other entry and the length. */
  lemma ClickExisting(l: seq<Entry>, employeeId: string, date: string, freshId: string, i: nat)
    requires FindCell(l, employeeId, date) == Some(i)
    ensures ClickAndUpsert(l, employeeId, date, freshId)
         == l[i := l[i].(status := NextStatus(l[i].status, OtherDogCount(l, employeeId, date)))]
  {
  }

  /** A click on a cell whose status has been moved to `s` and nothing else
      changed: the result is the original ledger with the cell at the next
      status, counted against the original ledger's other dogs. */
  lemma ClickAt(l0: seq<Entry>, employeeId: string, date: string, freshId: string, i: nat, s: Status)
    requires FindCell(l0, employeeId, date) == Some(i)
    ensures ClickAndUpsert(l0[i := l0[i].(status := s)], employeeId, date, freshId)
         == l0[i := l0[i].(status := NextStatus(s, OtherDogCount(l0, employeeId, date)))]
  {
    var l := l0[i := l0[i].(status := s)];
    FindCellUnique(l, employeeId, date, i);
    OtherDogsUnchanged(l0, employeeId, date, i, l0[i].(status := s));
    ClickExisting(l, employeeId, date, freshId, i);
  }

  /** One click on a cell the ledger does not hold: the new entry is
      appended and is then the cell's first entry. */
  lemma ClickFresh(l: seq<Entry>, employeeId: string, date: string, freshId: string)
    requires !HasCell(l, employeeId, date)
    ensures var e := Entry(freshId, employeeId, date, InitialStatus(DogCount(l, date)), None, None, None, None);
            && ClickAndUpsert(l, employeeId, date, freshId) == l + [e]
            && FindCell(l + [e], employeeId, date) == Some(|l|)
  {
    var e := Entry(freshId, employeeId, date, InitialStatus(DogCount(l, date)), None, None, None, None);
    FindCellUnique(l + [e], employeeId, date, |l|);
  }

  /** With the dog quota open, three clicks on an existing cell bring the
      whole ledger back to where it started, whatever the cell's status. */
  lemma ThreeClicksRestoreLedger(l: seq<Entry>, employeeId: string, date: string,
                                 id1: string, id2: string, id3: string, l1: seq<Entry>, l2: seq<Entry>)
    requires HasCell(l, employeeId, date)
    requires OtherDogCount(l, employeeId, date) < DogQuota
    requires l1 == ClickAndUpsert(l, employeeId, date, id1)
    requires l2 == ClickAndUpsert(l1, employeeId, date, id2)
    ensures ClickAndUpsert(l2, employeeId, date, id3) == l
  {
    var i := FindCell(l, employeeId, date).value;
    var k := OtherDogCount(l, employeeId, date);
    var s0 := l[i].status;
    assert l == l[i := l[i].(status := s0)];
    ClickAt(l, employeeId, date, id1, i, s0);
    ClickAt(l, employeeId, date, id2, i, NextStatus(s0, k));
    ClickAt(l, employeeId, date, id3, i, NextStatus(NextStatus(s0, k), k));
    StatusCycle(s0, k);
  }

  /** A fresh cell on a day with fewer than two dogs: the first click
      appends an entry with a dog, the second makes it absent, the third
      present; the entry keeps the first click's id throughout. */
  lemma FreshCellClicks(l: seq<Entry>, employeeId: string, date: string,
                        id1: string, id2: string, id3: string, l1: seq<Entry>, l2: seq<Entry>)
    requires !HasCell(l, employeeId, date)
    requires DogCount(l, date) < DogQuota
    requires l1 == ClickAndUpsert(l, employeeId, date, id1)
    requires l2 == ClickAndUpsert(l1, employeeId, date, id2)
    ensures l1 == l + [Entry(id1, employeeId, date, PresentWithDog, None, None, None, None)]
    ensures l2 == l + [Entry(id1, employeeId, date, Absent, None, None, None, None)]
    ensures ClickAndUpsert(l2, employeeId, date, id3) == l + [Entry(id1, employeeId, date, Present, None, None, None, None)]
  {
    var e := Entry(id1, employeeId, date, PresentWithDog, None, None, None, None);
    var l0 := l + [e];
    assert l1 == l0 by {
      assert InitialStatus(DogCount(l, date)) == PresentWithDog;
      ClickFresh(l, employeeId, date, id1);
    }
    assert l2 == l + [e.(status := Absent)] by {
      assert l0 == l0[|l| := e.(status := PresentWithDog)];
      ClickAt(l0, employeeId, date, id2, |l|, PresentWithDog);
      assert l0[|l| := e.(status := Absent)] == l + [e.(status := Absent)];
    }
    assert ClickAndUpsert(l2, employeeId, date, id3) == l + [e.(status := Present)] by {
      ClickFresh(l, employeeId, date, id1);
      ClickAt(l0, employeeId, date, id3, |l|, Absent);
      assert l0[|l| := e.(status := Absent)] == l + [e.(status := Absent)];
      assert l0[|l| := e.(status := Present)] == l + [e.(status := Present)];
    }
  }

  /** The status cycle on its own: with the quota open it has period three;
      with the quota full it skips the dog and has period two. */
  lemma StatusCycle(s: Status, otherDogs: nat)
    ensures otherDogs < DogQuota ==> NextStatus(NextStatus(NextStatus(s, otherDogs), otherDogs), otherDogs) == s
    ensures otherDogs >= DogQuota && s != PresentWithDog ==> NextStatus(NextStatus(s, otherDogs), otherDogs) == s
    ensures NextStatus(s, otherDogs) == PresentWithDog ==> s == Present && otherDogs < DogQuota
  {
  }

  // ------------------------------------------------------- through storage

  /** `handleCellClick` as a whole: compute the entry from the calendar's
      snapshot, add it through the storage layer, and reload the snapshot. */
  function HandleCellClick(view: seq<Entry>, s: Storage.Store, employeeId: string, date: string,
                           freshId: string, cutoff: string): (res: (seq<Entry>, Storage.Store))
    ensures res.0 == Clean(Upsert(Clean(Storage.StoredAttendance(s), cutoff), Click(view, employeeId, date, freshId)), cutoff)
    ensures res.1 == s.(attendance := Storage.Holds(res.0))
  {
    CleanShrinksIffStale(Upsert(Clean(Storage.StoredAttendance(s), cutoff), Click(view, employeeId, date, freshId)), cutoff);
    var s1 := Storage.AddAttendanceEntry(s, Click(view, employeeId, date, freshId), cutoff);
    Storage.GetAttendance(s1, cutoff)
  }

  /** When the calendar's snapshot is what the store reads as, a click on a
      date the sweep keeps leaves the snapshot equal to the ledger after the
      click's upsert, and within the dog quota if it was before. */
  lemma HandleCellClickKeepsQuota(view: seq<Entry>, s: Storage.Store, employeeId: string, date: string,
                                  freshId: string, cutoff: string)
    requires view == Storage.GetAttendance(s, cutoff).0
    requires UniqueCells(view)
    requires AtOrAfter(date, cutoff)
    ensures HandleCellClick(view, s, employeeId, date, freshId, cutoff).0 == ClickAndUpsert(view, employeeId, date, freshId)
    ensures DogCount(view, date) <= DogQuota ==>
              DogCount(HandleCellClick(view, s, employeeId, date, freshId, cutoff).0, date) <= DogQuota
  {
    CleanIdempotent(Storage.StoredAttendance(s), cutoff);
    Storage.CleanAfterUpsert(view, Click(view, employeeId, date, freshId), cutoff);
    ClickRespectsDogQuota(view, employeeId, date, freshId);
  }
}
