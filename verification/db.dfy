/**
 * The pass store of src/db.js. The key-value database is an in-memory map from
 * id to record; each operation returns the new map together with the value the
 * JavaScript function resolves to. The clock reading `now`, the local-midnight
 * reading `todayMidnight`, the fresh id and the time zone are parameters.
 */
module Db {
  import opened Wrappers
  import opened Calendar

  /** A pass holder's record as stored under its id. */
  datatype Student = Student(
    id: string,
    name: string,
    tickets: int,
    purchasedAt: int,
    expiresAt: int,
    note: string,
    updatedAt: int)

  type Store = map<string, Student>

  /** Tickets on a new pass. */
  const InitialTickets: int := 4
  /** Validity window of a pass, in calendar months. */
  const ValidityMonths: int := 2

  /** The new store and the value the operation resolves to (None for `null`/`undefined`). */
  datatype Outcome = Outcome(store: Store, result: Option<Student>)

  /** The fields an update supplies; None marks a key absent from the update object. */
  datatype Patch = Patch(
    id: Option<string>,
    name: Option<string>,
    tickets: Option<int>,
    purchasedAt: Option<int>,
    expiresAt: Option<int>,
    note: Option<string>,
    updatedAt: Option<int>)

  /** Every record is stored under its own id. */
  ghost predicate Keyed(store: Store) {
    forall k :: k in store ==> store[k].id == k
  }

  /** Every record's ticket count lies between 0 and the initial 4. */
  ghost predicate TicketsInRange(store: Store) {
    forall k :: k in store ==> 0 <= store[k].tickets <= InitialTickets
  }

  /** Every record expires two calendar months after its purchase instant. */
  ghost predicate ExpiryDerived(z: Zone, store: Store) {
    forall k :: k in store ==> store[k].expiresAt == AddMonthsMs(z, store[k].purchasedAt, ValidityMonths)
  }

  /** `getStudent(id)`: the record, or `undefined` for a missing id. */
  function GetStudent(store: Store, id: string): (r: Option<Student>)
    ensures r.Some? <==> id in store
    ensures r.Some? ==> r.value == store[id]
  {
    if id in store then Some(store[id]) else None
  }

  /**
   * `createPass({name, note})`: a falsy (empty) name gives `null` and stores nothing;
   * a name made only of spaces is accepted here. Otherwise a new record with four
   * tickets, purchased now and expiring two months later, is stored under `id`.
   */
  function CreatePass(z: Zone, store: Store, name: string, note: string, id: string, now: int): (r: Outcome)
    requires id !in store
    ensures name == "" ==> r == Outcome(store, None)
    ensures name != "" ==>
              && r.result.Some?
              && var s := r.result.value;
              && s.id == id && s.name == name && s.note == note
              && s.tickets == InitialTickets
              && s.purchasedAt == now && s.updatedAt == now
              && s.expiresAt == AddMonthsMs(z, now, ValidityMonths)
              && r.store.Keys == store.Keys + {id}
              && r.store[id] == s
              && forall k :: k in store ==> r.store[k] == store[k]
  {
    if name == "" then Outcome(store, None)
    else
      var s := Student(id, name, InitialTickets, now, AddMonthsMs(z, now, ValidityMonths), note, now);
      Outcome(store[id := s], Some(s))
  }

  /** The midnight check of `useTicket`: tickets remain and expiry is not before today's local midnight. */
  predicate Usable(s: Student, todayMidnight: int) {
    s.tickets > 0 && s.expiresAt >= todayMidnight
  }

  /**
   * `useTicket(id)`: `null` for a missing id; the stored record, untouched, when it
   * has no tickets or expired before today's midnight; otherwise one ticket fewer
   * and `updatedAt = now`.
   */
  function UseTicket(store: Store, id: string, now: int, todayMidnight: int): (r: Outcome)
    ensures id !in store ==> r == Outcome(store, None)
    ensures id in store && !Usable(store[id], todayMidnight) ==> r == Outcome(store, Some(store[id]))
    ensures id in store && Usable(store[id], todayMidnight) ==>
              && r.result.Some?
              && var o, s := store[id], r.result.value;
              && s.tickets == o.tickets - 1 && s.updatedAt == now
              && s.id == o.id && s.name == o.name && s.note == o.note
              && s.purchasedAt == o.purchasedAt && s.expiresAt == o.expiresAt
              && r.store.Keys == store.Keys
              && r.store[id] == s
              && forall k :: k in store && k != id ==> r.store[k] == store[k]
  {
    if id !in store then Outcome(store, None)
    else
      var student := store[id];
      if student.tickets <= 0 then Outcome(store, Some(student))
      else if student.expiresAt < todayMidnight then Outcome(store, Some(student))
      else
        var used := student.(tickets := student.tickets - 1, updatedAt := now);
        Outcome(store[id := used], Some(used))
  }

  /** `{...student, ...updatedData}`: every supplied field replaces the stored one. */
  function Overlay(s: Student, p: Patch): Student {
    Student(
      p.id.GetOr(s.id),
      p.name.GetOr(s.name),
      p.tickets.GetOr(s.tickets),
      p.purchasedAt.GetOr(s.purchasedAt),
      p.expiresAt.GetOr(s.expiresAt),
      p.note.GetOr(s.note),
      p.updatedAt.GetOr(s.updatedAt))
  }

  /** The update supplies a truthy (non-zero) purchase instant that differs from the stored one. */
  predicate PurchaseChanged(s: Student, p: Patch) {
    p.purchasedAt.Some? && p.purchasedAt.value != 0 && p.purchasedAt.value != s.purchasedAt
  }

  /**
   * `updateStudent(id, updatedData)`: `null` for a missing id; otherwise the merge of
   * the stored record and the supplied fields, with `updatedAt = now` winning over a
   * supplied one, and the expiry recomputed only when the purchase instant changed.
   */
  function UpdateStudent(z: Zone, store: Store, id: string, p: Patch, now: int): (r: Outcome)
    ensures id !in store ==> r == Outcome(store, None)
    ensures id in store ==>
              && r.result.Some?
              && var o, s := store[id], r.result.value;
              && s.updatedAt == now
              && s.id == p.id.GetOr(o.id) && s.name == p.name.GetOr(o.name) && s.note == p.note.GetOr(o.note)
              && s.tickets == p.tickets.GetOr(o.tickets)
              && s.purchasedAt == p.purchasedAt.GetOr(o.purchasedAt)
              && (PurchaseChanged(o, p) ==> s.expiresAt == AddMonthsMs(z, s.purchasedAt, ValidityMonths))
              && (!PurchaseChanged(o, p) ==> s.expiresAt == p.expiresAt.GetOr(o.expiresAt))
              && r.store.Keys == store.Keys
              && r.store[id] == s
              && forall k :: k in store && k != id ==> r.store[k] == store[k]
  {
    if id !in store then Outcome(store, None)
    else
      var student := store[id];
      var merged := Overlay(student, p).(updatedAt := now);
      var newStudentData :=
        if PurchaseChanged(student, p) then merged.(expiresAt := AddMonthsMs(z, merged.purchasedAt, ValidityMonths))
        else merged;
      Outcome(store[id := newStudentData], Some(newStudentData))
  }

  /** `deleteStudent(id)`: removes the key, reporting success whether or not it was there. */
  function DeleteStudent(store: Store, id: string): (r: (Store, bool))
    ensures r.1
    ensures r.0.Keys == store.Keys - {id}
    ensures forall k :: k in r.0 ==> r.0[k] == store[k]
  {
    (store - {id}, true)
  }

  /** Deleting twice is the same as deleting once. */
  lemma DeleteIdempotent(store: Store, id: string)
    ensures DeleteStudent(DeleteStudent(store, id).0, id) == DeleteStudent(store, id)
  {
    assert (store - {id}) - {id} == store - {id};
  }

  /**
   * `getAllStudents()`: every stored record, each once. The ghost `keys` lists the
   * store key each record was read under: every key exactly once, in step with `all`.
   */
  method GetAllStudents(store: Store) returns (all: seq<Student>, ghost keys: seq<string>)
    ensures |all| == |store| && |keys| == |all|
    ensures forall i, j :: 0 <= i < j < |keys| ==> keys[i] != keys[j]
    ensures forall k :: k in store <==> k in keys
    ensures forall i :: 0 <= i < |keys| ==> keys[i] in store && all[i] == store[keys[i]]
  {
    all, keys := [], [];
    var left := store.Keys;
    while left != {}
      invariant left <= store.Keys
      invariant |all| + |left| == |store| && |keys| == |all|
      invariant forall i, j :: 0 <= i < j < |keys| ==> keys[i] != keys[j]
      invariant forall k :: k in store ==> (k in keys <==> k !in left)
      invariant forall k :: k in keys ==> k in store
      invariant forall i :: 0 <= i < |keys| ==> keys[i] in store && all[i] == store[keys[i]]
      decreases left
    {
      var k :| k in left;
      all, keys := all + [store[k]], keys + [k];
      left := left - {k};
    }
  }

  /** The ids that the records themselves carry. */
  function RecordIds(store: Store): set<string> {
    set k | k in store :: store[k].id
  }

  /**
   * `clearAllStudents()`: deletes, one by one, the id carried by each listed record.
   * In a keyed store nothing remains.
   */
  method ClearAllStudents(store: Store) returns (cleared: Store)
    ensures cleared.Keys == store.Keys - RecordIds(store)
    ensures forall k :: k in cleared ==> cleared[k] == store[k]
    ensures Keyed(store) ==> cleared == map[]
  {
    var students;
    ghost var keys;
    students, keys := GetAllStudents(store);
    cleared := store;
    ghost var removed: set<string> := {};
    var i := 0;
    while i < |students|
      invariant 0 <= i <= |students|
      invariant cleared == store - removed
      invariant forall j :: 0 <= j < i ==> students[j].id in removed
      invariant forall x :: x in removed ==> x in RecordIds(store)
    {
      cleared := cleared - {students[i].id};
      removed := removed + {students[i].id};
      i := i + 1;
    }
    forall x | x in RecordIds(store) ensures x in removed {
      var k :| k in store && store[k].id == x;
      var j :| 0 <= j < |keys| && keys[j] == k;
      assert students[j] == store[k];
    }
    assert removed == RecordIds(store);
    if Keyed(store) {
      assert store.Keys <= RecordIds(store);
    }
  }

  /** The store invariants survive creating a pass. */
  lemma CreatePreservesInvariants(z: Zone, store: Store, name: string, note: string, id: string, now: int)
    requires id !in store
    requires Keyed(store) && TicketsInRange(store) && ExpiryDerived(z, store)
    ensures var r := CreatePass(z, store, name, note, id, now).store;
            Keyed(r) && TicketsInRange(r) && ExpiryDerived(z, r)
  {
  }

  /** Using a ticket keeps the invariants: the count only ever drops by one and never below zero. */
  lemma UseTicketPreservesInvariants(z: Zone, store: Store, id: string, now: int, todayMidnight: int)
    requires Keyed(store) && TicketsInRange(store) && ExpiryDerived(z, store)
    ensures var r := UseTicket(store, id, now, todayMidnight).store;
            && Keyed(r) && TicketsInRange(r) && ExpiryDerived(z, r)
            && forall k :: k in r ==> store[k].tickets - 1 <= r[k].tickets <= store[k].tickets
  {
  }

  /**
   * An update that leaves id, tickets and expiry unsupplied and does not set the
   * purchase instant to 0 keeps the invariants.
   */
  lemma UpdatePreservesInvariants(z: Zone, store: Store, id: string, p: Patch, now: int)
    requires Keyed(store) && TicketsInRange(store) && ExpiryDerived(z, store)
    requires p.id.None? && p.tickets.None? && p.expiresAt.None? && p.purchasedAt != Some(0)
    ensures var r := UpdateStudent(z, store, id, p, now).store;
            Keyed(r) && TicketsInRange(r) && ExpiryDerived(z, r)
  {
  }

  /** A supplied purchase instant of 0 is falsy, so the old expiry stays although the purchase moved. */
  lemma UpdateToZeroKeepsExpiry(z: Zone, store: Store, id: string, now: int)
    requires id in store && store[id].purchasedAt != 0
    ensures var p := Patch(None, None, None, Some(0), None, None, None);
            var s := UpdateStudent(z, store, id, p, now).store[id];
            s.purchasedAt == 0 && s.expiresAt == store[id].expiresAt
  {
  }

  lemma DeletePreservesInvariants(z: Zone, store: Store, id: string)
    requires Keyed(store) && TicketsInRange(store) && ExpiryDerived(z, store)
    ensures var r := DeleteStudent(store, id).0;
            Keyed(r) && TicketsInRange(r) && ExpiryDerived(z, r) && id !in r
  {
  }

  /** `useTicket` applied `k` times in a row with the same clock readings. */
  function UseTimes(store: Store, id: string, k: nat, now: int, todayMidnight: int): Store {
    if k == 0 then store else UseTimes(UseTicket(store, id, now, todayMidnight).store, id, k - 1, now, todayMidnight)
  }

  /** While not expired, `k` uses leave max(tickets - k, 0) tickets and the record under `id`. */
  lemma {:induction false} UseTimesCount(store: Store, id: string, k: nat, now: int, todayMidnight: int)
    requires id in store && store[id].tickets >= 0 && store[id].expiresAt >= todayMidnight
    ensures var r := UseTimes(store, id, k, now, todayMidnight);
            && id in r
            && r[id].tickets == (if store[id].tickets >= k then store[id].tickets - k else 0)
            && r[id].expiresAt == store[id].expiresAt
    decreases k
  {
    if k > 0 {
      var next := UseTicket(store, id, now, todayMidnight).store;
      UseTimesCount(next, id, k - 1, now, todayMidnight);
    }
  }

  /**
   * A fresh pass used four times before its expiry has no tickets left; a fifth
   * use resolves to the record itself and changes nothing.
   */
  lemma FourUsesThenNoOp(z: Zone, store: Store, name: string, id: string, now: int, todayMidnight: int)
    requires id !in store && name != ""
    requires AddMonthsMs(z, now, ValidityMonths) >= todayMidnight
    ensures var created := CreatePass(z, store, name, "", id, now).store;
            var used := UseTimes(created, id, 4, now, todayMidnight);
            && id in used && used[id].tickets == 0
            && UseTicket(used, id, now, todayMidnight) == Outcome(used, Some(used[id]))
  {
    var created := CreatePass(z, store, name, "", id, now).store;
    assert created[id].tickets == InitialTickets;
    UseTimesCount(created, id, 4, now, todayMidnight);
    var used := UseTimes(created, id, 4, now, todayMidnight);
    assert id in used && used[id].tickets == 0;
  }
}
