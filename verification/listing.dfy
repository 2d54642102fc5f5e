/**
 * The listing order of src/App.jsx: the comparator `loadStudents` passes to
 * `Array#sort`. The whole-day count `daysLeft` that App.jsx imports is not
 * defined in src/utils.js, so it is a parameter, and so is the locale-aware
 * name order `localeCompare`.
 */
module Listing {
  import opened Db

  /** Sign of a comparator result: -1, 0 or 1. */
  function Sign(x: int): int {
    if x < 0 then -1 else if x > 0 then 1 else 0
  }

  /** Has tickets and has not run out of days: such records head the list. */
  predicate Active(daysLeft: int -> int, s: Student) {
    s.tickets > 0 && daysLeft(s.expiresAt) >= 0
  }

  /** Inactive because no tickets are left. */
  predicate Exhausted(s: Student) {
    s.tickets == 0
  }

  /** Inactive although tickets are left: the days have run out. */
  predicate TimeExpired(daysLeft: int -> int, s: Student) {
    s.tickets > 0 && daysLeft(s.expiresAt) < 0
  }

  /** The comparator of `data.sort((a, b) => …)`, returning the same numbers as the source. */
  function Compare(daysLeft: int -> int, nameCmp: (string, string) -> int, a: Student, b: Student): (r: int)
    ensures Active(daysLeft, a) && !Active(daysLeft, b) ==> r < 0
    ensures !Active(daysLeft, a) && Active(daysLeft, b) ==> r > 0
    ensures Active(daysLeft, a) && Active(daysLeft, b) ==>
              if daysLeft(a.expiresAt) != daysLeft(b.expiresAt)
              then (r < 0 <==> daysLeft(a.expiresAt) < daysLeft(b.expiresAt)) && r != 0
              else r == nameCmp(a.name, b.name)
    ensures Exhausted(a) && Exhausted(b) ==>
              if a.purchasedAt != b.purchasedAt
              then (r < 0 <==> a.purchasedAt > b.purchasedAt) && r != 0
              else r == nameCmp(a.name, b.name)
    ensures Exhausted(a) && TimeExpired(daysLeft, b) ==> r < 0
    ensures TimeExpired(daysLeft, a) && Exhausted(b) ==> r > 0
    ensures TimeExpired(daysLeft, a) && TimeExpired(daysLeft, b) ==>
              if a.expiresAt != b.expiresAt
              then (r < 0 <==> a.expiresAt > b.expiresAt) && r != 0
              else r == nameCmp(a.name, b.name)
  {
    var aDaysLeft := daysLeft(a.expiresAt);
    var bDaysLeft := daysLeft(b.expiresAt);
    var aActive := a.tickets > 0 && aDaysLeft >= 0;
    var bActive := b.tickets > 0 && bDaysLeft >= 0;
    if aActive && !bActive then -1
    else if !aActive && bActive then 1
    else if aActive && bActive then
      if aDaysLeft != bDaysLeft then aDaysLeft - bDaysLeft else nameCmp(a.name, b.name)
    else if a.tickets == 0 && b.tickets == 0 then
      if a.purchasedAt != b.purchasedAt then b.purchasedAt - a.purchasedAt else nameCmp(a.name, b.name)
    else if aDaysLeft < 0 && b.tickets == 0 then 1
    else if bDaysLeft < 0 && a.tickets == 0 then -1
    else if aDaysLeft < 0 && bDaysLeft < 0 then
      if a.expiresAt != b.expiresAt then b.expiresAt - a.expiresAt else nameCmp(a.name, b.name)
    else nameCmp(a.name, b.name)
  }

  /** Reference order, first part: active, then exhausted, then time-expired. */
  function Group(daysLeft: int -> int, s: Student): int {
    if Active(daysLeft, s) then 0 else if s.tickets == 0 then 1 else 2
  }

  /** Reference order, second part: fewest days left, newest purchase, latest expiry. */
  function Key(daysLeft: int -> int, s: Student): int {
    if Active(daysLeft, s) then daysLeft(s.expiresAt)
    else if s.tickets == 0 then -s.purchasedAt
    else -s.expiresAt
  }

  /** Lexicographic comparison on (group, key, name): the order the comparator is meant to implement. */
  function RankSign(daysLeft: int -> int, nameCmp: (string, string) -> int, a: Student, b: Student): int {
    var ga, gb := Group(daysLeft, a), Group(daysLeft, b);
    var ka, kb := Key(daysLeft, a), Key(daysLeft, b);
    if ga != gb then Sign(ga - gb)
    else if ka != kb then Sign(ka - kb)
    else Sign(nameCmp(a.name, b.name))
  }

  /** With no negative ticket counts, the comparator agrees in sign with the lexicographic reference order. */
  lemma CompareIsLexicographic(daysLeft: int -> int, nameCmp: (string, string) -> int, a: Student, b: Student)
    requires a.tickets >= 0 && b.tickets >= 0
    ensures Sign(Compare(daysLeft, nameCmp, a, b)) == RankSign(daysLeft, nameCmp, a, b)
  {
  }

  /** Swapping the arguments flips the sign, as `Array#sort` requires, given an antisymmetric name order. */
  lemma CompareAntisymmetric(daysLeft: int -> int, nameCmp: (string, string) -> int, a: Student, b: Student)
    requires Sign(nameCmp(a.name, b.name)) == -Sign(nameCmp(b.name, a.name))
    ensures Sign(Compare(daysLeft, nameCmp, a, b)) == -Sign(Compare(daysLeft, nameCmp, b, a))
  {
  }

  /** "Sorts no later than" is transitive, given a transitive name order on the three names. */
  lemma CompareTransitive(daysLeft: int -> int, nameCmp: (string, string) -> int, a: Student, b: Student, c: Student)
    requires a.tickets >= 0 && b.tickets >= 0 && c.tickets >= 0
    requires nameCmp(a.name, b.name) <= 0 && nameCmp(b.name, c.name) <= 0 ==> nameCmp(a.name, c.name) <= 0
    requires Compare(daysLeft, nameCmp, a, b) <= 0 && Compare(daysLeft, nameCmp, b, c) <= 0
    ensures Compare(daysLeft, nameCmp, a, c) <= 0
  {
    CompareIsLexicographic(daysLeft, nameCmp, a, b);
    CompareIsLexicographic(daysLeft, nameCmp, b, c);
    CompareIsLexicographic(daysLeft, nameCmp, a, c);
  }

  /**
   * Four passes, one of each kind: the list reads expiring-soon, active, exhausted,
   * then time-expired, so an exhausted pass comes before a time-expired one.
   */
  lemma FourKindsOrder(daysLeft: int -> int, nameCmp: (string, string) -> int,
                       soon: Student, active: Student, exhausted: Student, expired: Student)
    requires soon.tickets > 0 && daysLeft(soon.expiresAt) == 2
    requires active.tickets > 0 && daysLeft(active.expiresAt) == 10
    requires exhausted.tickets == 0
    requires expired.tickets == 1 && daysLeft(expired.expiresAt) == -3
    ensures Compare(daysLeft, nameCmp, soon, active) < 0
    ensures Compare(daysLeft, nameCmp, active, exhausted) < 0
    ensures Compare(daysLeft, nameCmp, exhausted, expired) < 0
  {
  }
}
