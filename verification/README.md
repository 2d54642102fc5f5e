# Ticket pass tracker — Dafny model

This project models the core of a browser-only tracker for "4 uses, valid for
2 months" passes (回数券トラッカー). Each pass holder (a "student") has a record
with a ticket count, a purchase instant and an expiry instant two calendar
months later. The model covers:

- the date and status helpers of `src/utils.js`: calendar-month addition with
  end-of-month clamping, the badge colour, the remaining-days text, and the
  `YYYY/MM/DD` display;
- the pass store of `src/db.js`, as pure transitions on a map from id to record:
  create, use one ticket, merge-update, delete, clear all, and the two reads;
- the listing comparator of `src/App.jsx`;
- the handlers of `src/components/StudentCard.jsx` (use-ticket guard, save and
  cancel of an edit, the greyed/disabled/today-marker predicates) and of
  `src/components/StudentForm.jsx` (submit).

Time is integer epoch milliseconds. The current instant `now`, the local
midnight of today, the fresh record id, the host time zone (a `Zone` value: two
functions between milliseconds and local wall-clock time), the whole-day count
`daysLeft` and the locale-aware name order are parameters. `daysLeft` is
imported by `src/App.jsx` and `src/components/StudentCard.jsx` from
`src/utils.js`, which does not define it, so it stays an uninterpreted
`int -> int` function and is not identified with the store's midnight check or
with the ceiling in `daysLeftText`.

Files, one module each: `wrappers.dfy` (Option), `decimal.dfy` (integer text and
digit parsing), `jstext.dfy` (`String#trim`), `calendar.dfy` (civil dates,
`addMonths`), `utils.dfy`, `db.dfy`, `listing.dfy`, `card.dfy`, `form.dfy`.

## Behaviour worth knowing

- `createPass` checks only `!name` (src/db.js:50), so only the empty name is rejected. A name of spaces is stored. The form trims only to validate (src/components/StudentForm.jsx:11) and passes the untrimmed name on (line 16).
- The comment at src/db.js:124 says the expiry is recalculated when `purchasedAt` changes. The test on line 125 is truthiness, so a supplied `0` moves the purchase to the epoch and keeps the old expiry (`Db.UpdateToZeroKeepsExpiry`). A card edit in a UTC host that picks 1970-01-01 produces exactly that `0`.
- The comments at src/App.jsx:18 and 28 speak of sorting by expiration, but two inactive passes of different kinds are ordered by kind: exhausted passes (no tickets) come before time-expired passes that still have tickets (lines 36-38, `Listing.FourKindsOrder`).
- `badgeColor` divides exactly (src/utils.js:35) while `daysLeftText` rounds up (line 60). A pass that expired less than a day ago therefore shows a red badge with the text 本日まで, "until today" (`Utils.RedBadgeWithTodayText`).
- `new Date(parts[0], parts[1] - 1, parts[2])` (src/components/StudentCard.jsx:50) reads a year 0..99 as 1900..1999, so saving the date '0024-05-01' stores May 1st 1924 (`Card.SaveTwoDigitYear`). The same constructor gives the month length at src/utils.js:18, so February of year 0 counts 28 days there (`Calendar.YearZeroFebruary`).

## Model

| member | source | states |
|---|---|---|
| Calendar.AddMonths | src/utils.js:9-22 | the result month is (month + n) mod 12 with the year carried (month index grows by exactly n); the day is min(original day, length of the target month as the Date constructor reports it); a real date maps to a real date |
| Calendar.DaysInMonthJs | src/utils.js:18 | the last day of a month as `new Date(year, month + 1, 0)` reports it: at least 28 and never more than the calendar month has |
| Calendar.DaysInMonthJsDiffers | src/utils.js:18 | that length equals the Gregorian length in every month except February of year 0, which the constructor reads as 1900 |
| Calendar.ConstructDate | src/components/StudentCard.jsx:50 | `new Date(y, m, d)` with a month 0..11 and day 1..31 is a real date in year JsYear(y) (0..99 become 1900..1999); a day that exists is kept, a day past the month's end carries into the next month |
| Calendar.ConstructValidDate | src/components/StudentCard.jsx:50 | a real date of a year other than 0 keeps its month and day through the constructor, and keeps its year too from year 100 on |
| Calendar.ConstructTwoDigitYears | src/components/StudentCard.jsx:50 | year 24 becomes 1924, and February 29th of year 0 becomes March 1st 1900 |
| Calendar.AddMonthsZero | src/utils.js:13-19 | adding 0 months returns the same calendar date, except exactly for February 29th of year 0, which is clamped to the 28th |
| Calendar.AddMonthsLater | src/utils.js:14-15 | adding n >= 1 months lands in a strictly later month and on a strictly later date |
| Calendar.AddMonthsKeepsDay | src/utils.js:19 | a day of month up to 28 always survives the month shift |
| Calendar.JanuaryEndPlusOne | src/utils.js:11-19 | January 31 plus one month is February 28, or 29 when the constructor's reading of the year is a leap year, never a day of March |
| Calendar.MarchEndPlusOne | src/utils.js:11-19 | March 31 plus one month is April 30 |
| Calendar.DecemberPlusTwo | src/utils.js:15-18 | December 31 plus two months is the end of February of the next year |
| Calendar.YearZeroFebruary | src/utils.js:18 | year 0 is a leap year, yet January 29th, 30th or 31st of year 0 plus one month is February 28th |
| Calendar.AddMonthsNotComposable | src/utils.js:19 | clamping loses the day: two one-month steps from January 31 end on March 28, one two-month step ends on March 31 |
| Decimal.IntTextRoundTrip | src/utils.js:85 | the decimal text of a year parses back to the same integer |
| Decimal.Pad2RoundTrip | src/utils.js:83-84 | a zero-padded month or day is two digits and parses back to its number |
| JsText.Trim | src/components/StudentForm.jsx:11 | trimming yields a contiguous infix whose two ends are not white space, with only white space cut away on either side |
| JsText.TrimEmptyIff | src/components/StudentCard.jsx:38 | a string trims to '' exactly when every character is ECMAScript white space or a line terminator |
| JsText.TrimIdempotent | src/components/StudentCard.jsx:43-44 | trimming a trimmed name or note changes nothing |
| Utils.BadgeColor | src/utils.js:29-47 | gray exactly for a missing record or non-numeric expiresAt/tickets; otherwise slate iff tickets <= 0, red iff tickets > 0 and expiry is before now, yellow iff tickets > 0 and expiry is less than 7 days ahead, green iff tickets > 0 and at least 7 days are left |
| Utils.DaysRemaining | src/utils.js:60 | the ceiling of (expiresAt - now) / 86 400 000 is the least whole number of days d with d days reaching the expiry |
| Utils.DaysLeftText | src/utils.js:54-72 | '情報なし' on malformed input; '利用終了' whenever tickets <= 0; with tickets left, '期限切れ' once a full day has passed since expiry, '本日まで' from the expiry instant until a full day after it, otherwise (expiry still ahead) 'あと' + rounded-up days + '日' with at least 1 day |
| Utils.ExhaustedAgrees | src/utils.js:37-38 | the slate badge and the '利用終了' text occur for exactly the same records |
| Utils.RedBadgeWithTodayText | src/utils.js:40-41 | a pass that expired one millisecond ago has the red badge while its text still says '本日まで' |
| Utils.FormatDate | src/utils.js:79-86 | '' exactly for the falsy timestamp 0; otherwise a 'Y/MM/DD' string that reads back as the local civil date of the timestamp |
| Utils.DisplayDateRoundTrip | src/utils.js:82-85 | the year, two-digit month (01-12) and two-digit day of a real date read back as that date |
| Db.GetStudent | src/db.js:33-40 | a record is returned exactly when the id is stored, and it is the stored one; a missing id is not an error |
| Db.GetAllStudents | src/db.js:16-26 | one entry per stored key: a list of keys holding each stored key exactly once, in step with the records, and every record is the one stored under its key |
| Db.CreatePass | src/db.js:49-71 | an empty name yields null with the store unchanged; any other name (even all spaces) adds exactly one record under the fresh id with 4 tickets, purchase and update instant now, expiry two calendar months later, and leaves every other entry untouched |
| Db.UseTicket | src/db.js:79-108 | a missing id yields null and no change; no tickets or expiry before today's midnight yields the stored record and no change (so a pass is still usable on its expiry day); otherwise exactly one ticket less and updatedAt = now, with nothing else changed |
| Db.UpdateStudent | src/db.js:116-135 | a missing id yields null; otherwise the record under the same key is the old one overlaid with the supplied fields, updatedAt = now regardless of what was supplied, and the expiry is recomputed from the purchase instant only when a non-zero purchase instant different from the stored one was supplied |
| Db.DeleteStudent | src/db.js:142-150 | the key is gone afterwards and the result is true whether or not it existed; the rest of the store is unchanged |
| Db.DeleteIdempotent | src/db.js:142-146 | deleting the same id twice equals deleting it once |
| Db.ClearAllStudents | src/db.js:156-170 | exactly the ids carried by the listed records are removed; in a store where each record sits under its own id nothing remains |
| Db.CreatePreservesInvariants | src/db.js:54-66 | creating a pass keeps every record under its own id, tickets within 0..4 and expiry two months after purchase |
| Db.UseTicketPreservesInvariants | src/db.js:87-103 | using a ticket keeps those invariants, and each count stays or drops by exactly one, never below zero |
| Db.UpdatePreservesInvariants | src/db.js:123-127 | an update that supplies no id, tickets or expiry, and no purchase instant 0, keeps those invariants |
| Db.UpdateToZeroKeepsExpiry | src/db.js:125 | a supplied purchase instant 0 is stored while the old expiry is kept |
| Db.DeletePreservesInvariants | src/db.js:142-146 | deleting keeps those invariants and removes the id |
| Db.UseTimesCount | src/db.js:94-103 | k uses of an unexpired pass leave max(tickets - k, 0) tickets and the expiry unchanged |
| Db.FourUsesThenNoOp | src/db.js:54-103 | a fresh pass used four times before expiry has 0 tickets, and a fifth use returns the record and changes nothing |
| Listing.Compare | src/App.jsx:19-46 | an active record (tickets > 0 and daysLeft >= 0) sorts before an inactive one; active ones by fewer days left, exhausted ones by newer purchase, time-expired ones by later expiry, then by name; exhausted sorts before time-expired |
| Listing.CompareIsLexicographic | src/App.jsx:22-45 | for non-negative ticket counts the comparator's sign is the lexicographic order on (active / exhausted / expired, per-group key, name) |
| Listing.CompareAntisymmetric | src/App.jsx:19-46 | swapping the arguments flips the sign of the result, given an antisymmetric name order |
| Listing.CompareTransitive | src/App.jsx:19-46 | for non-negative ticket counts "sorts no later than" is transitive, given a transitive name order |
| Listing.FourKindsOrder | src/App.jsx:25-41 | an expiring-soon, an active, an exhausted and a time-expired pass are listed in that order |
| Card.HandleUseTicket | src/components/StudentCard.jsx:14-18 | onUseTicket(student.id) is called iff tickets > 0 and daysLeft >= 0 |
| Card.UseGuardConsistent | src/components/StudentCard.jsx:69-159 | the card is greyed (line 69) and the use button disabled (line 159) exactly when the use handler calls nothing, and the '(本日まで)' marker (line 145) shows only on a usable card |
| Card.HandleCancelEdit | src/components/StudentCard.jsx:33-35 | edit mode ends, the edit fields stay, and no callback or alert happens |
| Card.ParseDateInput | src/components/StudentCard.jsx:49-51 | a date value (a year of four digits, or more without a leading zero, then two-digit month and day) is read as year, month MM - 1 and day; only a real date of year 1 or later is accepted, and what is accepted prints back as the very same text |
| Card.DateInputRoundTrip | src/components/StudentCard.jsx:49-51 | any real date of year 1 or later, written as a date value, reads back as that date |
| Card.ParseTwoDigitYear | src/components/StudentCard.jsx:49-50 | the value '0024-05-01' is read as May 1st of year 24 |
| Card.SaveTwoDigitYear | src/components/StudentCard.jsx:49-51 | saving the value '0024-05-01' sends the local midnight of May 1st 1924 |
| Card.HandleSaveEdit | src/components/StudentCard.jsx:37-64 | an all-white-space name, or an empty date, alerts, calls nothing and stays in edit mode; otherwise exactly one onEditStudent(id, payload) call and edit mode ends, the payload holding only the trimmed name, the trimmed note and the local midnight of the chosen date with a year 1..99 read as 1901..1999 |
| Card.SavedEditKeepsInvariants | src/components/StudentCard.jsx:42-51 | a payload saved by the card, applied by updateStudent, keeps the store invariants whenever its purchase instant is not 0 |
| Form.HandleSubmit | src/components/StudentForm.jsx:9-19 | an all-white-space name sets the error and keeps name, note and no call; otherwise the untrimmed name and note go to onAddStudent exactly once and both fields reset to '' |
| Form.NoteNeverRejects | src/components/StudentForm.jsx:11 | whether a submission goes through never depends on the note |
| Form.SubmitThenCreate | src/components/StudentForm.jsx:16 | a name the form accepts always passes createPass, so the store gains a record with the name and note as typed and 4 tickets |

## Left out

- Storage I/O: the idb-keyval calls, async/await and the catch paths for storage failure (src/db.js:2, 17-25, 34-39, 64-70, 104-107). The store is an in-memory map that never fails.
- Id generation by `uuidv4` (src/db.js:3, 56). The fresh id is a parameter, required to be absent from the store.
- The clock (`Date.now()`, `new Date()`). `now` and today's local midnight are parameters.
- The conversion between milliseconds and local civil time, including daylight saving. It is the `Zone` parameter.
- The `toISOString` (UTC) prefill of the edit date field (src/components/StudentCard.jsx:11, 29). It does not round-trip with the local-time parse of lines 49-51 outside UTC, and no round trip is claimed. `handleEdit` (lines 26-31) is left out with it.
- `daysLeft`: it is not defined in the files of this model, so it is a parameter.
- `localeCompare`: it is a parameter `(string, string) -> int`. Antisymmetry and transitivity of the listing order are stated under hypotheses about it.
- Concurrent `useTicket` calls: the code does not serialise its read-modify-write. Only sequential calls are modelled.
- JSX markup, CSS class strings (the badge is an enumeration with its class strings), `window.confirm` in `handleDelete`, `alert` (an `Alert` value), React hooks, and the App-level reload and error handlers (src/App.jsx:56-96).
- Build and service-worker configuration, and console logging.
- Card.HandleSaveEdit: the date field must be empty or a real date of year 1 or later written as browsers write a date value: four year digits (0001 to 9999), or five or more without a leading zero (10000 on), then '-MM-DD'. Other spellings of a date, and malformed text, which JavaScript would turn into NaN, are not modelled. Years past the JavaScript time range (beyond 275760) are accepted like any other year.
- Utils.BadgeColor: numbers are integers. NaN and fractional values are not modelled.
- Utils.DaysLeftText: numbers are integers. NaN and fractional values are not modelled.
- Calendar.AddMonths: the JavaScript date range limit of ±8.64e15 ms is not modelled.
- Db.GetAllStudents: `entries()` (src/db.js:18) lists records in IndexedDB key order, and the stable `data.sort` (src/App.jsx:19) keeps that order among records the comparator ties. The model leaves the order of the list unspecified.
- Strings are sequences of Unicode scalar values. JavaScript strings are sequences of UTF-16 code units and can hold lone surrogates; such strings are not modelled.
