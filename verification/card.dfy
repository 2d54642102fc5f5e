/**
 * The event handlers and display predicates of src/components/StudentCard.jsx.
 * A handler's effect is returned as data: the new component state, the callback
 * it invokes (if any) and the alert it shows (if any). `dLeft` is the value of
 * the imported `daysLeft(student.expiresAt)`, which is not defined in src/utils.js.
 */
module Card {
  import opened Wrappers
  import opened Calendar
  import opened Db
  import Decimal
  import JsText

  /** The component's local state: edit mode and the three edit fields. */
  datatype CardState = CardState(editing: bool, editName: string, editNote: string, editPurchasedAt: string)

  /** `onEditStudent(id, updatedData)`. */
  datatype EditCall = EditCall(id: string, data: Patch)

  /** The messages `handleSaveEdit` alerts with. */
  datatype Alert = NameRequired | PurchaseDateRequired

  /** What one handler run produces. */
  datatype Step = Step(state: CardState, editCall: Option<EditCall>, alert: Option<Alert>)

  /** The guard of `handleUseTicket`: tickets left and not past the last day. */
  predicate CanUseTicket(s: Student, dLeft: int) {
    s.tickets > 0 && dLeft >= 0
  }

  /** `handleUseTicket`: the id passed to `onUseTicket`, or None when nothing is called. */
  function HandleUseTicket(s: Student, dLeft: int): (call: Option<string>)
    ensures call.Some? <==> s.tickets > 0 && dLeft >= 0
    ensures call.Some? ==> call.value == s.id
  {
    if CanUseTicket(s, dLeft) then Some(s.id) else None
  }

  /** `isExpiredOrUsed`, which greys out the card. */
  predicate IsExpiredOrUsed(s: Student, dLeft: int) {
    s.tickets <= 0 || dLeft < 0
  }

  /** The `disabled` attribute of the use button. */
  predicate UseButtonDisabled(s: Student, dLeft: int) {
    s.tickets <= 0 || dLeft < 0
  }

  /** The '(本日まで)' marker next to the expiry date. */
  predicate ShowsTodayMarker(s: Student, dLeft: int) {
    dLeft == 0 && s.tickets > 0
  }

  /**
   * The greyed card and the disabled button are exactly the cases where the use
   * handler calls nothing, and the today marker only appears on a usable card.
   */
  lemma UseGuardConsistent(s: Student, dLeft: int)
    ensures UseButtonDisabled(s, dLeft) <==> HandleUseTicket(s, dLeft).None?
    ensures IsExpiredOrUsed(s, dLeft) <==> UseButtonDisabled(s, dLeft)
    ensures ShowsTodayMarker(s, dLeft) ==> HandleUseTicket(s, dLeft) == Some(s.id)
  {
  }

  /** `handleCancelEdit`: leaves edit mode; fields stay, nothing is called. */
  function HandleCancelEdit(st: CardState): (r: Step)
    ensures !r.state.editing
    ensures r.state.editName == st.editName && r.state.editNote == st.editNote
    ensures r.state.editPurchasedAt == st.editPurchasedAt
    ensures r.editCall.None? && r.alert.None?
  {
    Step(st.(editing := false), None, None)
  }

  /**
   * The year of a date string: four digits with leading zeros below 10000, the
   * plain digits from 10000 on.
   */
  function YearText(y: nat): (r: string)
    ensures |r| >= 4 && Decimal.AllDigits(r)
    ensures |r| > 4 ==> r[0] != '0'
  {
    if y < 10000 then Decimal.Pad4(y)
    else
      Decimal.NatTextLong(y);
      Decimal.NatText(y)
  }

  /** The value of an `<input type="date">`: year, 1-based month and day, dash-separated. */
  function DateInputText(d: CivilDate): (r: string)
    requires Valid(d) && d.year >= 1
    ensures |r| >= 10 && r[|r| - 6] == '-' && r[|r| - 3] == '-'
  {
    YearText(d.year) + "-" + Decimal.Pad2(d.month + 1) + "-" + Decimal.Pad2(d.day)
  }

  /**
   * The date a date control's value names, in the text's own calendar: the year
   * before the second-to-last dash (four digits, or more without a leading zero),
   * then a two-digit month and day that make a real date, and a year of at least 1.
   * Any other text gives None.
   */
  function ParseDateInput(s: string): (r: Option<CivilDate>)
    ensures r.Some? ==> Valid(r.value) && r.value.year >= 1 && DateInputText(r.value) == s
  {
    if |s| < 10 || s[|s| - 6] != '-' || s[|s| - 3] != '-' then None
    else
      var yt, mt, dt := s[..|s| - 6], s[|s| - 5..|s| - 3], s[|s| - 2..];
      assert s == yt + "-" + mt + "-" + dt;
      ParseDateFields(yt, mt, dt)
  }

  /** The three fields of a date string read as a date of year 1 or later. */
  function ParseDateFields(yt: string, mt: string, dt: string): (r: Option<CivilDate>)
    requires |yt| >= 4 && |mt| == 2 && |dt| == 2
    ensures r.Some? ==> Valid(r.value) && r.value.year >= 1 && DateInputText(r.value) == yt + "-" + mt + "-" + dt
  {
    if |yt| > 4 && yt[0] == '0' then None
    else
      match (Decimal.ParseNat(yt), Decimal.ParseNat(mt), Decimal.ParseNat(dt))
      case (Some(y), Some(m), Some(d)) =>
        var date := CivilDate(y, m as int - 1, d);
        if y >= 1 && Valid(date) then
          DateFieldsPrint(yt, mt, dt);
          Some(date)
        else None
      case _ => None
  }

  /** Well-formed year, month and day fields print back as themselves. */
  lemma DateFieldsPrint(yt: string, mt: string, dt: string)
    requires |yt| >= 4 && Decimal.AllDigits(yt) && (|yt| == 4 || yt[0] != '0')
    requires |mt| == 2 && Decimal.AllDigits(mt) && |dt| == 2 && Decimal.AllDigits(dt)
    ensures YearText(Decimal.DigitsValue(yt)) == yt
    ensures Decimal.Pad2(Decimal.DigitsValue(mt)) == mt && Decimal.Pad2(Decimal.DigitsValue(dt)) == dt
  {
    Decimal.Pad2OfValue(mt);
    Decimal.Pad2OfValue(dt);
    var y := Decimal.DigitsValue(yt);
    if |yt| == 4 {
      Decimal.Pad4OfValue(yt);
    } else {
      Decimal.NatTextOfValue(yt);
      if y < 10000 {
        assert Decimal.Pow10(4) == 10000 by {
          assert Decimal.Pow10(2) == 100;
        }
        Decimal.NatTextShort(y, 4);
      }
    }
  }

  /** Where the three fields of a date string sit. */
  lemma DateTextFields(y: string, mm: string, dd: string)
    requires |y| >= 4 && |mm| == 2 && |dd| == 2
    ensures var s := y + "-" + mm + "-" + dd;
            && s[..|s| - 6] == y && s[|s| - 5..|s| - 3] == mm && s[|s| - 2..] == dd
            && s[|s| - 6] == '-' && s[|s| - 3] == '-'
  {
  }

  /** The fields of a printed date read back as that date. */
  lemma DateFieldsRoundTrip(d: CivilDate)
    requires Valid(d) && d.year >= 1
    ensures ParseDateFields(YearText(d.year), Decimal.Pad2(d.month + 1), Decimal.Pad2(d.day)) == Some(d)
  {
    if d.year < 10000 {
      Decimal.Pad4RoundTrip(d.year);
    } else {
      Decimal.NatTextValue(d.year);
    }
    Decimal.Pad2RoundTrip(d.month + 1);
    Decimal.Pad2RoundTrip(d.day);
  }

  /** A date shown in the date control reads back as the same date. */
  lemma DateInputRoundTrip(d: CivilDate)
    requires Valid(d) && d.year >= 1
    ensures ParseDateInput(DateInputText(d)) == Some(d)
  {
    var y, mm, dd := YearText(d.year), Decimal.Pad2(d.month + 1), Decimal.Pad2(d.day);
    var s := DateInputText(d);
    assert s == y + "-" + mm + "-" + dd;
    DateTextFields(y, mm, dd);
    assert ParseDateInput(s) == ParseDateFields(s[..|s| - 6], s[|s| - 5..|s| - 3], s[|s| - 2..]);
    DateFieldsRoundTrip(d);
  }

  /** What the date control can hold: nothing, or a real calendar date of year 1 or later. */
  predicate DateFieldOk(s: string) {
    s == "" || ParseDateInput(s).Some?
  }

  /**
   * `handleSaveEdit`: a name that trims to nothing, or an empty purchase date,
   * alerts and stays in edit mode; otherwise `onEditStudent` receives the trimmed
   * name and note and the local midnight of `new Date(year, month - 1, day)` for the
   * chosen date, and edit mode ends. The constructor reads a year 1..99 as 1901..1999.
   */
  function HandleSaveEdit(z: Zone, s: Student, st: CardState): (r: Step)
    requires DateFieldOk(st.editPurchasedAt)
    ensures JsText.AllWhite(st.editName) ==> r == Step(st, None, Some(NameRequired))
    ensures !JsText.AllWhite(st.editName) && st.editPurchasedAt == "" ==>
              r == Step(st, None, Some(PurchaseDateRequired))
    ensures !JsText.AllWhite(st.editName) && st.editPurchasedAt != "" ==>
              && r.alert.None? && r.state == st.(editing := false)
              && r.editCall.Some? && r.editCall.value.id == s.id
              && var p := r.editCall.value.data;
              && p.name == Some(JsText.Trim(st.editName)) && p.note == Some(JsText.Trim(st.editNote))
              && var t := ParseDateInput(st.editPurchasedAt).value;
              && p.purchasedAt == Some(z.fromLocal(LocalTime(CivilDate(JsYear(t.year), t.month, t.day), 0)))
              && p.id.None? && p.tickets.None? && p.expiresAt.None? && p.updatedAt.None?
  {
    JsText.TrimEmptyIff(st.editName);
    if JsText.Trim(st.editName) == "" then Step(st, None, Some(NameRequired))
    else if st.editPurchasedAt == "" then Step(st, None, Some(PurchaseDateRequired))
    else
      var parts := ParseDateInput(st.editPurchasedAt).value;
      ConstructValidDate(parts);
      var localDate := ConstructDate(parts.year, parts.month, parts.day);
      var updatedData := Patch(
        id := None,
        name := Some(JsText.Trim(st.editName)),
        tickets := None,
        purchasedAt := Some(z.fromLocal(LocalTime(localDate, 0))),
        expiresAt := None,
        note := Some(JsText.Trim(st.editNote)),
        updatedAt := None);
      Step(st.(editing := false), Some(EditCall(s.id, updatedData)), None)
  }

  /** The text '0024-05-01' names May 1st of year 24 in its own calendar. */
  lemma ParseTwoDigitYear()
    ensures ParseDateInput("0024-05-01") == Some(CivilDate(24, 4, 1))
  {
    var d := CivilDate(24, 4, 1);
    assert Decimal.NatText(24) == "24";
    assert Decimal.Pad2(24) == "24" && Decimal.Pad2(0) == "00";
    assert YearText(24) == "0024";
    assert Decimal.Pad2(5) == "05" && Decimal.Pad2(1) == "01";
    assert DateInputText(d) == "0024-05-01";
    DateInputRoundTrip(d);
  }

  /** Saving the date field '0024-05-01' sends the local midnight of May 1st 1924. */
  lemma SaveTwoDigitYear(z: Zone, s: Student, st: CardState)
    requires st.editPurchasedAt == "0024-05-01" && !JsText.AllWhite(st.editName)
    ensures ParseDateInput(st.editPurchasedAt).Some?
    ensures HandleSaveEdit(z, s, st).editCall.Some?
    ensures HandleSaveEdit(z, s, st).editCall.value.data.purchasedAt
              == Some(z.fromLocal(LocalTime(CivilDate(1924, 4, 1), 0)))
  {
    ParseTwoDigitYear();
  }

  /**
   * An edit saved from the card keeps the store's invariants when applied by
   * `updateStudent`, provided the chosen local midnight is not the instant 0.
   */
  lemma SavedEditKeepsInvariants(z: Zone, store: Store, s: Student, st: CardState, now: int)
    requires ParseDateInput(st.editPurchasedAt).Some? && !JsText.AllWhite(st.editName)
    requires var t := ParseDateInput(st.editPurchasedAt).value;
             z.fromLocal(LocalTime(CivilDate(JsYear(t.year), t.month, t.day), 0)) != 0
    requires Keyed(store) && TicketsInRange(store) && ExpiryDerived(z, store)
    ensures var call := HandleSaveEdit(z, s, st).editCall.value;
            var r := UpdateStudent(z, store, call.id, call.data, now).store;
            Keyed(r) && TicketsInRange(r) && ExpiryDerived(z, r)
  {
    var call := HandleSaveEdit(z, s, st).editCall.value;
    UpdatePreservesInvariants(z, store, call.id, call.data, now);
  }
}
