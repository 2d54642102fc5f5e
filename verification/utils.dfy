/**
 * The status helpers of src/utils.js: the badge colour and the remaining-days
 * text of a pass, and the `YYYY/MM/DD` display of a timestamp. Time is in
 * integer epoch milliseconds and the current instant `now` is a parameter.
 */
module Utils {
  import opened Wrappers
  import opened Calendar
  import Decimal

  /** Milliseconds in a day: 1000 * 60 * 60 * 24. */
  const DayMs: int := 86400000

  /** A JavaScript value as `typeof x === 'number'` sees it (integral numbers only). */
  datatype JsValue = Num(n: int) | NotNumber

  /** The two fields of a student record that the status helpers look at. */
  datatype Reading = Reading(tickets: JsValue, expiresAt: JsValue)

  /** The helpers accept a record (not null/undefined) whose expiresAt and tickets are numbers. */
  predicate WellTyped(s: Option<Reading>) {
    s.Some? && s.value.tickets.Num? && s.value.expiresAt.Num?
  }

  /** Badge classes: Gray = no information, Slate = no tickets, Red = expired, Yellow = under a week left, Green = active. */
  datatype Badge = Gray | Slate | Red | Yellow | Green

  /** The Tailwind class string the component receives for each badge. */
  function BadgeClass(b: Badge): string {
    match b
    case Gray => "bg-gray-400 text-white"
    case Slate => "bg-slate-500 text-white"
    case Red => "bg-red-600 text-white"
    case Yellow => "bg-yellow-500 text-gray-800"
    case Green => "bg-green-500 text-white"
  }

  /**
   * `badgeColor(student)`: the exact division by the day length is done in real
   * arithmetic as in the source; the contract states the integer meaning.
   */
  function BadgeColor(s: Option<Reading>, now: int): (r: Badge)
    ensures r == Gray <==> !WellTyped(s)
    ensures WellTyped(s) ==> (r == Slate <==> s.value.tickets.n <= 0)
    ensures WellTyped(s) ==> (r == Red <==> s.value.tickets.n > 0 && s.value.expiresAt.n < now)
    ensures WellTyped(s) ==>
              (r == Yellow <==> s.value.tickets.n > 0 && now <= s.value.expiresAt.n < now + 7 * DayMs)
    ensures WellTyped(s) ==> (r == Green <==> s.value.tickets.n > 0 && s.value.expiresAt.n >= now + 7 * DayMs)
  {
    if !WellTyped(s) then Gray
    else
      var daysLeft := (s.value.expiresAt.n - now) as real / DayMs as real;
      if s.value.tickets.n <= 0 then Slate
      else if daysLeft < 0.0 then Red
      else if daysLeft < 7.0 then Yellow
      else Green
  }

  /** `Math.ceil(x)`. */
  function Ceil(x: real): int {
    -((-x).Floor)
  }

  /** Integer ceiling of `a / b`: the least integer `q` with `q * b >= a`. */
  function CeilDiv(a: int, b: int): (q: int)
    requires b > 0
    ensures (q - 1) * b < a <= q * b
  {
    -((-a) / b)
  }

  /** `Math.ceil((expiresAt - now) / DayMs)` computed as the source does, over the reals. */
  function DaysRemaining(expiresAt: int, now: int): (d: int)
    ensures d == CeilDiv(expiresAt - now, DayMs)
  {
    var q := Ceil((expiresAt - now) as real / DayMs as real);
    CeilUnique(q, CeilDiv(expiresAt - now, DayMs), expiresAt - now);
    q
  }

  lemma CeilUnique(p: int, q: int, a: int)
    requires (p - 1) as real * DayMs as real < a as real <= p as real * DayMs as real
    requires (q - 1) * DayMs < a <= q * DayMs
    ensures p == q
  {
  }

  const NoInformation: string := "情報なし"
  const UseFinished: string := "利用終了"
  const ExpiredText: string := "期限切れ"
  const UntilToday: string := "本日まで"

  /** 'あと' + d + '日': "d days left". */
  function DaysLeftLabel(d: int): string {
    "あと" + Decimal.IntText(d) + "日"
  }

  /**
   * `daysLeftText(student)`: the text is decided by tickets first, then by the
   * number of days, rounded up, between now and the expiry instant.
   */
  function DaysLeftText(s: Option<Reading>, now: int): (r: string)
    ensures !WellTyped(s) ==> r == NoInformation
    ensures WellTyped(s) && s.value.tickets.n <= 0 ==> r == UseFinished
    ensures WellTyped(s) && s.value.tickets.n > 0 ==>
              var diff := s.value.expiresAt.n - now;
              && (diff <= -DayMs ==> r == ExpiredText)
              && (-DayMs < diff <= 0 ==> r == UntilToday)
              && (diff > 0 ==> r == DaysLeftLabel(CeilDiv(diff, DayMs)) && CeilDiv(diff, DayMs) >= 1)
  {
    if !WellTyped(s) then NoInformation
    else
      var daysRemaining := DaysRemaining(s.value.expiresAt.n, now);
      if s.value.tickets.n <= 0 then UseFinished
      else if daysRemaining < 0 then ExpiredText
      else if daysRemaining == 0 then UntilToday
      else DaysLeftLabel(daysRemaining)
  }

  /** Exhaustion takes priority in both helpers: the slate badge and the 'used up' text go together. */
  lemma ExhaustedAgrees(s: Option<Reading>, now: int)
    requires WellTyped(s)
    ensures BadgeColor(s, now) == Slate <==> DaysLeftText(s, now) == UseFinished
  {
    if s.value.tickets.n > 0 {
      var text := DaysLeftText(s, now);
      var diff := s.value.expiresAt.n - now;
      if diff <= -DayMs {
        assert text[0] == ExpiredText[0];
      } else if diff <= 0 {
        assert text[0] == UntilToday[0];
      } else {
        assert text[0] == 'あ';
      }
      assert UseFinished[0] == '利';
    }
  }

  /**
   * The two helpers round differently: a pass that expired within the last day
   * already has the red badge while its text still reads 'until today'.
   */
  lemma RedBadgeWithTodayText(now: int, tickets: int)
    requires tickets > 0
    ensures var s := Some(Reading(Num(tickets), Num(now - 1)));
            BadgeColor(s, now) == Red && DaysLeftText(s, now) == UntilToday
  {
  }

  /** `formatDate(timestamp)`: '' for a falsy timestamp, otherwise the local date as `YYYY/MM/DD`. */
  function FormatDate(z: Zone, timestamp: int): (r: string)
    requires ZoneOk(z)
    ensures r == "" <==> timestamp == 0
    ensures timestamp != 0 ==> ParseDisplayDate(r) == Some(z.toLocal(timestamp).date)
  {
    if timestamp == 0 then ""
    else
      var date := z.toLocal(timestamp).date;
      var r := Decimal.IntText(date.year) + "/" + Decimal.Pad2(date.month + 1) + "/" + Decimal.Pad2(date.day);
      DisplayDateRoundTrip(date);
      r
  }

  /** Reads a `Y/MM/DD` display string back into a civil date (month field 01..12 becomes 0..11). */
  function ParseDisplayDate(s: string): Option<CivilDate> {
    if |s| < 7 || s[|s| - 3] != '/' || s[|s| - 6] != '/' then None
    else
      match (Decimal.ParseInt(s[..|s| - 6]), Decimal.ParseNat(s[|s| - 5..|s| - 3]), Decimal.ParseNat(s[|s| - 2..]))
      case (Some(y), Some(m), Some(d)) => Some(CivilDate(y, m as int - 1, d))
      case _ => None
  }

  /** The three fields of `y + '/' + mm + '/' + dd`, for two-character `mm` and `dd`, taken apart from the end. */
  lemma DisplayFields(y: string, mm: string, dd: string)
    requires |y| >= 1 && |mm| == 2 && |dd| == 2
    ensures var s := y + "/" + mm + "/" + dd;
            && |s| >= 7 && s[|s| - 3] == '/' && s[|s| - 6] == '/'
            && s[..|s| - 6] == y && s[|s| - 5..|s| - 3] == mm && s[|s| - 2..] == dd
  {
    var s := y + "/" + mm + "/" + dd;
    assert s == y + ("/" + mm + "/" + dd);
  }

  lemma DisplayDateRoundTrip(date: CivilDate)
    requires Valid(date)
    ensures ParseDisplayDate(Decimal.IntText(date.year) + "/" + Decimal.Pad2(date.month + 1) + "/" + Decimal.Pad2(date.day))
            == Some(date)
  {
    var y := Decimal.IntText(date.year);
    var mm := Decimal.Pad2(date.month + 1);
    var dd := Decimal.Pad2(date.day);
    DisplayFields(y, mm, dd);
    Decimal.IntTextRoundTrip(date.year);
    Decimal.Pad2RoundTrip(date.month + 1);
    Decimal.Pad2RoundTrip(date.day);
  }
}
