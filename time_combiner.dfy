/**
 * combinarFechaConHoraActual: keep the calendar day of a submitted date and
 * stamp it with the hour, minute and second of the server's clock.
 */
module TimeCombiner {

  import opened Options
  import opened JsValues

  type Month = m: int | 1 <= m <= 12 witness 1
  type Day = d: int | 1 <= d <= 31 witness 1
  type Hour = h: int | 0 <= h < 24
  type Minute = m: int | 0 <= m < 60
  type Second = s: int | 0 <= s < 60
  type Millis = ms: int | 0 <= ms < 1000

  /** A JavaScript `Date`, seen through its local-time fields, or the invalid date. */
  datatype JsDate =
    | InvalidDate
    | LocalDate(year: int, month: Month, day: Day, hours: Hour, minutes: Minute, seconds: Second, millis: Millis)

  /** The time-of-day fields of `new Date()` at the moment of the call. */
  datatype Clock = Clock(hours: Hour, minutes: Minute, seconds: Second)

  /**
   * What ends up in a time column: the empty string, the text that
   * `toLocaleString` prints for a valid date (its fields, without milliseconds),
   * or the text it prints for an invalid one.
   */
  datatype Stamp =
    | Blank
    | Shown(year: int, month: Month, day: Day, hour: Hour, minute: Minute, second: Second)
    | InvalidDateText

  /** `Date.prototype.setHours` with an in-range hour: an invalid date stays invalid. */
  function SetHours(d: JsDate, h: Hour): JsDate
  {
    if d.InvalidDate? then d else d.(hours := h)
  }

  function SetMinutes(d: JsDate, m: Minute): JsDate
  {
    if d.InvalidDate? then d else d.(minutes := m)
  }

  function SetSeconds(d: JsDate, s: Second): JsDate
  {
    if d.InvalidDate? then d else d.(seconds := s)
  }

  /** `toLocaleString` with fixed-width year, month, day, hour, minute and second. */
  function ToLocaleString(d: JsDate): Stamp
  {
    match d
    case InvalidDate => InvalidDateText
    case LocalDate(y, mo, da, h, mi, s, _) => Shown(y, mo, da, h, mi, s)
  }

  /**
   * A falsy input gives the empty sentinel. Otherwise the parsed date keeps its
   * year, month and day and takes hour, minute and second from `now`.
   * `parse` stands for `new Date(fecha)`: `None` when the constructor throws
   * (say, for an object whose `valueOf` and `toString` cannot produce a
   * primitive), and then the combiner throws too, which is `None` here.
   */
  function Combine(fecha: JsValue, parse: JsValue -> Option<JsDate>, now: Clock): (r: Option<Stamp>)
    ensures Falsy(fecha) ==> r == Some(Blank)
    ensures r.Some? && r.value.Blank? ==> Falsy(fecha)
    ensures r.None? <==> !Falsy(fecha) && parse(fecha).None?
    ensures !Falsy(fecha) && parse(fecha) == Some(InvalidDate) ==> r == Some(InvalidDateText)
    ensures !Falsy(fecha) && parse(fecha).Some? && parse(fecha).value.LocalDate? ==>
              var d := parse(fecha).value;
              && r.Some? && r.value.Shown?
              && r.value.hour == now.hours && r.value.minute == now.minutes && r.value.second == now.seconds
              && r.value.year == d.year && r.value.month == d.month && r.value.day == d.day
  {
    if Falsy(fecha) then Some(Blank)
    else
      match parse(fecha)
      case None => None
      case Some(fechaObj) =>
        Some(ToLocaleString(SetSeconds(SetMinutes(SetHours(fechaObj, now.hours), now.minutes), now.seconds)))
  }
}
