/**
 * Time slots ("permanencias"): a calendar day together with either an
 * on-the-hour time (PermanenciaPorHora) or a half-day segment
 * (PermanenciaPorTramo). The two copies of the abstract base class
 * Permanencia (the legacy one in `dominio` and the newer one in
 * `dominio.permanencia`) are merged into the single `day` field of `Slot`.
 */
module Slots {
  import opened Outcomes

  /** A calendar day (java.time.LocalDate); two days are equal when year, month and day are. */
  datatype Date = Date(year: int, month: int, day: int)

  /** A time of day (java.time.LocalTime), down to the nanosecond. */
  datatype Time = Time(hour: int, minute: int, second: int, nano: int)

  /** The half-day segments of the enumeration Tramo. */
  datatype Segment = Morning | Afternoon

  /** A booked period: an hour of a day, or a segment of a day. Slots of different kinds are never equal. */
  datatype Slot = HourSlot(day: Date, hour: int) | RangeSlot(day: Date, segment: Segment)

  const HourPoints: int := 3
  const SegmentPoints: int := 10
  const FirstHour: int := 8
  const LastHour: int := 22

  /** The two ways a constructor receives the day: a date value, or "dd/MM/uuuu" text. */
  datatype DayArg = DayValue(date: Option<Date>) | DayText(text: Option<string>)

  /** The two ways an hour-slot constructor receives the hour: a time value, or "HH:mm" text. */
  datatype TimeArg = TimeValue(time: Option<Time>) | TimeText(text: Option<string>)

  // ---------------------------------------------------------------- the day

  /** setDia(LocalDate), identical in both base classes: null is refused, any other day is kept as it is. */
  function SetDay(d: Option<Date>): (r: Result<Date>)
    ensures r.Ok? <==> d.Some?
    ensures r.Ok? ==> r.value == d.value
    ensures r.Err? ==> r.error == IllegalArgument
  {
    match d
    case None => Err(IllegalArgument)
    case Some(day) => Ok(day)
  }

  /**
   * setDia(String) of the newer base class. `parse` stands for
   * LocalDate.parse with the pattern dd/MM/uuuu (None when it throws);
   * a parse failure is turned into IllegalArgument.
   */
  function SetDayText(s: Option<string>, parse: string -> Option<Date>): (r: Result<Date>)
    ensures r.Ok? <==> s.Some? && parse(s.value).Some?
    ensures r.Ok? ==> r.value == parse(s.value).value
    ensures r.Err? ==> r.error == IllegalArgument
  {
    match s
    case None => Err(IllegalArgument)
    case Some(text) =>
      match parse(text)
      case None => Err(IllegalArgument)
      case Some(day) => Ok(day)
  }

  /**
   * setDia(String) of the legacy base class: null and the empty string are
   * refused with IllegalArgument, but a parse failure escapes as
   * DateTimeParse.
   */
  function LegacySetDayText(s: Option<string>, parse: string -> Option<Date>): (r: Result<Date>)
    ensures r.Ok? <==> s.Some? && s.value != "" && parse(s.value).Some?
    ensures r.Ok? ==> r.value == parse(s.value).value
    ensures r == Err(IllegalArgument) <==> s.None? || s.value == ""
    ensures r == Err(DateTimeParse) <==> s.Some? && s.value != "" && parse(s.value).None?
  {
    match s
    case None => Err(IllegalArgument)
    case Some(text) =>
      if text == "" then Err(IllegalArgument)
      else match parse(text)
        case None => Err(DateTimeParse)
        case Some(day) => Ok(day)
  }

  /** The two text setters agree on every non-empty string except in the kind of error a parse failure raises. */
  lemma LegacyDayTextAgrees(s: Option<string>, parse: string -> Option<Date>)
    requires s.Some? && s.value != ""
    ensures LegacySetDayText(s, parse).Ok? <==> SetDayText(s, parse).Ok?
    ensures LegacySetDayText(s, parse).Ok? ==> LegacySetDayText(s, parse) == SetDayText(s, parse)
    ensures LegacySetDayText(s, parse).Err? ==>
              LegacySetDayText(s, parse).error == DateTimeParse && SetDayText(s, parse).error == IllegalArgument
  {
  }

  /** The day as the newer constructors receive it. */
  function DayOf(arg: DayArg, parse: string -> Option<Date>): (r: Result<Date>)
    ensures r.Err? ==> r.error == IllegalArgument
    ensures arg.DayValue? ==> r == SetDay(arg.date)
    ensures arg.DayText? ==> r == SetDayText(arg.text, parse)
  {
    match arg
    case DayValue(d) => SetDay(d)
    case DayText(s) => SetDayText(s, parse)
  }

  // --------------------------------------------------------------- the hour

  /** A time that falls exactly on an hour. */
  predicate OnTheHour(t: Time) {
    t.minute == 0 && t.second == 0 && t.nano == 0
  }

  /**
   * setHora(LocalTime) AS WRITTEN: null, an hour outside 8..22 and a
   * non-zero minute are refused, but seconds and nanoseconds are not looked
   * at, and the whole time is stored.
   */
  function SetHourAsWritten(t: Option<Time>): (r: Result<Time>)
    ensures r.Ok? <==> t.Some? && FirstHour <= t.value.hour <= LastHour && t.value.minute == 0
    ensures r.Ok? ==> r.value == t.value
    ensures r.Err? ==> r.error == IllegalArgument
  {
    match t
    case None => Err(IllegalArgument)
    case Some(time) =>
      if time.hour < FirstHour || time.hour > LastHour then Err(IllegalArgument)
      else if time.minute != 0 then Err(IllegalArgument)
      else Ok(time)
  }

  /**
   * The setter as written accepts 09:00:30 as well as 09:00, and stores two
   * different times for the same hour: two hour slots of one day and one
   * hour that PermanenciaPorHora.equals tells apart.
   */
  lemma AsWrittenAcceptsOffTheHour()
    ensures SetHourAsWritten(Some(Time(9, 0, 0, 0))) == Ok(Time(9, 0, 0, 0))
    ensures SetHourAsWritten(Some(Time(9, 0, 30, 0))) == Ok(Time(9, 0, 30, 0))
    ensures Time(9, 0, 0, 0) != Time(9, 0, 30, 0)
  {
  }

  /**
   * setHora(LocalTime) as intended ("the hour must be an exact hour"):
   * null, an hour outside 8..22 and any time not exactly on the hour are
   * refused; what is kept is the hour alone.
   */
  function SetHour(t: Option<Time>): (r: Result<int>)
    ensures r.Ok? <==> t.Some? && FirstHour <= t.value.hour <= LastHour && OnTheHour(t.value)
    ensures r.Ok? ==> FirstHour <= r.value <= LastHour && t.value == Time(r.value, 0, 0, 0)
    ensures r.Err? ==> r.error == IllegalArgument
  {
    match t
    case None => Err(IllegalArgument)
    case Some(time) =>
      if time.hour < FirstHour || time.hour > LastHour then Err(IllegalArgument)
      else if !OnTheHour(time) then Err(IllegalArgument)
      else Ok(time.hour)
  }

  /** The corrected setter accepts exactly the on-the-hour times the setter as written accepts, and keeps the same hour. */
  lemma SetHourRefinesAsWritten(t: Option<Time>)
    ensures SetHour(t).Ok? <==> SetHourAsWritten(t).Ok? && OnTheHour(t.value)
    ensures SetHour(t).Ok? ==> SetHour(t).value == SetHourAsWritten(t).value.hour
    ensures SetHour(t).Err? ==> SetHourAsWritten(t).Err? || t.value.second != 0 || t.value.nano != 0
  {
  }

  /**
   * setHora(String): null is refused, `parse` stands for LocalTime.parse
   * with the pattern HH:mm (giving hour and minute, None when it throws) and
   * a parse failure becomes IllegalArgument; then the range and minute
   * checks of the time setter apply.
   */
  function SetHourText(s: Option<string>, parse: string -> Option<(int, int)>): (r: Result<int>)
    ensures r.Ok? <==> s.Some? && parse(s.value).Some? && SetHour(Some(Time(parse(s.value).value.0, parse(s.value).value.1, 0, 0))).Ok?
    ensures r.Ok? ==> FirstHour <= r.value <= LastHour && r.value == parse(s.value).value.0 && parse(s.value).value.1 == 0
    ensures r.Err? ==> r.error == IllegalArgument
  {
    match s
    case None => Err(IllegalArgument)
    case Some(text) =>
      match parse(text)
      case None => Err(IllegalArgument)
      case Some(hm) => SetHour(Some(Time(hm.0, hm.1, 0, 0)))
  }

  /** The hour as the constructors of an hour slot receive it. */
  function HourOf(arg: TimeArg, parse: string -> Option<(int, int)>): (r: Result<int>)
    ensures r.Ok? ==> FirstHour <= r.value <= LastHour
    ensures r.Err? ==> r.error == IllegalArgument
    ensures arg.TimeValue? ==> r == SetHour(arg.time)
    ensures arg.TimeText? ==> r == SetHourText(arg.text, parse)
  {
    match arg
    case TimeValue(t) => SetHour(t)
    case TimeText(s) => SetHourText(s, parse)
  }

  // -------------------------------------------------------------- the slots

  /** Every slot a constructor produces has its hour in 8..22. */
  predicate ValidSlot(p: Slot) {
    p.HourSlot? ==> FirstHour <= p.hour <= LastHour
  }

  /** The four PermanenciaPorHora constructors: the day is set first, then the hour. */
  function NewHourSlot(day: DayArg, time: TimeArg, parseDay: string -> Option<Date>,
                       parseTime: string -> Option<(int, int)>): (r: Result<Slot>)
    ensures r.Ok? <==> DayOf(day, parseDay).Ok? && HourOf(time, parseTime).Ok?
    ensures r.Ok? ==> r.value.HourSlot? && ValidSlot(r.value)
    ensures r.Ok? ==> r.value.day == DayOf(day, parseDay).value && r.value.hour == HourOf(time, parseTime).value
    ensures r.Err? ==> r.error == IllegalArgument
  {
    var d :- DayOf(day, parseDay);
    var h :- HourOf(time, parseTime);
    Ok(HourSlot(d, h))
  }

  /** The two PermanenciaPorTramo constructors: the day is set first, then the segment, which must not be null. */
  function NewRangeSlot(day: DayArg, segment: Option<Segment>, parseDay: string -> Option<Date>): (r: Result<Slot>)
    ensures r.Ok? <==> DayOf(day, parseDay).Ok? && segment.Some?
    ensures r.Ok? ==> r.value.RangeSlot? && ValidSlot(r.value)
    ensures r.Ok? ==> r.value.day == DayOf(day, parseDay).value && r.value.segment == segment.value
    ensures r.Err? ==> r.error == IllegalArgument
  {
    var d :- DayOf(day, parseDay);
    match segment
    case None => Err(IllegalArgument)
    case Some(s) => Ok(RangeSlot(d, s))
  }

  /**
   * The copy constructors: null is refused; otherwise the original's day
   * (never null) and hour or segment are set again, the hour going through
   * the hour setter's checks once more.
   */
  function CopySlot(o: Option<Slot>): (r: Result<Slot>)
    ensures o.None? ==> r == Err(IllegalArgument)
    ensures o.Some? && ValidSlot(o.value) ==> r == Ok(o.value)
    ensures r.Ok? ==> o.Some? && r.value.HourSlot? == o.value.HourSlot?
  {
    match o
    case None => Err(IllegalArgument)
    case Some(HourSlot(d, h)) =>
      var hour :- SetHour(Some(Time(h, 0, 0, 0)));
      Ok(HourSlot(d, hour))
    case Some(RangeSlot(d, s)) => Ok(RangeSlot(d, s))
  }

  /** getPuntos: the price of a slot is fixed by its kind. */
  function SlotPoints(p: Slot): (n: int)
    ensures n == HourPoints <==> p.HourSlot?
    ensures n == SegmentPoints <==> p.RangeSlot?
  {
    match p
    case HourSlot(_, _) => HourPoints
    case RangeSlot(_, _) => SegmentPoints
  }

  /** The two equals methods: same kind, same day, and same hour or same segment. */
  lemma SlotEquality(a: Slot, b: Slot)
    ensures a == b <==>
              || (a.HourSlot? && b.HourSlot? && a.day == b.day && a.hour == b.hour)
              || (a.RangeSlot? && b.RangeSlot? && a.day == b.day && a.segment == b.segment)
  {
  }
}
