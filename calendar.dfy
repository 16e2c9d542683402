/**
 * The two-month range picker (src/components/libs/internal/calendar.tsx):
 * the month arithmetic behind its navigation, the click/hover state machine
 * that selects a range, the rule for reporting the range, and how a day
 * cell is shaded. Dates are calendar days: a year, a month 0..11 and a day
 * of the month, with no time of day (every date the component stores has
 * been through `setHours(0, 0, 0, 0)`).
 */
module Calendar {
  import opened Wrappers

  datatype Date = Date(year: int, month: int, day: int)

  function Min(a: int, b: int): int { if a < b then a else b }
  function Max(a: int, b: int): int { if a < b then b else a }

  /** Leap years of the proleptic Gregorian calendar `Date` uses. */
  predicate IsLeap(year: int) {
    year % 4 == 0 && (year % 100 != 0 || year % 400 == 0)
  }

  /** The true length of a month. */
  function MonthLength(year: int, month: int): (r: int)
    requires 0 <= month < 12
    ensures 28 <= r <= 31
    ensures month == 1 ==> (r == 29 <==> IsLeap(year))
  {
    if month == 1 then (if IsLeap(year) then 29 else 28)
    else if month == 3 || month == 5 || month == 8 || month == 10 then 30
    else 31
  }

  /** A real calendar day. */
  predicate Valid(d: Date) {
    0 <= d.month < 12 && 1 <= d.day <= MonthLength(d.year, d.month)
  }

  /** The `new Date(y, …)` constructor reads a year from 0 to 99 as 1900 to 1999. */
  function ConstructorYear(year: int): int {
    if 0 <= year <= 99 then 1900 + year else year
  }

  /**
   * `getDaysInMonth(year, month)`: the day-of-month of
   * `new Date(year, month + 1, 0)`, i.e. the day before the first of the
   * following month, after the constructor has normalised the month.
   */
  function DaysInMonth(year: int, month: int): (r: int)
    ensures 28 <= r <= 31
  {
    var y := ConstructorYear(year);
    var m := month + 1;
    var nextYear := y + m / 12;
    var nextMonth := m % 12;
    if nextMonth == 0 then MonthLength(nextYear - 1, 11) else MonthLength(nextYear, nextMonth - 1)
  }

  /** The day-0 construction gives the length of the month asked for, in the constructor's year. */
  lemma DaysInMonthIsMonthLength(year: int, month: int)
    ensures DaysInMonth(year, month) == MonthLength(ConstructorYear(year) + month / 12, month % 12)
  {
    var m := month + 1;
    if m % 12 == 0 {
      assert month % 12 == 11 && month / 12 == m / 12 - 1;
    } else {
      assert month % 12 == m % 12 - 1 && month / 12 == m / 12;
    }
  }

  /** Outside the years 0 to 99 the result is the true length of the month. */
  lemma DaysInMonthExact(year: int, month: int)
    requires 0 <= month < 12 && !(0 <= year <= 99)
    ensures DaysInMonth(year, month) == MonthLength(year, month)
  {
    DaysInMonthIsMonthLength(year, month);
  }

  /** Inside them it is the length in 1900 + year, which differs only in February of year 0. */
  lemma DaysInMonthTwoDigitYear(year: int, month: int)
    requires 0 <= month < 12 && 0 <= year <= 99
    ensures DaysInMonth(year, month) == MonthLength(1900 + year, month)
    ensures DaysInMonth(year, month) <= MonthLength(year, month)
    ensures DaysInMonth(year, month) < MonthLength(year, month) <==> year == 0 && month == 1
  {
    DaysInMonthIsMonthLength(year, month);
  }

  /** Months counted from year 0: the quantity `setMonth` moves. */
  function MonthIndex(d: Date): int {
    d.year * 12 + d.month
  }

  /**
   * The date `months` months on: the month index moves by exactly
   * `months`, and the day is kept unless the target month (as
   * `getDaysInMonth` measures it) is too short, when it becomes its last day.
   */
  function ShiftMonths(date: Date, months: int): (r: Date)
    ensures MonthIndex(r) == MonthIndex(date) + months && 0 <= r.month < 12
    ensures r.day == Min(date.day, DaysInMonth(r.year, r.month))
  {
    var total := date.month + months;
    var year := date.year + total / 12;
    var month := total % 12;
    Date(year, month, Min(date.day, DaysInMonth(year, month)))
  }

  /**
   * `addMonths`: the date is copied, set to the 1st, moved by `setMonth`
   * (which carries whole years), and then set to the original day or the
   * last day of the new month, whichever is smaller.
   */
  method AddMonths(date: Date, months: int) returns (newDate: Date)
    ensures newDate == ShiftMonths(date, months)
  {
    newDate := date;
    var originalDay := newDate.day;
    newDate := newDate.(day := 1);
    var total := newDate.month + months;
    newDate := newDate.(year := newDate.year + total / 12, month := total % 12);
    var lastDayOfNewMonth := DaysInMonth(newDate.year, newDate.month);
    newDate := newDate.(day := Min(originalDay, lastDayOfNewMonth));
  }

  /** `subMonths`: the same steps with the month moved back. */
  method SubMonths(date: Date, months: int) returns (newDate: Date)
    ensures newDate == ShiftMonths(date, -months)
  {
    newDate := date;
    var originalDay := newDate.day;
    newDate := newDate.(day := 1);
    var total := newDate.month - months;
    newDate := newDate.(year := newDate.year + total / 12, month := total % 12);
    var lastDayOfNewMonth := DaysInMonth(newDate.year, newDate.month);
    newDate := newDate.(day := Min(originalDay, lastDayOfNewMonth));
  }

  /** Shifting a real day gives a real day. */
  lemma ShiftMonthsValid(date: Date, months: int)
    requires Valid(date)
    ensures Valid(ShiftMonths(date, months))
  {
    var r := ShiftMonths(date, months);
    if 0 <= r.year <= 99 {
      DaysInMonthTwoDigitYear(r.year, r.month);
    } else {
      DaysInMonthExact(r.year, r.month);
    }
  }

  /**
   * The year carries: moving by twelve months changes the year and keeps the
   * month; the day is kept too, except that February 29 becomes February 28
   * in a year that is not a leap year.
   */
  lemma ShiftMonthsYearCarry(date: Date, years: int)
    requires Valid(date) && !(0 <= date.year <= 99) && !(0 <= date.year + years <= 99)
    ensures ShiftMonths(date, 12 * years)
      == Date(date.year + years, date.month, Min(date.day, MonthLength(date.year + years, date.month)))
    ensures date.month != 1 || date.day <= 28 ==>
      ShiftMonths(date, 12 * years) == Date(date.year + years, date.month, date.day)
  {
    var r := ShiftMonths(date, 12 * years);
    assert r.year == date.year + years && r.month == date.month;
    DaysInMonthExact(date.year, date.month);
    DaysInMonthExact(r.year, r.month);
  }

  /** A day no later than the 28th survives any shift, so moving back undoes moving forward. */
  lemma ShiftMonthsRoundTrip(date: Date, months: int)
    requires 0 <= date.month < 12 && 1 <= date.day <= 28
    ensures ShiftMonths(date, months).day == date.day
    ensures ShiftMonths(ShiftMonths(date, months), -months) == date
  {
    var r := ShiftMonths(date, months);
    var back := ShiftMonths(r, -months);
    assert MonthIndex(back) == MonthIndex(date);
    assert back.year == date.year && back.month == date.month;
  }

  /**
   * The order of dates by `getTime()`: for real days this key is equal
   * exactly when the dates are, and smaller exactly when the date is earlier.
   */
  function Time(d: Date): int {
    MonthIndex(d) * 32 + d.day
  }

  /** `Time` orders real days by year, then month, then day. */
  lemma TimeOrder(a: Date, b: Date)
    requires Valid(a) && Valid(b)
    ensures Time(a) == Time(b) <==> a == b
    ensures Time(a) < Time(b) <==>
      a.year < b.year || (a.year == b.year && (a.month < b.month || (a.month == b.month && a.day < b.day)))
  {
    if MonthIndex(a) < MonthIndex(b) {
      assert Time(a) < Time(b);
    } else if MonthIndex(b) < MonthIndex(a) {
      assert Time(b) < Time(a);
    }
    assert MonthIndex(a) == MonthIndex(b) ==> a.year == b.year && a.month == b.month;
  }

  /** Going forward any number of months from a real day lands on a later day. */
  lemma ShiftMonthsLater(date: Date, months: int)
    requires Valid(date) && months > 0
    ensures Time(date) < Time(ShiftMonths(date, months))
  {
    ShiftMonthsValid(date, months);
  }

  /** The selected range: `startDate` and `endDate`. */
  datatype Selection = Selection(start: Option<Date>, end: Option<Date>)

  /** A selection the picker can be left in by a click: an end only after a start, and strictly later. */
  predicate Ordered(s: Selection) {
    s.end.Some? ==> s.start.Some? && Time(s.start.value) < Time(s.end.value)
  }

  /** What `handleDateClick(day)` makes of the selection. */
  function Click(s: Selection, day: Date): (r: Selection)
    ensures Ordered(r)
  {
    if s.start.None? || (s.start.Some? && s.end.Some?) then Selection(Some(day), None)
    else if Time(day) == Time(s.start.value) then Selection(None, None)
    else if Time(day) < Time(s.start.value) then Selection(Some(day), s.start)
    else Selection(s.start, Some(day))
  }

  /** With nothing selected, or a whole range selected, a click starts a new range at the day. */
  lemma ClickStartsRange(s: Selection, day: Date)
    requires s.start.None? || s.end.Some?
    ensures Click(s, day) == Selection(Some(day), None)
  {
  }

  /** With only a start, clicking the start again clears the selection. */
  lemma ClickStartClears(s: Selection, day: Date)
    requires Valid(day) && s.start.Some? && Valid(s.start.value) && s.end.None?
    requires day == s.start.value
    ensures Click(s, day) == Selection(None, None)
  {
  }

  /** With only a start, another day completes the range with the earlier day first. */
  lemma ClickCompletesRange(s: Selection, day: Date)
    requires Valid(day) && s.start.Some? && Valid(s.start.value) && s.end.None?
    requires day != s.start.value
    ensures var r := Click(s, day);
      && r.start.Some? && r.end.Some?
      && {r.start.value, r.end.value} == {day, s.start.value}
      && Time(r.start.value) < Time(r.end.value)
  {
    TimeOrder(day, s.start.value);
  }

  /** Three clicks on different real days never leave an end before its start, and the third restarts. */
  lemma ThirdClickRestarts(a: Date, b: Date, c: Date)
    requires Valid(a) && Valid(b) && a != b
    ensures Click(Click(Click(Selection(None, None), a), b), c) == Selection(Some(c), None)
  {
    TimeOrder(a, b);
  }

  /** The range callback runs when the range is complete or fully cleared, never while it is half chosen. */
  predicate Reports(s: Selection) {
    (s.start.Some? && s.end.Some?) || (s.start.None? && s.end.None?)
  }

  /** After a click, a reported range is always in order. */
  lemma ReportedAfterClickOrdered(s: Selection, day: Date)
    ensures var r := Click(s, day);
      Reports(r) && r.start.Some? ==> Time(r.start.value) < Time(r.end.value)
    ensures Reports(Click(s, day)) <==> !(s.start.None? || s.end.Some?)
  {
  }

  /**
   * The component's state: the first displayed month, the selection and
   * the hovered day.
   */
  class RangePicker {
    var display: Date
    var start: Option<Date>
    var end: Option<Date>
    var hover: Option<Date>

    /** A hovered day exists only while a range is half chosen. */
    predicate HoverOnlyWhileOpen()
      reads this
    {
      hover.Some? ==> start.Some? && end.None?
    }

    /**
     * The state after mounting: the initial dates as given (not checked
     * against each other), the view on the initial start or on today.
     */
    constructor (initialStart: Option<Date>, initialEnd: Option<Date>, today: Date)
      ensures start == initialStart && end == initialEnd && hover == None
      ensures display == (if initialStart.Some? then initialStart.value else today)
      ensures HoverOnlyWhileOpen()
    {
      start := initialStart;
      end := initialEnd;
      hover := None;
      display := if initialStart.Some? then initialStart.value else today;
    }

    /** `handleDateClick`: the selection moves as `Click` says and the hover is dropped. */
    method HandleDateClick(day: Date)
      modifies this
      ensures Selection(start, end) == Click(Selection(old(start), old(end)), day)
      ensures hover == None && display == old(display)
      ensures Ordered(Selection(start, end)) && HoverOnlyWhileOpen()
    {
      var newStart := start;
      var newEnd := end;
      if newStart.None? || (newStart.Some? && newEnd.Some?) {
        newStart := Some(day);
        newEnd := None;
      } else {
        if Time(day) == Time(newStart.value) {
          newStart := None;
          newEnd := None;
        } else if Time(day) < Time(newStart.value) {
          newEnd := newStart;
          newStart := Some(day);
        } else {
          newEnd := Some(day);
        }
      }
      hover := None;
      start := newStart;
      end := newEnd;
    }

    /** `handleDateHover`: the day is remembered only while a range is half chosen. */
    method HandleDateHover(day: Date)
      modifies this
      ensures start == old(start) && end == old(end) && display == old(display)
      ensures hover == (if old(start).Some? && old(end).None? then Some(day) else old(hover))
      ensures old(HoverOnlyWhileOpen()) ==> HoverOnlyWhileOpen()
    {
      if start.Some? && end.None? {
        hover := Some(day);
      }
    }

    /** Leaving the month grid forgets the hovered day while a range is half chosen. */
    method HandleMouseLeave()
      modifies this
      ensures start == old(start) && end == old(end) && display == old(display)
      ensures hover == (if old(start).Some? && old(end).None? then None else old(hover))
      ensures old(HoverOnlyWhileOpen()) ==> HoverOnlyWhileOpen()
    {
      if start.Some? && end.None? {
        hover := None;
      }
    }

    /** The "previous" button moves the view back two months. */
    method HandlePrevMonths()
      modifies this
      ensures display == ShiftMonths(old(display), -2)
      ensures start == old(start) && end == old(end) && hover == old(hover)
    {
      display := SubMonths(display, 2);
    }

    /** The "next" button moves the view forward two months. */
    method HandleNextMonths()
      modifies this
      ensures display == ShiftMonths(old(display), 2)
      ensures start == old(start) && end == old(end) && hover == old(hover)
    {
      display := AddMonths(display, 2);
    }

    /** The two months on screen: the view date and the month after it. */
    method DisplayedMonths() returns (first: Date, second: Date)
      ensures first == display
      ensures MonthIndex(second) == MonthIndex(display) + 1
      ensures Valid(display) ==> Valid(second) && Time(first) < Time(second)
    {
      first := display;
      second := AddMonths(display, 1);
      if Valid(display) {
        ShiftMonthsValid(display, 1);
        ShiftMonthsLater(display, 1);
      }
    }

    /** The range reported to `onDateRangeChange`, if the current state is reported at all. */
    function Report(): (r: Option<Selection>)
      reads this
      ensures r.Some? <==> Reports(Selection(start, end))
      ensures r.Some? ==> r.value == Selection(start, end)
    {
      if (start.Some? && end.Some?) || (start.None? && end.None?) then Some(Selection(start, end)) else None
    }
  }

  /** How a day cell is shaded: its background, text colour and rounding classes. */
  datatype Cell = Cell(bg: string, text: string, rounding: string)

  const Plain := Cell("bg-transparent", "text-gray-700", "rounded-md")

  /**
   * The shading of the cell whose time is `current`, given the times of
   * the start, end and hovered days.
   */
  function Highlight(current: int, start: Option<int>, end: Option<int>, hover: Option<int>): Cell {
    match start
    case None => Plain
    case Some(s) =>
      match end
      case Some(e) =>
        var lo := Min(s, e);
        var hi := Max(s, e);
        if current >= lo && current <= hi then
          if current == lo && current == hi then Cell("bg-blue-600", "text-white", "rounded-full")
          else if current == lo then Cell("bg-blue-600", "text-white", "rounded-l-full")
          else if current == hi then Cell("bg-blue-600", "text-white", "rounded-r-full")
          else Cell("bg-blue-400", "text-white", "rounded-none")
        else Plain
      case None =>
        if current == s then Cell("bg-blue-600", "text-white", "rounded-full")
        else match hover
          case None => Plain
          case Some(h) =>
            if current == h && h != s then
              Cell("bg-blue-500", "text-white", if h > s then "rounded-r-full" else "rounded-l-full")
            else if current > Min(s, h) && current < Max(s, h) then
              Cell("bg-blue-200", "text-blue-800", "rounded-none")
            else Plain
  }

  /**
   * With both ends chosen, a day is shaded exactly when it lies between
   * them, in whichever order they were stored; the earliest day is rounded
   * on the left, the latest on the right, a one-day range all round.
   */
  lemma RangeHighlight(current: int, s: int, e: int, hover: Option<int>)
    ensures var c := Highlight(current, Some(s), Some(e), hover);
      && (c != Plain <==> Min(s, e) <= current <= Max(s, e))
      && (c.text == "text-white" <==> Min(s, e) <= current <= Max(s, e))
      && (c.rounding == "rounded-full" <==> current == s == e)
      && (c.rounding == "rounded-l-full" <==> current == Min(s, e) && s != e)
      && (c.rounding == "rounded-r-full" <==> current == Max(s, e) && s != e)
      && (c.bg == "bg-blue-400" <==> Min(s, e) < current < Max(s, e))
  {
  }

  /** Swapping the two ends changes no cell. */
  lemma RangeHighlightSymmetric(current: int, s: int, e: int, hover: Option<int>)
    ensures Highlight(current, Some(s), Some(e), hover) == Highlight(current, Some(e), Some(s), hover)
  {
  }

  /**
   * With only a start, the start is a full circle, the hovered day is the
   * prospective other end, rounded on its outer side, and the days strictly
   * between are lightly shaded; everything else is plain.
   */
  lemma HoverPreview(current: int, s: int, h: int)
    requires h != s
    ensures var c := Highlight(current, Some(s), None, Some(h));
      && (current == s ==> c == Cell("bg-blue-600", "text-white", "rounded-full"))
      && (current == h ==> c.bg == "bg-blue-500" && (c.rounding == "rounded-r-full" <==> h > s))
      && (c.bg == "bg-blue-200" <==> Min(s, h) < current < Max(s, h))
      && (c == Plain <==> current < Min(s, h) || current > Max(s, h))
  {
  }

  /** Today's ring and text colour, from the shading of its cell. */
  function TodayMark(cell: Cell, isToday: bool): (r: (string, string))
    ensures r.0 != "" ==> isToday
    ensures !isToday ==> r == ("", cell.text)
  {
    if isToday then
      if cell.bg == "bg-transparent" then
        ("ring-2 ring-offset-1 ring-blue-500", if cell.text == "text-gray-700" then "text-blue-600 font-semibold" else cell.text)
      else if cell.bg == "bg-blue-200" then ("ring-1 ring-blue-400", cell.text)
      else ("", cell.text)
    else ("", cell.text)
  }

  /** Today gets the strong ring only when nothing else shades it, and keeps a selected cell's look. */
  lemma TodayRingOnlyWhenUnshaded(current: int, start: Option<int>, end: Option<int>, hover: Option<int>)
    ensures var c := Highlight(current, start, end, hover);
      && (TodayMark(c, true).0 == "ring-2 ring-offset-1 ring-blue-500" <==> c == Plain)
      && (c.bg == "bg-blue-600" ==> TodayMark(c, true) == ("", "text-white"))
  {
  }
}
