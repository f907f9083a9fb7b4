/** The month calendar of the client (`components/CalendarAvailability.jsx`):
    the 42-cell month grid, the classification of each day cell against
    today's date and the set of dates that have bookings, and the select
    toggle. The calendar arithmetic of JavaScript's `Date` is not modelled:
    the weekday of the first day of the month (`startDay`) and the number
    of days in the month are parameters, as is today's ISO date. */
module CalendarAvailability {
  import opened JsValues
  import opened JsStrings
  import opened ClientTime

  /** Six weeks of seven days. */
  const GridSize: int := 42

  /** `getMonthGrid`: `startDay` empty cells, then the days 1 to
      `daysInMonth` in order, then empty cells up to 42. A cell holds the
      day of the month it shows. */
  method GetMonthGrid(startDay: nat, daysInMonth: nat) returns (cells: seq<Option<nat>>)
    ensures |cells| == if startDay + daysInMonth < GridSize then GridSize else startDay + daysInMonth
    ensures startDay <= 6 && daysInMonth <= 31 ==> |cells| == GridSize
    ensures forall i :: 0 <= i < startDay ==> cells[i] == None
    ensures forall i :: startDay <= i < startDay + daysInMonth ==> cells[i] == Some(i - startDay + 1)
    ensures forall i :: startDay + daysInMonth <= i < |cells| ==> cells[i] == None
  {
    cells := [];
    var i := 0;
    while i < startDay
      invariant 0 <= i <= startDay && |cells| == i
      invariant forall k :: 0 <= k < i ==> cells[k] == None
    {
      cells := cells + [None];
      i := i + 1;
    }
    var d := 1;
    while d <= daysInMonth
      invariant 1 <= d <= daysInMonth + 1
      invariant |cells| == startDay + d - 1
      invariant forall k :: 0 <= k < startDay ==> cells[k] == None
      invariant forall k :: startDay <= k < |cells| ==> cells[k] == Some(k - startDay + 1)
    {
      cells := cells + [Some(d)];
      d := d + 1;
    }
    while |cells| < GridSize
      invariant startDay + daysInMonth <= |cells|
      invariant |cells| <= if startDay + daysInMonth < GridSize then GridSize else startDay + daysInMonth
      invariant forall k :: 0 <= k < startDay ==> cells[k] == None
      invariant forall k :: startDay <= k < startDay + daysInMonth ==> cells[k] == Some(k - startDay + 1)
      invariant forall k :: startDay + daysInMonth <= k < |cells| ==> cells[k] == None
      decreases GridSize - |cells|
    {
      cells := cells + [None];
    }
  }

  /** What one grid cell shows: nothing, or a day with its ISO date and
      the flags that choose its class and whether it is disabled. */
  datatype CellView =
    | EmptyCell
    | DayCell(iso: string, past: bool, occupied: bool, selected: bool, isToday: bool)

  /** The per-cell classification for the month `month` (1 to 12) of
      `year`: past when the ISO text sorts before today's, occupied when
      the set of booked dates holds it. */
  function Classify(cell: Option<nat>, year: nat, month: nat, today: string,
                    selectedDate: string, occupiedDates: set<string>): CellView
  {
    match cell
    case None => EmptyCell
    case Some(d) =>
      var iso := ToISODate(year, month, d);
      DayCell(iso, Less(iso, today), iso in occupiedDates, selectedDate == iso, iso == today)
  }

  /** `disabled={isPast}`: only past days cannot be clicked. */
  predicate CellDisabled(view: CellView) {
    view.DayCell? && view.past
  }

  /** For real dates, a day cell is disabled exactly when its date comes
      before today in the calendar, it is today's cell exactly when the
      dates are equal, and it is marked occupied exactly when its date is
      among the booked ones. */
  lemma ClassifyIsChronological(year: nat, month: nat, day: nat, ty: nat, tm: nat, td: nat,
                                selectedDate: string, occupiedDates: set<string>)
    requires 1000 <= year <= 9999 && 1 <= month <= 12 && 1 <= day <= 31
    requires 1000 <= ty <= 9999 && 1 <= tm <= 12 && 1 <= td <= 31
    ensures var view := Classify(Some(day), year, month, ToISODate(ty, tm, td), selectedDate, occupiedDates);
      && (CellDisabled(view) <==> year < ty || (year == ty && (month < tm || (month == tm && day < td))))
      && (view.isToday <==> year == ty && month == tm && day == td)
      && (view.occupied <==> ToISODate(year, month, day) in occupiedDates)
  {
    ISODateOrder(year, month, day, ty, tm, td);
  }

  /** Empty cells are never disabled, and today's cell never is. */
  lemma TodayIsSelectable(cell: Option<nat>, year: nat, month: nat, today: string,
                          selectedDate: string, occupiedDates: set<string>)
    requires cell.None? || Classify(cell, year, month, today, selectedDate, occupiedDates).isToday
    ensures !CellDisabled(Classify(cell, year, month, today, selectedDate, occupiedDates))
  {
    if cell.Some? {
      LessIrreflexive(ToISODate(year, month, cell.value));
    }
  }

  /** `handleSelect`: the value passed to `onSelectDate`, or `None` when no
      callback was given. Clicking the selected date clears the selection;
      clicking any other date selects it. */
  function HandleSelect(iso: string, selectedDate: string, hasCallback: bool): (call: Option<string>)
  {
    if !hasCallback then None
    else if iso == selectedDate then Some("")
    else Some(iso)
  }

  /** With a callback that stores its argument as the new selection, a
      click on a day toggles it: the day becomes selected exactly when it
      was not, and the selection is cleared exactly when it was. A second
      click on the same day therefore restores whether it was selected. */
  lemma SelectToggles(iso: string, selectedDate: string)
    requires iso != ""
    ensures HandleSelect(iso, selectedDate, true).Some?
    ensures var next := HandleSelect(iso, selectedDate, true).value;
      && (next == iso <==> selectedDate != iso)
      && (next == "" <==> selectedDate == iso)
      && (HandleSelect(iso, next, true).value == iso <==> selectedDate == iso)
  {
  }

  /** Without a callback a click does nothing. */
  lemma NoCallbackNoCall(iso: string, selectedDate: string)
    ensures HandleSelect(iso, selectedDate, false) == None
  {
  }
}
