/**
 The order calendar's data: a fixed menu catalog and a horizon of day records,
 each holding the date text of its day and one order quantity per menu.
 `GetNext7Days` builds the initial horizon — seven days starting today, every
 quantity zero.
 */
module OrderCalendar {
  import opened Wrappers
  import opened CivilDate
  import IsoDate

  /** The menu catalog, in display order. */
  const Menus: seq<string> := ["1stmenu A", "2ndmenu B", "Best menu"]

  /** The catalog's menus as a set. */
  const MenuSet: set<string> := set m | m in Menus

  /** Number of days the initial horizon covers. */
  const HorizonDays: nat := 7

  /** One day of the calendar: its date text and the quantity ordered of each menu. */
  datatype Day = Day(date: string, quantities: map<string, nat>)

  /**
   Writes quantity 0 for every menu of `menus` into `acc`, left to right — the
   fold that builds a fresh day's quantities.
   */
  function ZeroFill(menus: seq<string>, acc: map<string, nat>): (r: map<string, nat>)
    ensures r.Keys == acc.Keys + set m | m in menus
    ensures forall m :: m in menus ==> r[m] == 0
    ensures forall k :: k in acc && k !in menus ==> r[k] == acc[k]
    decreases |menus|
  {
    if menus == [] then acc
    else ZeroFill(menus[1..], acc[menus[0] := 0])
  }

  /** The day holds exactly one quantity per catalog menu. */
  predicate HasCatalogKeys(day: Day) {
    day.quantities.Keys == MenuSet
  }

  predicate AllZero(day: Day) {
    forall m :: m in day.quantities ==> day.quantities[m] == 0
  }

  /** The day carries the date text of `d`. */
  predicate DatedOn(day: Day, d: Date) {
    IsoDate.Formattable(d) && day.date == IsoDate.Format(d)
  }

  /** Day `i` of `days` carries the date text of `today` plus `i` days. */
  predicate DatesFrom(days: seq<Day>, today: Date) {
    && Valid(today)
    && forall i :: 0 <= i < |days| ==> DatedOn(days[i], AddDays(today, i))
  }

  /** Appending the day of the next offset keeps a horizon a horizon. */
  lemma DatesFromExtend(days: seq<Day>, today: Date, day: Day)
    requires DatesFrom(days, today) && DatedOn(day, AddDays(today, |days|))
    ensures DatesFrom(days + [day], today)
  {
    var ext := days + [day];
    assert forall i :: 0 <= i < |days| ==> ext[i] == days[i];
    assert ext[|days|] == day;
  }

  /**
   Builds the initial horizon: for i = 0 .. 6, the day whose date is set to
   today's day-of-month plus i (letting the month and year roll over), with a
   zero quantity for every catalog menu.
   */
  method GetNext7Days(today: Date) returns (days: seq<Day>)
    requires Valid(today)
    requires -999999 <= today.year < 999999
    ensures |days| == HorizonDays
    ensures DatesFrom(days, today)
    ensures forall i :: 0 <= i < |days| ==> HasCatalogKeys(days[i]) && AllZero(days[i])
  {
    days := [];
    var i := 0;
    while i < HorizonDays
      invariant 0 <= i <= HorizonDays
      invariant |days| == i
      invariant DatesFrom(days, today)
      invariant forall j :: 0 <= j < i ==> HasCatalogKeys(days[j]) && AllZero(days[j])
    {
      var date := SetDate(today, today.day + i);
      SetDateAdvances(today, i);
      AddDaysYearBound(today, i);
      var quantities := ZeroFill(Menus, map[]);
      assert quantities.Keys == MenuSet;
      var day := Day(IsoDate.Format(date), quantities);
      DatesFromExtend(days, today, day);
      days := days + [day];
      i := i + 1;
    }
  }

  /** The first day of a horizon is today. */
  lemma HorizonStartsToday(days: seq<Day>, today: Date)
    requires DatesFrom(days, today) && |days| > 0
    ensures IsoDate.Parse(days[0].date) == Some(today)
  {
    assert DatedOn(days[0], AddDays(today, 0));
    IsoDate.FormatThenParse(today);
  }

  /**
   Horizon dates are consecutive days and strictly increasing, across month
   and year ends alike.
   */
  lemma HorizonConsecutive(days: seq<Day>, today: Date, i: int, j: int)
    requires DatesFrom(days, today)
    requires 0 <= i < j < |days|
    ensures IsoDate.Parse(days[i].date) == Some(AddDays(today, i))
    ensures IsoDate.Parse(days[i + 1].date) == Some(NextDay(AddDays(today, i)))
    ensures Before(AddDays(today, i), AddDays(today, j))
  {
    AddDaysOrder(today, i, j);
    IsoDate.FormatThenParse(AddDays(today, i));
    IsoDate.FormatThenParse(AddDays(today, i + 1));
  }

  /** No two days of a horizon share a date text. */
  lemma HorizonDistinctDates(days: seq<Day>, today: Date)
    requires DatesFrom(days, today)
    ensures forall i, j :: 0 <= i < |days| && 0 <= j < |days| && i != j ==> days[i].date != days[j].date
  {
    forall i, j | 0 <= i < |days| && 0 <= j < |days| && i != j
      ensures days[i].date != days[j].date
    {
      AddDaysOrder(today, i, j);
      AddDaysOrder(today, j, i);
      IsoDate.FormatInjective(AddDays(today, i), AddDays(today, j));
    }
  }
}
