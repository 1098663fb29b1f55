/** The four statistics reports, each computed from the filtered rows: most
    frequent times of travel, most popular stations, trip durations and user
    demographics. A report either fails the way the program raises, or holds
    the values it prints. */
module Reports {

  import opened Base
  import opened Trips
  import opened Stats

  /** The month names the time report can print. */
  const MonthLabels: map<int, string> :=
    map[1 := "January", 2 := "February", 3 := "March", 4 := "April", 5 := "May", 6 := "June"]

  datatype TimeReport = TimeReport(
    month: int, monthName: string, monthTrips: nat,
    day: string, dayTrips: nat,
    hour: Hour, clock: ClockHour, hourTrips: nat)

  /** Most common month, day of the week and start hour, each with its number
      of trips; the month must be one the report has a name for. */
  function TimeStats(rows: seq<Trip>): (r: Result<TimeReport>)
    ensures |rows| == 0 ==> r == Failure(EmptyColumn)
    ensures |rows| > 0 && (forall t :: t in rows ==> t.month in MonthLabels) ==> r.Success?
    ensures r.Failure? ==> r.error == EmptyColumn || r.error == UnknownMonthNumber
    ensures forall m: int, c: nat :: |rows| > 0 && IsMode(ColumnOf(rows, MonthColumn), Num(m), c) ==>
              (r.Success? <==> m in MonthLabels) && (r.Failure? ==> r.error == UnknownMonthNumber)
    ensures r.Success? ==>
              && IsMode(ColumnOf(rows, MonthColumn), Num(r.value.month), r.value.monthTrips)
              && r.value.month in MonthLabels
              && r.value.monthName == MonthLabels[r.value.month]
    ensures r.Success? ==> IsMode(ColumnOf(rows, DayColumn), Str(r.value.day), r.value.dayTrips)
    ensures r.Success? ==>
              && IsMode(ColumnOf(rows, HourColumn), Num(r.value.hour), r.value.hourTrips)
              && r.value.clock == HourLabel(r.value.hour)
  {
    if |rows| == 0 then Failure(EmptyColumn)
    else
      var (month, monthTrips) := Mode(ColumnOf(rows, MonthColumn));
      InColumn(rows, MonthColumn, month);
      ModeDetermines(ColumnOf(rows, MonthColumn), month, monthTrips);
      if month.n !in MonthLabels then Failure(UnknownMonthNumber)
      else
        var (day, dayTrips) := Mode(ColumnOf(rows, DayColumn));
        InColumn(rows, DayColumn, day);
        var (hour, hourTrips) := Mode(ColumnOf(rows, HourColumn));
        InColumn(rows, HourColumn, hour);
        Success(TimeReport(month.n, MonthLabels[month.n], monthTrips, day.s, dayTrips,
                           hour.n, HourLabel(hour.n), hourTrips))
  }

  datatype StationReport = StationReport(
    start: string, startTrips: nat,
    end: string, endTrips: nat,
    combo: string, comboTrips: nat)

  /** Most common start station, end station and start/end combination, each
      with its number of trips. */
  function StationStats(rows: seq<Trip>): (r: Result<StationReport>)
    ensures r.Failure? <==> |rows| == 0
    ensures r.Failure? ==> r.error == EmptyColumn
    ensures r.Success? ==> IsMode(ColumnOf(rows, StartColumn), Str(r.value.start), r.value.startTrips)
    ensures r.Success? ==> IsMode(ColumnOf(rows, EndColumn), Str(r.value.end), r.value.endTrips)
    ensures r.Success? ==> IsMode(ColumnOf(rows, ComboColumn), Str(r.value.combo), r.value.comboTrips)
  {
    if |rows| == 0 then Failure(EmptyColumn)
    else
      var (start, startTrips) := Mode(ColumnOf(rows, StartColumn));
      InColumn(rows, StartColumn, start);
      var (end, endTrips) := Mode(ColumnOf(rows, EndColumn));
      InColumn(rows, EndColumn, end);
      var (combo, comboTrips) := Mode(ColumnOf(rows, ComboColumn));
      InColumn(rows, ComboColumn, combo);
      Success(StationReport(start.s, startTrips, end.s, endTrips, combo.s, comboTrips))
  }

  datatype DurationReport = DurationReport(total: nat, clock: Hms)

  /** The total travel time in seconds and as hours, minutes and seconds. */
  function DurationStats(rows: seq<Trip>): (r: DurationReport)
    ensures r.total == TotalDuration(rows)
    ensures r.clock.hours * 3600 + r.clock.minutes * 60 + r.clock.seconds == TotalDuration(rows)
    ensures r.clock.minutes < 60 && r.clock.seconds < 60
  {
    var total := TotalDuration(rows);
    DurationReport(total, ToHms(total))
  }

  /** A grouped count: how many rows hold each value, and how many hold none. */
  datatype Groups = Groups(counts: multiset<string>, missing: nat)

  function GroupsOf(col: seq<Option<string>>): (g: Groups)
    ensures forall v :: g.counts[v] == multiset(col)[Some(v)]
    ensures g.missing == multiset(col)[None]
    ensures |g.counts| + g.missing == |col|
  {
    Groups(multiset(Present(col)), multiset(col)[None])
  }

  function UserTypeColumn(rows: seq<Trip>): seq<Option<string>> {
    seq(|rows|, i requires 0 <= i < |rows| => rows[i].userType)
  }

  function GenderColumn(rows: seq<Trip>): seq<Option<string>> {
    seq(|rows|, i requires 0 <= i < |rows| => rows[i].gender)
  }

  function BirthYearColumn(rows: seq<Trip>): seq<Option<int>> {
    seq(|rows|, i requires 0 <= i < |rows| => rows[i].birthYear)
  }

  /** The birth years that are present, as cells for the mode. */
  function YearCells(years: seq<int>): seq<Value> {
    seq(|years|, i requires 0 <= i < |years| => Num(years[i]))
  }

  /** "Oldest" is the earliest birth year and "youngest" the latest. */
  datatype BirthReport = BirthReport(oldest: int, youngest: int, common: int, commonCount: nat, missing: nat)

  datatype UserReport = UserReport(total: nat, userTypes: Groups, gender: Option<Groups>, birth: Option<BirthReport>)

  lemma PresentYear(rows: seq<Trip>, t: Trip)
    requires t in rows && t.birthYear.Some?
    ensures t.birthYear.value in Present(BirthYearColumn(rows))
  {
    var col := BirthYearColumn(rows);
    var i :| 0 <= i < |rows| && rows[i] == t;
    assert col[i] == t.birthYear;
    assert multiset(Present(col))[t.birthYear.value] == multiset(col)[t.birthYear] > 0;
  }

  lemma YearCellsHoldYears(years: seq<int>, v: Value)
    requires v in YearCells(years)
    ensures v.Num? && v.n in years
  {
    var i :| 0 <= i < |years| && YearCells(years)[i] == v;
  }

  lemma YearOfSomeRow(rows: seq<Trip>, y: int)
    requires y in Present(BirthYearColumn(rows))
    ensures exists t :: t in rows && t.birthYear == Some(y)
  {
    var col := BirthYearColumn(rows);
    assert multiset(col)[Some(y)] == multiset(Present(col))[y] > 0;
    var i :| 0 <= i < |col| && col[i] == Some(y);
    assert rows[i] in rows;
  }

  lemma YearBounds(rows: seq<Trip>)
    requires |Present(BirthYearColumn(rows))| > 0
    ensures forall t :: t in rows && t.birthYear.Some? ==>
              MinOf(Present(BirthYearColumn(rows))) <= t.birthYear.value <= MaxOf(Present(BirthYearColumn(rows)))
  {
    forall t | t in rows && t.birthYear.Some?
      ensures MinOf(Present(BirthYearColumn(rows))) <= t.birthYear.value <= MaxOf(Present(BirthYearColumn(rows)))
    {
      PresentYear(rows, t);
    }
  }

  lemma NoYears(rows: seq<Trip>)
    requires |Present(BirthYearColumn(rows))| == 0
    ensures forall t :: t in rows ==> t.birthYear.None?
  {
    forall t | t in rows && t.birthYear.Some?
      ensures false
    {
      PresentYear(rows, t);
    }
  }

  /** The birth-year figures: earliest and latest year, the most common year
      with its number of users, and how many rows have no year. */
  function BirthStats(rows: seq<Trip>): (r: Result<BirthReport>)
    ensures r.Failure? <==> forall t :: t in rows ==> t.birthYear.None?
    ensures r.Failure? ==> r.error == EmptyColumn
    ensures r.Success? ==>
              var b := r.value;
              && (exists t :: t in rows && t.birthYear == Some(b.oldest))
              && (exists t :: t in rows && t.birthYear == Some(b.youngest))
              && (forall t :: t in rows && t.birthYear.Some? ==> b.oldest <= t.birthYear.value <= b.youngest)
              && b.oldest <= b.common <= b.youngest
              && IsMode(YearCells(Present(BirthYearColumn(rows))), Num(b.common), b.commonCount)
              && b.missing == multiset(BirthYearColumn(rows))[None]
  {
    var col := BirthYearColumn(rows);
    var years := Present(col);
    if |years| == 0 then
      NoYears(rows);
      Failure(EmptyColumn)
    else
      var (common, count) := Mode(YearCells(years));
      YearCellsHoldYears(years, common);
      var oldest, youngest := MinOf(years), MaxOf(years);
      YearOfSomeRow(rows, oldest);
      YearOfSomeRow(rows, youngest);
      YearBounds(rows);
      Success(BirthReport(oldest, youngest, common.n, count, multiset(col)[None]))
  }

  /** Number of rows, counts by user type, by gender if the city's data has
      that column, and the birth-year figures if it has that one. */
  function UserStats(table: Table): (r: Result<UserReport>)
    ensures r.Failure? <==> table.hasBirthYear && forall t :: t in table.rows ==> t.birthYear.None?
    ensures r.Failure? ==> r.error == EmptyColumn
    ensures r.Success? ==> r.value.total == |table.rows|
    ensures r.Success? ==> forall v :: r.value.userTypes.counts[v] == multiset(UserTypeColumn(table.rows))[Some(v)]
    ensures r.Success? ==> r.value.userTypes.missing == multiset(UserTypeColumn(table.rows))[None]
    ensures r.Success? ==> (r.value.gender.Some? <==> table.hasGender)
    ensures r.Success? && r.value.gender.Some? ==>
              && (forall v :: r.value.gender.value.counts[v] == multiset(GenderColumn(table.rows))[Some(v)])
              && r.value.gender.value.missing == multiset(GenderColumn(table.rows))[None]
    ensures r.Success? ==> (r.value.birth.Some? <==> table.hasBirthYear)
    ensures r.Success? && r.value.birth.Some? ==> Success(r.value.birth.value) == BirthStats(table.rows)
  {
    var rows := table.rows;
    var userTypes := GroupsOf(UserTypeColumn(rows));
    var gender := if table.hasGender then Some(GroupsOf(GenderColumn(rows))) else None;
    if !table.hasBirthYear then Success(UserReport(|rows|, userTypes, gender, None))
    else
      match BirthStats(rows)
      case Failure(e) => Failure(e)
      case Success(b) => Success(UserReport(|rows|, userTypes, gender, Some(b)))
  }
}
