/** Trip records and the dataset loader's month and day-of-week filter. A trip
    carries the month, weekday and hour already derived from its start time. */
module Trips {

  import opened Base
  import opened Text
  import opened Filters

  datatype Weekday = Monday | Tuesday | Wednesday | Thursday | Friday | Saturday | Sunday

  /** The weekday name pandas derives from a timestamp, `Series.dt.day_name()`. */
  function DayName(w: Weekday): (r: string)
    ensures Capitalized(r)
  {
    match w
    case Monday => "Monday"
    case Tuesday => "Tuesday"
    case Wednesday => "Wednesday"
    case Thursday => "Thursday"
    case Friday => "Friday"
    case Saturday => "Saturday"
    case Sunday => "Sunday"
  }

  type MonthNumber = m: int | 1 <= m <= 12 witness 1
  type Hour = h: int | 0 <= h <= 23

  /** One row of a city's data file. The optional fields are `None` where the
      file has no value, or no such column at all. */
  datatype Trip = Trip(
    month: MonthNumber,
    weekday: Weekday,
    hour: Hour,
    duration: nat,
    startStation: string,
    endStation: string,
    userType: Option<string>,
    gender: Option<string>,
    birthYear: Option<int>)

  /** A loaded dataset: its rows in file order, and whether the file has the
      Gender and Birth Year columns. */
  datatype Table = Table(hasGender: bool, hasBirthYear: bool, rows: seq<Trip>)

  /** The month names the loader understands, in calendar order. */
  const FullMonths: seq<string> := ["january", "february", "march", "april", "may", "june"]

  /** Python's `xs.index(x)` searched from position `from`: the first position
      holding `x`, or none. */
  function IndexFrom(xs: seq<string>, x: string, from: nat): (r: Option<nat>)
    requires from <= |xs|
    ensures r.Some? ==> from <= r.value < |xs| && xs[r.value] == x
    ensures r.Some? ==> forall j :: from <= j < r.value ==> xs[j] != x
    ensures r.None? ==> forall j :: from <= j < |xs| ==> xs[j] != x
    decreases |xs| - from
  {
    if from == |xs| then None
    else if xs[from] == x then Some(from)
    else IndexFrom(xs, x, from + 1)
  }

  /** `months.index(month) + 1`: the calendar number of a month name; an
      unknown name raises. */
  function MonthNumberOf(name: string): (r: Result<int>)
    ensures r.Success? <==> name in FullMonths
    ensures r.Success? ==> 1 <= r.value <= |FullMonths| && FullMonths[r.value - 1] == name
    ensures r.Failure? ==> r.error == UnknownMonthName
  {
    match IndexFrom(FullMonths, name, 0)
    case Some(i) => Success(i + 1)
    case None => Failure(UnknownMonthName)
  }

  /** What a row must match: a month number and a weekday label, each optional. */
  datatype Criterion = Criterion(month: Option<int>, day: Option<string>)

  predicate Matches(t: Trip, c: Criterion) {
    && (c.month.None? || t.month == c.month.value)
    && (c.day.None? || DayName(t.weekday) == c.day.value)
  }

  /** The rows that match, in their original order. */
  function Select(rows: seq<Trip>, c: Criterion): (r: seq<Trip>)
    ensures |r| <= |rows|
    ensures forall t :: t in r ==> t in rows && Matches(t, c)
    ensures forall t :: t in rows && Matches(t, c) ==> t in r
    decreases |rows|
  {
    if |rows| == 0 then []
    else (if Matches(rows[0], c) then [rows[0]] else []) + Select(rows[1..], c)
  }

  /** Filtering keeps every matching row as many times as it occurs, so
      identical trips are all counted, and drops every other row. */
  lemma {:induction false} SelectKeepsCounts(rows: seq<Trip>, c: Criterion)
    ensures forall t :: multiset(Select(rows, c))[t] == if Matches(t, c) then multiset(rows)[t] else 0
    decreases |rows|
  {
    if |rows| > 0 {
      SelectKeepsCounts(rows[1..], c);
      assert rows == [rows[0]] + rows[1..];
    }
  }

  /** `a` is `b` with some rows left out and the rest in the same order. */
  ghost predicate SubsequenceOf(a: seq<Trip>, b: seq<Trip>)
    decreases |b|
  {
    if |a| == 0 then true
    else if |b| == 0 then false
    else (a[0] == b[0] && SubsequenceOf(a[1..], b[1..])) || SubsequenceOf(a, b[1..])
  }

  /** Filtering keeps the rows' order: the result is a subsequence of the input. */
  lemma {:induction false} SelectIsSubsequence(rows: seq<Trip>, c: Criterion)
    ensures SubsequenceOf(Select(rows, c), rows)
    decreases |rows|
  {
    if |rows| > 0 {
      SelectIsSubsequence(rows[1..], c);
      var r, rest := Select(rows, c), Select(rows[1..], c);
      if Matches(rows[0], c) {
        assert r[0] == rows[0] && r[1..] == rest;
      } else {
        assert r == rest;
      }
    }
  }

  /** Filtering again with the same criterion changes nothing. */
  lemma {:induction false} SelectIdempotent(rows: seq<Trip>, c: Criterion)
    ensures Select(Select(rows, c), c) == Select(rows, c)
    decreases |rows|
  {
    if |rows| > 0 {
      SelectIdempotent(rows[1..], c);
      var r, rest := Select(rows, c), Select(rows[1..], c);
      if Matches(rows[0], c) {
        assert r == [rows[0]] + rest;
        assert r[1..] == rest;
        assert Select(r, c) == [rows[0]] + Select(rest, c);
      } else {
        assert r == rest;
      }
    }
  }

  /** A criterion that asks for nothing keeps every row. */
  lemma {:induction false} SelectEverything(rows: seq<Trip>)
    ensures Select(rows, Criterion(None, None)) == rows
    decreases |rows|
  {
    if |rows| > 0 {
      SelectEverything(rows[1..]);
      assert rows == [rows[0]] + rows[1..];
    }
  }

  /** Filtering by month and day at once is filtering by month, then by day. */
  lemma {:induction false} SelectBoth(rows: seq<Trip>, month: Option<int>, day: Option<string>)
    ensures Select(rows, Criterion(month, day))
         == Select(Select(rows, Criterion(month, None)), Criterion(None, day))
    decreases |rows|
  {
    if |rows| > 0 {
      SelectBoth(rows[1..], month, day);
      var both, byMonth, byDay := Criterion(month, day), Criterion(month, None), Criterion(None, day);
      var rest := Select(rows[1..], byMonth);
      var m := Select(rows, byMonth);
      assert Select(rows, both) == (if Matches(rows[0], both) then [rows[0]] else []) + Select(rows[1..], both);
      if Matches(rows[0], byMonth) {
        assert m == [rows[0]] + rest;
        assert m[1..] == rest;
        assert Select(m, byDay) == (if Matches(rows[0], byDay) then [rows[0]] else []) + Select(rest, byDay);
      } else {
        assert m == rest;
      }
    }
  }

  /** The criterion for a month name or "all" and a day name or "all"; an
      unknown month name raises, a day name is compared title-cased. */
  function CriterionOf(month: string, day: string): (r: Result<Criterion>)
    ensures r.Failure? <==> month != AllValues && month !in FullMonths
    ensures r.Success? ==> (r.value.month.None? <==> month == AllValues)
    ensures r.Success? && month != AllValues ==>
              1 <= r.value.month.value <= |FullMonths| && FullMonths[r.value.month.value - 1] == month
    ensures r.Success? ==> (r.value.day.None? <==> day == AllValues)
    ensures r.Success? && day != AllValues ==> r.value.day.value == Title(day)
  {
    var dayLabel := if day == AllValues then None else Some(Title(day));
    if month == AllValues then Success(Criterion(None, dayLabel))
    else
      match MonthNumberOf(month)
      case Failure(e) => Failure(e)
      case Success(n) => Success(Criterion(Some(n), dayLabel))
  }

  /** A row the loader keeps for the month name or "all" and the day name
      or "all": it is of the named month, and its weekday name equals the
      title-cased day name. */
  predicate Wanted(t: Trip, month: string, day: string) {
    && (month == AllValues || (t.month <= |FullMonths| && FullMonths[t.month - 1] == month))
    && (day == AllValues || DayName(t.weekday) == Title(day))
  }

  /** The filtering part of the loader: keep the rows of the named month,
      then those of the named day of the week; "all" keeps every row. */
  function FilterRows(rows: seq<Trip>, month: string, day: string): (r: Result<seq<Trip>>)
    ensures r.Failure? <==> month != AllValues && month !in FullMonths
    ensures r.Failure? ==> r.error == UnknownMonthName
    ensures r.Success? ==> forall t :: t in r.value ==> t in rows && Wanted(t, month, day)
    ensures r.Success? ==> forall t :: t in rows && Wanted(t, month, day) ==> t in r.value
    ensures r.Success? ==> forall t ::
              multiset(r.value)[t] == if Wanted(t, month, day) then multiset(rows)[t] else 0
  {
    match CriterionOf(month, day)
    case Failure(e) => Failure(e)
    case Success(c) =>
      assert forall t :: Matches(t, c) <==> Wanted(t, month, day);
      SelectKeepsCounts(rows, c);
      Success(Select(rows, c))
  }

  /** Filtering by "all" and "all" is the identity. */
  lemma FilterRowsAllIsIdentity(rows: seq<Trip>)
    ensures FilterRows(rows, AllValues, AllValues) == Success(rows)
  {
    SelectEverything(rows);
  }

  /** The filtered rows are the input rows with some left out, in the same order. */
  lemma FilterRowsKeepsOrder(rows: seq<Trip>, month: string, day: string)
    requires FilterRows(rows, month, day).Success?
    ensures SubsequenceOf(FilterRows(rows, month, day).value, rows)
  {
    SelectIsSubsequence(rows, CriterionOf(month, day).value);
  }

  /** Applying the same filter to its own result changes nothing. */
  lemma FilterRowsIdempotent(rows: seq<Trip>, month: string, day: string)
    requires FilterRows(rows, month, day).Success?
    ensures FilterRows(FilterRows(rows, month, day).value, month, day) == FilterRows(rows, month, day)
  {
    SelectIdempotent(rows, CriterionOf(month, day).value);
  }

  /** The loader's two filter steps, first by month and then by day, select
      the same rows as the single criterion. */
  lemma FilterRowsIsMonthThenDay(rows: seq<Trip>, month: string, day: string)
    requires FilterRows(rows, month, day).Success?
    ensures FilterRows(FilterRows(rows, month, AllValues).value, AllValues, day)
         == FilterRows(rows, month, day)
  {
    var c := CriterionOf(month, day).value;
    SelectBoth(rows, c.month, c.day);
  }

  lemma MonthDataNamesAreKnown(m: string)
    requires m in MonthData.Values
    ensures m in FullMonths
  {
  }

  /** The day code under which the day question's table holds a weekday's name. */
  function DayCode(w: Weekday): string {
    match w
    case Monday => "mon"
    case Tuesday => "tue"
    case Wednesday => "wed"
    case Thursday => "thu"
    case Friday => "fri"
    case Saturday => "sat"
    case Sunday => "sun"
  }

  /** A weekday's lower-cased name is the table's entry for its code. */
  lemma LowerDayName(w: Weekday)
    ensures DayCode(w) in DayData && Lower(DayName(w)) == DayData[DayCode(w)]
  {
    LowerCapitalized(DayName(w));
  }

  /** Every code of the day question's table is some weekday's code. */
  lemma DayCodesCoverTable(c: string)
    requires c in DayData
    ensures exists w :: DayCode(w) == c
  {
    var w :=
      if c == "mon" then Monday else if c == "tue" then Tuesday else if c == "wed" then Wednesday
      else if c == "thu" then Thursday else if c == "fri" then Friday else if c == "sat" then Saturday
      else Sunday;
    assert DayCode(w) == c;
  }

  /** Different weekdays have different lower-cased names. */
  lemma LowerDayNameInjective(w: Weekday, v: Weekday)
    requires Lower(DayName(w)) == Lower(DayName(v))
    ensures w == v
  {
    LowerOfCapitalized(DayName(w));
    LowerOfCapitalized(DayName(v));
  }

  lemma DayDataNamesAreWords(d: string)
    requires d in DayData.Values
    ensures Word(d)
  {
  }

  /** For a selection the collector can return, the filter never raises, and
      a row is kept exactly when its month name and its lower-cased weekday
      name agree with the selection. */
  lemma ValidSelectionFilter(rows: seq<Trip>, s: Selection)
    requires ValidSelection(s)
    ensures FilterRows(rows, s.month, s.day).Success?
    ensures forall t :: t in rows ==>
              (t in FilterRows(rows, s.month, s.day).value <==>
                 && (s.month == AllValues || (t.month <= |FullMonths| && FullMonths[t.month - 1] == s.month))
                 && (s.day == AllValues || Lower(DayName(t.weekday)) == s.day))
  {
    if s.month != AllValues {
      MonthDataNamesAreKnown(s.month);
    }
    if s.day != AllValues {
      DayDataNamesAreWords(s.day);
      forall w: Weekday {
        TitleMatchesIffLowerMatches(s.day, DayName(w));
      }
    }
  }

  /** The loader: the city's file, its rows filtered by month and day. */
  function LoadData(city: string, month: string, day: string, files: map<string, Table>): (r: Result<Table>)
    ensures r.Failure? <==>
              || city !in CityData
              || CityData[city] !in files
              || (month != AllValues && month !in FullMonths)
    ensures city !in CityData ==> r == Failure(UnknownCity)
    ensures city in CityData && CityData[city] !in files ==> r == Failure(MissingFile)
    ensures city in CityData && CityData[city] in files && month != AllValues && month !in FullMonths ==>
              r == Failure(UnknownMonthName)
    ensures r.Success? ==>
              var file := files[CityData[city]];
              && r.value.hasGender == file.hasGender
              && r.value.hasBirthYear == file.hasBirthYear
              && Success(r.value.rows) == FilterRows(file.rows, month, day)
  {
    if city !in CityData then Failure(UnknownCity)
    else if CityData[city] !in files then Failure(MissingFile)
    else
      var file := files[CityData[city]];
      var rows :- FilterRows(file.rows, month, day);
      Success(file.(rows := rows))
  }
}
