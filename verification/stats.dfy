/** The aggregations behind the four statistics reports: the most common value
    of a column with its number of rows, the 12-hour clock label, the
    hours:minutes:seconds split of a total duration, the start/end station
    combination, and the range of birth years. */
module Stats {

  import opened Base
  import opened Text
  import opened Trips

  /** A cell of a data column: a number or a string. */
  datatype Value = Num(n: int) | Str(s: string)

  /** The order pandas sorts tied modes in: numbers by value, strings as
      Python compares them. A column never mixes the two. */
  predicate Before(a: Value, b: Value) {
    match (a, b)
    case (Num(x), Num(y)) => x < y
    case (Str(x), Str(y)) => Precedes(x, y)
    case (Num(_), Str(_)) => true
    case (Str(_), Num(_)) => false
  }

  lemma BeforeIrreflexive(a: Value)
    ensures !Before(a, a)
  {
    if a.Str? {
      PrecedesIrreflexive(a.s);
    }
  }

  lemma BeforeTransitive(a: Value, b: Value, c: Value)
    requires Before(a, b) && Before(b, c)
    ensures Before(a, c)
  {
    if a.Str? && b.Str? && c.Str? {
      PrecedesTransitive(a.s, b.s, c.s);
    }
  }

  lemma BeforeTotal(a: Value, b: Value)
    requires a != b
    ensures Before(a, b) || Before(b, a)
  {
    if a.Str? && b.Str? {
      PrecedesTotal(a.s, b.s);
    }
  }

  /** `v` is what `col.mode()[0]` reports and `c` the number of rows equal to
      it: no value occurs more often, and among the values that occur as often
      `v` comes first. */
  ghost predicate IsMode(xs: seq<Value>, v: Value, c: nat) {
    && v in xs
    && c == multiset(xs)[v]
    && (forall y :: multiset(xs)[y] <= c)
    && (forall y :: multiset(xs)[y] == c ==> y == v || Before(v, y))
  }

  /** `m` is at least as good a mode candidate as `y`. */
  ghost predicate Outranks(xs: seq<Value>, m: Value, y: Value) {
    || multiset(xs)[y] < multiset(xs)[m]
    || (multiset(xs)[y] == multiset(xs)[m] && (y == m || Before(m, y)))
  }

  /** The best mode candidate among the first `k` cells. */
  function Leader(xs: seq<Value>, k: nat): (m: Value)
    requires 0 < k <= |xs|
    ensures m in xs[..k]
    ensures forall j :: 0 <= j < k ==> Outranks(xs, m, xs[j])
    decreases k
  {
    if k == 1 then xs[0]
    else
      var m := Leader(xs, k - 1);
      var x := xs[k - 1];
      assert xs[..k] == xs[..k - 1] + [x];
      if multiset(xs)[x] > multiset(xs)[m] || (multiset(xs)[x] == multiset(xs)[m] && Before(x, m)) then
        assert forall j :: 0 <= j < k - 1 ==> Outranks(xs, x, xs[j]) by {
          forall j | 0 <= j < k - 1
            ensures Outranks(xs, x, xs[j])
          {
            if multiset(xs)[x] == multiset(xs)[m] && multiset(xs)[xs[j]] == multiset(xs)[m] && xs[j] != m {
              BeforeTransitive(x, m, xs[j]);
            }
          }
        }
        x
      else
        assert x == m || Before(x, m) || Before(m, x) by {
          if x != m {
            BeforeTotal(x, m);
          }
        }
        m
  }

  /** `col.mode()[0]` with `col[col == mode].count()`. pandas raises on an
      empty column; here that case is excluded and handled by the callers. */
  function Mode(xs: seq<Value>): (r: (Value, nat))
    requires |xs| > 0
    ensures IsMode(xs, r.0, r.1)
  {
    var m := Leader(xs, |xs|);
    assert xs[..|xs|] == xs;
    assert forall y :: multiset(xs)[y] <= multiset(xs)[m] by {
      forall y
        ensures multiset(xs)[y] <= multiset(xs)[m]
      {
        if y in xs {
          var j :| 0 <= j < |xs| && xs[j] == y;
          assert Outranks(xs, m, xs[j]);
        }
      }
    }
    assert forall y :: multiset(xs)[y] == multiset(xs)[m] ==> y == m || Before(m, y) by {
      forall y | multiset(xs)[y] == multiset(xs)[m]
        ensures y == m || Before(m, y)
      {
        var j :| 0 <= j < |xs| && xs[j] == y;
        assert Outranks(xs, m, xs[j]);
      }
    }
    (m, multiset(xs)[m])
  }

  /** The mode and its count are determined by the column alone: whichever
      order the values were met in, the same value is reported. */
  lemma ModeIsUnique(xs: seq<Value>, v: Value, c: nat, w: Value, d: nat)
    requires IsMode(xs, v, c) && IsMode(xs, w, d)
    ensures v == w && c == d
  {
    assert multiset(xs)[w] <= c && multiset(xs)[v] <= d;
    if v != w {
      BeforeTotal(v, w);
      if Before(v, w) && Before(w, v) {
        BeforeTransitive(v, w, v);
        BeforeIrreflexive(v);
      }
    }
  }

  /** Once one value and count are known to be the mode, every other claim
      to be the mode names the same value and count. */
  lemma ModeDetermines(xs: seq<Value>, v: Value, c: nat)
    requires IsMode(xs, v, c)
    ensures forall w, d :: IsMode(xs, w, d) ==> w == v && d == c
  {
    forall w, d | IsMode(xs, w, d)
      ensures w == v && d == c
    {
      ModeIsUnique(xs, v, c, w, d);
    }
  }

  /** The string the station report builds for a trip's start and end. */
  const ComboSeparator := " to "

  /** `start + ' to ' + end`: the start station, the separator and the end
      station, in that order. */
  function Combo(start: string, end: string): (r: string)
    ensures |r| == |start| + |ComboSeparator| + |end|
    ensures r[..|start|] == start
    ensures r[|start|..|start| + |ComboSeparator|] == ComboSeparator
    ensures r[|start| + |ComboSeparator|..] == end
  {
    start + ComboSeparator + end
  }

  /** Two trips from the same start station have the same combination string
      only when they end at the same station. */
  lemma ComboDeterminesEnd(start: string, end1: string, end2: string)
    requires Combo(start, end1) == Combo(start, end2)
    ensures end1 == end2
  {
    assert end1 == Combo(start, end1)[|start| + |ComboSeparator|..];
  }

  /** The columns the reports take the mode of. */
  datatype Column = MonthColumn | DayColumn | HourColumn | StartColumn | EndColumn | ComboColumn

  function Cell(t: Trip, col: Column): Value {
    match col
    case MonthColumn => Num(t.month)
    case DayColumn => Str(DayName(t.weekday))
    case HourColumn => Num(t.hour)
    case StartColumn => Str(t.startStation)
    case EndColumn => Str(t.endStation)
    case ComboColumn => Str(Combo(t.startStation, t.endStation))
  }

  function ColumnOf(rows: seq<Trip>, col: Column): seq<Value> {
    seq(|rows|, i requires 0 <= i < |rows| => Cell(rows[i], col))
  }

  lemma InColumn(rows: seq<Trip>, col: Column, v: Value)
    requires v in ColumnOf(rows, col)
    ensures exists i :: 0 <= i < |rows| && v == Cell(rows[i], col)
  {
  }

  /** An hour on the 12-hour clock as the time report prints it. */
  datatype ClockHour = ClockHour(hour: int, suffix: string)

  /** Reads a 12-hour label back as an hour of the day. */
  function Hour24(c: ClockHour): int {
    if c.suffix == "PM" then c.hour + 12 else c.hour
  }

  /** The time report's 12-hour label: hours after 12 lose 12 and are "PM",
      every other hour, 0 and 12 included, is kept and is "AM". */
  function HourLabel(h: Hour): (r: ClockHour)
    ensures 0 <= r.hour <= 12
    ensures r.suffix == "PM" <==> h > 12
    ensures r.suffix == "AM" <==> h <= 12
    ensures r.suffix == "PM" ==> 1 <= r.hour <= 11
    ensures Hour24(r) == h
  {
    if h > 12 then ClockHour(h - 12, "PM") else ClockHour(h, "AM")
  }

  /** No two hours of the day get the same label. */
  lemma HourLabelInjective(h1: Hour, h2: Hour)
    requires HourLabel(h1) == HourLabel(h2)
    ensures h1 == h2
  {
    assert Hour24(HourLabel(h1)) == Hour24(HourLabel(h2));
  }

  datatype Hms = Hms(hours: nat, minutes: nat, seconds: nat)

  /** `divmod` by 60 twice: a number of seconds as hours, minutes and seconds. */
  function ToHms(total: nat): (r: Hms)
    ensures r.hours * 3600 + r.minutes * 60 + r.seconds == total
    ensures r.minutes < 60 && r.seconds < 60
  {
    var minutes := total / 60;
    Hms(minutes / 60, minutes % 60, total % 60)
  }

  /** The decomposition is the only one with minutes and seconds below 60. */
  lemma ToHmsInvertsComposition(h: nat, m: nat, s: nat)
    requires m < 60 && s < 60
    ensures ToHms(h * 3600 + m * 60 + s) == Hms(h, m, s)
  {
    var total := h * 3600 + m * 60 + s;
    assert total == (h * 60 + m) * 60 + s;
    assert total / 60 == h * 60 + m;
    assert total % 60 == s;
  }

  /** `df['Trip Duration'].sum()`. */
  function TotalDuration(rows: seq<Trip>): (r: nat)
    ensures forall i :: 0 <= i < |rows| ==> rows[i].duration <= r
    ensures r == 0 <==> forall i :: 0 <= i < |rows| ==> rows[i].duration == 0
    ensures |rows| == 1 ==> r == rows[0].duration
    decreases |rows|
  {
    if |rows| == 0 then 0 else rows[0].duration + TotalDuration(rows[1..])
  }

  /** The total of two runs of trips is the sum of their totals. */
  lemma {:induction false} TotalDurationAppend(a: seq<Trip>, b: seq<Trip>)
    ensures TotalDuration(a + b) == TotalDuration(a) + TotalDuration(b)
    decreases |a|
  {
    if |a| > 0 {
      assert (a + b)[1..] == a[1..] + b;
      TotalDurationAppend(a[1..], b);
    } else {
      assert a + b == b;
    }
  }

  /** The smallest value, `Series.min()`. */
  function MinOf(xs: seq<int>): (r: int)
    requires |xs| > 0
    ensures r in xs
    ensures forall x :: x in xs ==> r <= x
    decreases |xs|
  {
    if |xs| == 1 then xs[0]
    else
      var m := MinOf(xs[1..]);
      assert forall x :: x in xs ==> x == xs[0] || x in xs[1..];
      if xs[0] <= m then xs[0] else m
  }

  /** The largest value, `Series.max()`. */
  function MaxOf(xs: seq<int>): (r: int)
    requires |xs| > 0
    ensures r in xs
    ensures forall x :: x in xs ==> x <= r
    decreases |xs|
  {
    if |xs| == 1 then xs[0]
    else
      var m := MaxOf(xs[1..]);
      assert forall x :: x in xs ==> x == xs[0] || x in xs[1..];
      if xs[0] >= m then xs[0] else m
  }

  /** The values a column holds, leaving out the missing ones, in row order. */
  function Present<T(!new)>(col: seq<Option<T>>): (r: seq<T>)
    ensures |r| + multiset(col)[None] == |col|
    ensures forall v :: multiset(r)[v] == multiset(col)[Some(v)]
    decreases |col|
  {
    if |col| == 0 then []
    else
      var rest := Present(col[1..]);
      assert col == [col[0]] + col[1..];
      if col[0].Some? then [col[0].value] + rest else rest
  }
}
