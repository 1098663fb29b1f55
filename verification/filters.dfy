/** The filter collector: asks for a city, a month and a day of the week, each
    with at most three attempts, and expands the accepted short codes. The
    user's answers are a sequence of responses; each question consumes a
    prefix of it and leaves the rest for the next one. */
module Filters {

  import opened Base
  import opened Text

  /** City key to the name of the city's data file. */
  const CityData: map<string, string> :=
    map["chi" := "chicago.csv", "nyc" := "new_york_city.csv", "wash" := "washington.csv"]

  /** Month short code to the month name the loader expects. */
  const MonthData: map<string, string> :=
    map["jan" := "january", "feb" := "february", "mar" := "march",
        "apr" := "april", "may" := "may", "jun" := "june"]

  /** Day short code to the day name the loader expects. */
  const DayData: map<string, string> :=
    map["sun" := "sunday", "mon" := "monday", "tue" := "tuesday", "wed" := "wednesday",
        "thu" := "thursday", "fri" := "friday", "sat" := "saturday"]

  const AllValues := "all"

  /** How many answers each question accepts before giving up. */
  const MaxAttempts: nat := 3

  /** `rest` is what is left of `rs` after a prefix of it was consumed. */
  predicate SuffixOf(rest: seq<string>, rs: seq<string>) {
    |rest| <= |rs| && rest == rs[|rs| - |rest|..]
  }

  lemma SuffixOfTransitive(a: seq<string>, b: seq<string>, c: seq<string>)
    requires SuffixOf(a, b) && SuffixOf(b, c)
    ensures SuffixOf(a, c)
  {
    assert c[|c| - |a|..] == c[|c| - |b|..][|b| - |a|..];
  }

  datatype Field = CityField | MonthField | DayField

  /** The answers a question accepts, after normalisation. */
  function Choices(field: Field): set<string> {
    match field
    case CityField => CityData.Keys
    case MonthField => {AllValues} + MonthData.Keys
    case DayField => {AllValues} + DayData.Keys
  }

  /** A city answer is lower-cased as a whole; a month or day answer is
      lower-cased and cut to its first three characters. */
  function Normalize(field: Field, response: string): (r: string)
    ensures field == CityField ==> |r| == |response|
    ensures field != CityField ==> |r| == Min(|response|, 3)
    ensures r <= Lower(response)
  {
    if field == CityField then Lower(response) else Truncate(Lower(response), 3)
  }

  /** An answer is read the same whatever the case of its letters. */
  lemma NormalizeIgnoresCase(field: Field, response: string)
    ensures Normalize(field, Lower(response)) == Normalize(field, response)
  {
    LowerIdempotent(response);
  }

  predicate Rejected(field: Field, response: string) {
    Normalize(field, response) !in Choices(field)
  }

  /** What one question ends with: the answer accepted at position `at` of the
      responses and the responses after it, all attempts rejected, or the
      responses running out first. */
  datatype Answer =
    | Accepted(value: string, at: nat, rest: seq<string>)
    | Exhausted(rest: seq<string>)
    | NoInput

  /** Every one of `answers` is rejected. */
  predicate AllRejected(field: Field, answers: seq<string>) {
    forall i :: 0 <= i < |answers| ==> Rejected(field, answers[i])
  }

  /** The retry loop from response `i` on, with `attempts` attempts left: each
      response is normalised and accepted if it is one of the choices; otherwise
      the next response is tried, until no attempts are left. */
  function AskFrom(field: Field, rs: seq<string>, i: nat, attempts: nat): (r: Answer)
    requires i <= |rs|
    ensures r.Accepted? ==>
      && i <= r.at < |rs| && r.at < i + attempts
      && r.rest == rs[r.at + 1..]
      && r.value == Normalize(field, rs[r.at])
      && r.value in Choices(field)
      && forall k :: i <= k < r.at ==> Rejected(field, rs[k])
    ensures r.Exhausted? ==>
      && i + attempts <= |rs|
      && r.rest == rs[i + attempts..]
      && forall k :: i <= k < i + attempts ==> Rejected(field, rs[k])
    ensures r.NoInput? ==>
      && |rs| < i + attempts
      && forall k :: i <= k < |rs| ==> Rejected(field, rs[k])
    decreases attempts
  {
    if attempts == 0 then Exhausted(rs[i..])
    else if i == |rs| then NoInput
    else if Normalize(field, rs[i]) in Choices(field) then Accepted(Normalize(field, rs[i]), i, rs[i + 1..])
    else AskFrom(field, rs, i + 1, attempts - 1)
  }

  /** One question with `attempts` attempts, asked from the first response. */
  function Ask(field: Field, rs: seq<string>, attempts: nat): (r: Answer)
    ensures r.Accepted? ==>
      && r.at < |rs| && r.at < attempts
      && r.rest == rs[r.at + 1..]
      && r.value == Normalize(field, rs[r.at])
      && r.value in Choices(field)
      && AllRejected(field, rs[..r.at])
    ensures r.Exhausted? ==>
      && attempts <= |rs|
      && r.rest == rs[attempts..]
      && AllRejected(field, rs[..attempts])
    ensures r.NoInput? ==>
      && |rs| < attempts
      && AllRejected(field, rs)
  {
    AskFrom(field, rs, 0, attempts)
  }

  datatype Pick = Pick(value: string, rest: seq<string>)

  /** The month or day question: three rejected answers fall back to "all". */
  function AskOrAll(field: Field, rs: seq<string>): (r: Result<Pick>)
    requires field != CityField
    ensures r.Success? ==> r.value.value in Choices(field)
    ensures r.Success? ==> SuffixOf(r.value.rest, rs) && |rs| - MaxAttempts <= |r.value.rest| < |rs|
    ensures r.Success? ==>
              var n := |rs| - |r.value.rest|;
              || (r.value.value == Normalize(field, rs[n - 1]) && AllRejected(field, rs[..n - 1]))
              || (n == MaxAttempts && AllRejected(field, rs[..n]) && r.value.value == AllValues)
    ensures r.Failure? ==> r.error == EndOfInput
  {
    var a := Ask(field, rs, MaxAttempts);
    if a.Accepted? then Success(Pick(a.value, a.rest))
    else if a.Exhausted? then Success(Pick(AllValues, a.rest))
    else Failure(EndOfInput)
  }

  /** Three rejected month (or day) answers select "all" and consume exactly three responses. */
  lemma AskOrAllDefaultsToAll(field: Field, rs: seq<string>)
    requires field != CityField
    requires |rs| >= MaxAttempts && forall i :: 0 <= i < MaxAttempts ==> Rejected(field, rs[i])
    ensures AskOrAll(field, rs) == Success(Pick(AllValues, rs[MaxAttempts..]))
  {
  }

  /** The month and day questions never fail, unless the responses run out
      before an answer is accepted or three are rejected. */
  lemma AskOrAllFailsOnlyAtEnd(field: Field, rs: seq<string>)
    requires field != CityField
    ensures AskOrAll(field, rs).Failure? <==>
              |rs| < MaxAttempts && forall i :: 0 <= i < |rs| ==> Rejected(field, rs[i])
  {
  }

  /** The filters chosen for one pass: a city key, a month name or "all", and
      a day name or "all"; or the invalid triple. */
  datatype Selection = Selection(city: string, month: string, day: string)

  const InvalidValue := "invalid"
  const Invalid := Selection(InvalidValue, InvalidValue, InvalidValue)

  lemma InvalidIsNoCity()
    ensures InvalidValue !in CityData
  {
  }

  /** A selection the loader can use: a known city and month and day names
      taken from the expansion tables. */
  predicate ValidSelection(s: Selection) {
    && s.city in CityData
    && (s.month == AllValues || s.month in MonthData.Values)
    && (s.day == AllValues || s.day in DayData.Values)
  }

  /** Expands an accepted month answer to its full name; "all" stays. */
  function ExpandMonth(code: string): (r: string)
    requires code in Choices(MonthField)
    ensures r == AllValues || r in MonthData.Values
    ensures Truncate(r, 3) == code
  {
    if code == AllValues then code else MonthData[code]
  }

  /** Expands an accepted day answer to its full name; "all" stays. */
  function ExpandDay(code: string): (r: string)
    requires code in Choices(DayField)
    ensures r == AllValues || r in DayData.Values
    ensures Truncate(r, 3) == code
  {
    if code == AllValues then code else DayData[code]
  }

  datatype Collected = Collected(selection: Selection, rest: seq<string>)

  /** The month and day questions that follow an accepted city, and the
      expansion of their short codes to full names. */
  function AskMonthAndDay(city: string, rs: seq<string>): (r: Result<Collected>)
    requires city in CityData
    ensures r.Success? ==> ValidSelection(r.value.selection) && r.value.selection.city == city
    ensures r.Success? ==> SuffixOf(r.value.rest, rs) && |rs| - |r.value.rest| <= 2 * MaxAttempts
    ensures r.Failure? ==> r.error == EndOfInput
  {
    var month :- AskOrAll(MonthField, rs);
    var day :- AskOrAll(DayField, month.rest);
    SuffixOfTransitive(day.rest, month.rest, rs);
    Success(Collected(Selection(city, ExpandMonth(month.value), ExpandDay(day.value)), day.rest))
  }

  /** The month is the expansion of the month question's answer and the day
      that of the day question's answer on the responses after it; the pair
      fails only when one of the two questions does. */
  lemma AskMonthAndDayExpands(city: string, rs: seq<string>)
    requires city in CityData
    ensures AskMonthAndDay(city, rs).Success? <==>
              AskOrAll(MonthField, rs).Success? && AskOrAll(DayField, AskOrAll(MonthField, rs).value.rest).Success?
    ensures AskMonthAndDay(city, rs).Success? ==>
              var month := AskOrAll(MonthField, rs).value;
              var day := AskOrAll(DayField, month.rest).value;
              && AskMonthAndDay(city, rs).value.selection.month == ExpandMonth(month.value)
              && AskMonthAndDay(city, rs).value.selection.day == ExpandDay(day.value)
              && AskMonthAndDay(city, rs).value.rest == day.rest
  {
  }

  /** Response `i` is the city answer the collector accepts: it is one of the
      three attempts, every earlier answer was rejected, and it is a city key
      once lower-cased. */
  predicate CityAt(rs: seq<string>, i: int) {
    0 <= i < MaxAttempts && i < |rs| && AllRejected(CityField, rs[..i]) && Lower(rs[i]) in CityData
  }

  /** At most one response is the accepted city answer. */
  lemma CityAtUnique(rs: seq<string>, i: int, j: int)
    requires CityAt(rs, i) && CityAt(rs, j)
    ensures i == j
  {
  }

  /** The city question accepts response `i` exactly when `i` is the
      accepted city answer. */
  lemma AskFindsCity(rs: seq<string>)
    ensures forall i :: CityAt(rs, i) <==>
              Ask(CityField, rs, MaxAttempts).Accepted? && i == Ask(CityField, rs, MaxAttempts).at
  {
    var a := Ask(CityField, rs, MaxAttempts);
    match a
    case NoInput =>
      forall i | 0 <= i < |rs| ensures !CityAt(rs, i) {
        assert rs[..|rs|][i] == rs[i];
      }
    case Exhausted(_) =>
      forall i | 0 <= i < MaxAttempts && i < |rs| ensures !CityAt(rs, i) {
        assert rs[..MaxAttempts][i] == rs[i];
      }
    case Accepted(_, at, _) =>
      assert CityAt(rs, at);
      forall i | CityAt(rs, i) ensures i == at {
        CityAtUnique(rs, i, at);
      }
  }

  /** The whole filter collection: city, then month, then day. A city that is
      rejected three times yields the invalid triple at once, without asking
      for a month or a day. */
  function GetFilters(rs: seq<string>): (r: Result<Collected>)
    ensures r.Success? ==> SuffixOf(r.value.rest, rs) && |r.value.rest| < |rs|
    ensures r.Success? && r.value.selection.city == InvalidValue <==>
              |rs| >= MaxAttempts && forall i :: 0 <= i < MaxAttempts ==> Rejected(CityField, rs[i])
    ensures r.Success? && r.value.selection.city == InvalidValue ==>
              r.value.selection == Invalid && r.value.rest == rs[MaxAttempts..]
    ensures r.Success? && r.value.selection.city != InvalidValue ==>
              ValidSelection(r.value.selection) && |rs| - |r.value.rest| <= 3 * MaxAttempts
    ensures r.Failure? ==> r.error == EndOfInput
  {
    match Ask(CityField, rs, MaxAttempts)
    case NoInput => Failure(EndOfInput)
    case Exhausted(rest) => Success(Collected(Invalid, rest))
    case Accepted(city, at, rest) =>
      InvalidIsNoCity();
      var r := AskMonthAndDay(city, rest);
      if r.Success? then
        SuffixOfTransitive(r.value.rest, rest, rs);
        r
      else r
  }

  /** The collector takes the first accepted city answer and goes on with the
      month and day questions on the responses after it; with no accepted
      city among fewer than three responses, input runs out. */
  lemma GetFiltersTakesFirstCity(rs: seq<string>)
    ensures forall i :: CityAt(rs, i) ==> GetFilters(rs) == AskMonthAndDay(Lower(rs[i]), rs[i + 1..])
    ensures (forall i :: !CityAt(rs, i)) && |rs| < MaxAttempts ==> GetFilters(rs) == Failure(EndOfInput)
  {
    AskFindsCity(rs);
    var a := Ask(CityField, rs, MaxAttempts);
    if a.Accepted? {
      assert a.value == Lower(rs[a.at]) && a.rest == rs[a.at + 1..];
      assert GetFilters(rs) == AskMonthAndDay(a.value, a.rest);
    }
  }

  lemma CityAnswerIgnoresCase(rs: seq<string>)
    ensures Ask(CityField, ["CHI"] + rs, MaxAttempts) == Accepted("chi", 0, rs)
  {
    assert Lower("CHI") == "chi";
    assert (["CHI"] + rs)[1..] == rs;
  }

  lemma MonthAnswerKeepsThreeLetters(rs: seq<string>)
    ensures AskOrAll(MonthField, ["January"] + rs) == Success(Pick("jan", rs))
  {
    var responses := ["January"] + rs;
    assert Ask(MonthField, responses, MaxAttempts) == Accepted("jan", 0, rs) by {
      assert Normalize(MonthField, responses[0]) == "jan" by { assert Lower("January") == "january"; }
      assert responses[1..] == rs;
    }
  }

  lemma DayAnswerIgnoresCase(rs: seq<string>)
    ensures AskOrAll(DayField, ["Mon"] + rs) == Success(Pick("mon", rs))
  {
    assert Normalize(DayField, "Mon") == "mon" by { assert Lower("Mon") == "mon"; }
    assert (["Mon"] + rs)[1..] == rs;
  }

  lemma ExpandedNames()
    ensures ExpandMonth("jan") == "january" && ExpandDay("mon") == "monday"
  {
  }

  /** Month and day answers count only by their first three letters, in any
      letter case: "January" and "Mon" select January and Monday. */
  lemma FullNamesAreAccepted()
    ensures AskMonthAndDay("chi", ["January", "Mon"]) == Success(Collected(Selection("chi", "january", "monday"), []))
  {
    var rs := ["January", "Mon"];
    assert rs == ["January"] + ["Mon"];
    assert ["Mon"] == ["Mon"] + [];
    MonthAnswerKeepsThreeLetters(["Mon"]);
    DayAnswerIgnoresCase([]);
    ExpandedNames();
  }

  /** The whole collection for "CHI", "January", "Mon": Chicago, January,
      Monday, with every response consumed. */
  lemma AnswersInAnyCase()
    ensures GetFilters(["CHI", "January", "Mon"]) == Success(Collected(Selection("chi", "january", "monday"), []))
  {
    assert ["CHI", "January", "Mon"] == ["CHI"] + ["January", "Mon"];
    CityAnswerIgnoresCase(["January", "Mon"]);
    FullNamesAreAccepted();
  }
}
