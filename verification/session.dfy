/** The session driver: collect the filters, load the data, run the four
    reports, page through the raw rows on request, and start over or stop.
    The user's answers are a sequence of responses consumed from the front;
    the data files are a map from file name to its table. */
module Session {

  import opened Base
  import opened Text
  import opened Filters
  import opened Trips
  import opened Stats
  import opened Reports

  /** Rows shown per page of raw data. */
  const PageSize: nat := 5

  /** The only answer that shows (more) raw data; it is compared as typed. */
  const Yes := "yes"

  /** `df[5k : 5k + 5]`: page `k` of the raw rows, cut short at the end of
      the data and empty beyond it. */
  function Page(rows: seq<Trip>, k: nat): (r: seq<Trip>)
    ensures |r| <= PageSize
    ensures |r| == 0 <==> PageSize * k >= |rows|
    ensures |r| == Min(PageSize, |rows| - PageSize * k) || PageSize * k >= |rows|
    ensures forall i :: 0 <= i < |r| ==> PageSize * k + i < |rows| && r[i] == rows[PageSize * k + i]
  {
    var lo := Min(PageSize * k, |rows|);
    var hi := Min(PageSize * k + PageSize, |rows|);
    rows[lo..hi]
  }

  /** The pages shown, one after the other. */
  function Flatten(pages: seq<seq<Trip>>): seq<Trip>
    decreases |pages|
  {
    if |pages| == 0 then [] else Flatten(pages[..|pages| - 1]) + pages[|pages| - 1]
  }

  /** Pages 0, 1, ... shown in order display the data from its first row
      onwards, each row once, with nothing skipped. */
  lemma {:induction false} PagesShowPrefix(rows: seq<Trip>, pages: seq<seq<Trip>>)
    requires forall k :: 0 <= k < |pages| ==> pages[k] == Page(rows, k)
    ensures Flatten(pages) == rows[..Min(PageSize * |pages|, |rows|)]
    decreases |pages|
  {
    if |pages| > 0 {
      var n := |pages| - 1;
      PagesShowPrefix(rows, pages[..n]);
      var lo := Min(PageSize * n, |rows|);
      var hi := Min(PageSize * n + PageSize, |rows|);
      assert pages[n] == rows[lo..hi];
      assert rows[..lo] + rows[lo..hi] == rows[..hi];
    }
  }

  datatype Paged = Paged(pages: seq<seq<Trip>>, rest: seq<string>)

  /** The raw-data loop from page `k` on: each response that is exactly "yes"
      shows the next page; the first other response ends the loop. */
  function Paging(rows: seq<Trip>, rs: seq<string>, k: nat): (r: Result<Paged>)
    ensures r.Success? ==>
              && |r.value.pages| < |rs|
              && r.value.rest == rs[|r.value.pages| + 1..]
              && rs[|r.value.pages|] != Yes
              && (forall i :: 0 <= i < |r.value.pages| ==> rs[i] == Yes)
              && (forall i :: 0 <= i < |r.value.pages| ==> r.value.pages[i] == Page(rows, k + i))
    ensures r.Failure? ==> r.error == EndOfInput
    decreases |rs|
  {
    if |rs| == 0 then Failure(EndOfInput)
    else if rs[0] != Yes then Success(Paged([], rs[1..]))
    else
      match Paging(rows, rs[1..], k + 1)
      case Failure(e) => Failure(e)
      case Success(p) =>
        var pages := [Page(rows, k)] + p.pages;
        assert forall i :: 1 <= i < |pages| ==> pages[i] == p.pages[i - 1];
        assert rs[|pages|..] == rs[1..][|p.pages|..];
        Success(Paged(pages, p.rest))
  }

  /** The raw-data loop fails only when input runs out while every answer
      so far was "yes". */
  lemma {:induction false} PagingFailsOnlyAtEnd(rows: seq<Trip>, rs: seq<string>, k: nat)
    ensures Paging(rows, rs, k).Failure? <==> forall i :: 0 <= i < |rs| ==> rs[i] == Yes
    decreases |rs|
  {
    if |rs| > 0 && rs[0] == Yes {
      PagingFailsOnlyAtEnd(rows, rs[1..], k + 1);
      assert forall i :: 1 <= i < |rs| ==> rs[i] == rs[1..][i - 1];
    }
  }

  /** All four reports, in the order the program runs them. */
  datatype Summary = Summary(time: TimeReport, stations: StationReport, durations: DurationReport, users: UserReport)

  function Summarize(table: Table): (r: Result<Summary>)
    ensures r.Failure? <==>
              || TimeStats(table.rows).Failure?
              || UserStats(table).Failure?
    ensures r.Failure? ==>
              r.error == if TimeStats(table.rows).Failure? then TimeStats(table.rows).error else UserStats(table).error
    ensures r.Success? ==>
              && Success(r.value.time) == TimeStats(table.rows)
              && Success(r.value.stations) == StationStats(table.rows)
              && r.value.durations == DurationStats(table.rows)
              && Success(r.value.users) == UserStats(table)
  {
    match TimeStats(table.rows)
    case Failure(e) => Failure(e)
    case Success(time) =>
      // the station report fails only on no rows, where the time report already failed
      var stations := StationStats(table.rows).value;
      match UserStats(table)
      case Failure(e) => Failure(e)
      case Success(users) => Success(Summary(time, stations, DurationStats(table.rows), users))
  }

  /** One completed pass: the filters, the filtered data, its reports, the
      raw pages shown, and the answer to the restart question. */
  datatype Pass = Pass(selection: Selection, data: Table, summary: Summary, pages: seq<seq<Trip>>, restart: string)

  /** How a session ends. */
  datatype Ending = InvalidCity | Declined | Crashed(error: Error)

  /** What one pass through the loop leads to: another pass with the
      remaining responses, or the end of the session. */
  datatype Step =
    | Continue(pass: Pass, rest: seq<string>)
    | Stop(last: Option<Pass>, ending: Ending)

  /** A pass made from valid filters, whose pages are the raw pages in order. */
  ghost predicate WellFormedPass(p: Pass) {
    && ValidSelection(p.selection)
    && forall k :: 0 <= k < |p.pages| ==> p.pages[k] == Page(p.data.rows, k)
  }

  /** The restart answer asks for another pass: "yes" in any letter case. */
  predicate Again(p: Pass) {
    Lower(p.restart) == Yes
  }

  /** The pass a step completed, if it completed one. */
  function Recorded(r: Step): Option<Pass> {
    match r
    case Continue(p, _) => Some(p)
    case Stop(last, _) => last
  }

  /** A step continues only after a well-formed pass whose restart answer is
      "yes" and with fewer responses left; a completed pass that stops was
      declined; and a declined session has a last pass. */
  ghost predicate Orderly(r: Step, rs: seq<string>) {
    && (r.Continue? ==> |r.rest| < |rs| && Again(r.pass) && WellFormedPass(r.pass))
    && (r.Stop? && r.last.Some? ==> r.ending == Declined && !Again(r.last.value) && WellFormedPass(r.last.value))
    && (r.Stop? && r.ending == Declined ==> r.last.Some?)
  }

  /** The end of a pass once the reports are printed: the raw-data pages,
      then the restart question. */
  function Finish(s: Selection, table: Table, summary: Summary, rs: seq<string>): (r: Step)
    requires ValidSelection(s)
    ensures Orderly(r, rs) && (r.Stop? ==> r.ending != InvalidCity)
    ensures Recorded(r).None? <==>
              Paging(table.rows, rs, 0).Failure? || |Paging(table.rows, rs, 0).value.rest| == 0
    ensures Recorded(r).None? ==> r == Stop(None, Crashed(EndOfInput))
    ensures Recorded(r).Some? ==>
              var paged := Paging(table.rows, rs, 0).value;
              && |paged.rest| > 0
              && Recorded(r).value == Pass(s, table, summary, paged.pages, paged.rest[0])
              && (r.Continue? <==> Again(Recorded(r).value))
              && (r.Continue? ==> r.rest == paged.rest[1..])
  {
    match Paging(table.rows, rs, 0)
    case Failure(e) => Stop(None, Crashed(e))
    case Success(paged) =>
      if |paged.rest| == 0 then Stop(None, Crashed(EndOfInput))
      else
        var pass := Pass(s, table, summary, paged.pages, paged.rest[0]);
        if Again(pass) then Continue(pass, paged.rest[1..])
        else Stop(Some(pass), Declined)
  }

  /** A pass for a valid selection: load the data, print the reports, then
      finish the pass. The first error raised ends the session. */
  function Analyze(s: Selection, rs: seq<string>, files: map<string, Table>): (r: Step)
    requires ValidSelection(s)
    ensures Orderly(r, rs) && (r.Stop? ==> r.ending != InvalidCity)
    ensures LoadData(s.city, s.month, s.day, files).Failure? ==>
              r == Stop(None, Crashed(LoadData(s.city, s.month, s.day, files).error))
    ensures LoadData(s.city, s.month, s.day, files).Success? ==>
              var table := LoadData(s.city, s.month, s.day, files).value;
              && (Summarize(table).Failure? ==> r == Stop(None, Crashed(Summarize(table).error)))
              && (Summarize(table).Success? ==> r == Finish(s, table, Summarize(table).value, rs))
    ensures Recorded(r).Some? ==>
              && Recorded(r).value.selection == s
              && Success(Recorded(r).value.data) == LoadData(s.city, s.month, s.day, files)
              && Success(Recorded(r).value.summary) == Summarize(Recorded(r).value.data)
  {
    match LoadData(s.city, s.month, s.day, files)
    case Failure(e) => Stop(None, Crashed(e))
    case Success(table) =>
      match Summarize(table)
      case Failure(e) => Stop(None, Crashed(e))
      case Success(summary) => Finish(s, table, summary, rs)
  }

  /** One pass of the loop. An invalid city ends the session before any data
      is loaded; a restart answer other than "yes" in any letter case ends
      it after the pass. */
  function Iterate(rs: seq<string>, files: map<string, Table>): (r: Step)
    ensures Orderly(r, rs)
    ensures (r.Stop? && r.ending == InvalidCity) <==>
              GetFilters(rs).Success? && GetFilters(rs).value.selection == Invalid
    ensures GetFilters(rs).Failure? ==> r == Stop(None, Crashed(GetFilters(rs).error))
    ensures GetFilters(rs).Success? && GetFilters(rs).value.selection.city != InvalidValue ==>
              r == Analyze(GetFilters(rs).value.selection, GetFilters(rs).value.rest, files)
  {
    match GetFilters(rs)
    case Failure(e) => Stop(None, Crashed(e))
    case Success(collected) =>
      if collected.selection.city == InvalidValue then Stop(None, InvalidCity)
      else Analyze(collected.selection, collected.rest, files)
  }

  /** The record of a whole session: its passes in order and how it ended. */
  datatype Log = Log(passes: seq<Pass>, ending: Ending)

  /** Every pass is well formed, every pass but the last was followed by a
      restart, and the session ended by a declined restart exactly when its
      last pass was not followed by one. */
  ghost predicate Consistent(log: Log) {
    && (forall i :: 0 <= i < |log.passes| ==> WellFormedPass(log.passes[i]))
    && (forall i :: 0 <= i < |log.passes| - 1 ==> Again(log.passes[i]))
    && (log.ending == Declined <==> |log.passes| > 0 && !Again(log.passes[|log.passes| - 1]))
  }

  lemma ConsistentCons(p: Pass, log: Log)
    requires WellFormedPass(p) && Again(p) && Consistent(log)
    ensures Consistent(Log([p] + log.passes, log.ending))
  {
    var passes := [p] + log.passes;
    assert forall i :: 1 <= i < |passes| ==> passes[i] == log.passes[i - 1];
  }

  lemma ConsistentStop(last: Option<Pass>, ending: Ending)
    requires last.Some? ==> ending == Declined && !Again(last.value) && WellFormedPass(last.value)
    requires ending == Declined ==> last.Some?
    ensures Consistent(Log(if last.Some? then [last.value] else [], ending))
  {
  }

  /** The program's main loop, run until it stops. */
  function Run(rs: seq<string>, files: map<string, Table>): (r: Log)
    ensures Consistent(r)
    decreases |rs|
  {
    var step := Iterate(rs, files);
    if step.Stop? then
      ConsistentStop(step.last, step.ending);
      Log(if step.last.Some? then [step.last.value] else [], step.ending)
    else
      var log := Run(step.rest, files);
      ConsistentCons(step.pass, log);
      Log([step.pass] + log.passes, log.ending)
  }

  /** A session is its first step, followed after a restart by the session
      on the responses that remain. */
  lemma RunFollowsIterate(rs: seq<string>, files: map<string, Table>)
    ensures Iterate(rs, files).Stop? ==>
              Run(rs, files) == Log(if Iterate(rs, files).last.Some? then [Iterate(rs, files).last.value] else [],
                                    Iterate(rs, files).ending)
    ensures Iterate(rs, files).Continue? ==>
              && Run(rs, files).passes == [Iterate(rs, files).pass] + Run(Iterate(rs, files).rest, files).passes
              && Run(rs, files).ending == Run(Iterate(rs, files).rest, files).ending
  {
  }

  /** Three rejected city answers end the session with no pass and without
      reading any data file: the outcome is the same whatever the files hold. */
  lemma InvalidCityEndsSession(rs: seq<string>, files: map<string, Table>)
    requires |rs| >= MaxAttempts && forall i :: 0 <= i < MaxAttempts ==> Rejected(CityField, rs[i])
    ensures Run(rs, files) == Log([], InvalidCity)
  {
  }

  /** The raw rows a pass displayed are the first rows of its data, in order. */
  lemma PassShowsLeadingRows(p: Pass)
    requires WellFormedPass(p)
    ensures Flatten(p.pages) == p.data.rows[..Min(PageSize * |p.pages|, |p.data.rows|)]
  {
    PagesShowPrefix(p.data.rows, p.pages);
  }

  /** The raw-data question compares the answer exactly: "YES" shows nothing. */
  lemma UpperCaseYesShowsNoRows(rows: seq<Trip>, rs: seq<string>)
    ensures Paging(rows, ["YES"] + rs, 0) == Success(Paged([], rs))
  {
    assert "YES" != Yes by { assert "YES"[0] != Yes[0]; }
    assert (["YES"] + rs)[1..] == rs;
  }

  /** The restart question ignores letter case: after "no" to the raw data,
      "YES" to the restart question starts another pass. */
  lemma UpperCaseYesRestarts(s: Selection, table: Table, summary: Summary, rs: seq<string>)
    requires ValidSelection(s)
    ensures Finish(s, table, summary, ["no", "YES"] + rs).Continue?
  {
    var responses := ["no", "YES"] + rs;
    assert "no" != Yes by { assert |"no"| != |Yes|; }
    assert responses[1..] == ["YES"] + rs;
    assert Lower("YES") == Yes;
  }
}
