# Bikeshare explorer: a verified model of its logic core

`bikeshare.py` is a console tool. It asks for a city (Chicago, New York City
or Washington), a month (January to June, or all) and a day of the week (or
all). It loads that city's trip data and filters it by month and day. It
then prints four reports:

- the most frequent times of travel;
- the most popular stations and start/end combination;
- the total travel time;
- user demographics.

After the reports it offers the raw rows five at a time and asks whether to
start over.

This project models that logic as pure Dafny functions. The user's answers
are a `seq<string>` consumed from the front. Each question returns what it
accepted plus the unconsumed rest. Input running out (Python's `EOFError` on
`input()`) is the error `EndOfInput`.

A trip is a record whose month, weekday and start hour are already derived
from its start time. A city's data file is a `Table` of trips, with flags
saying whether the file has the Gender and Birth Year columns. The data
files are passed in as a map from file name to table.

Every place where the program raises an exception is a `Failure` with its
own error:

| error | raised by |
|---|---|
| `UnknownCity` | the `CITY_DATA` lookup |
| `MissingFile` | reading a file that is not there |
| `UnknownMonthName` | `months.index` |
| `EmptyColumn` | `mode()[0]` on an empty column |
| `UnknownMonthNumber` | the month-name lookup of the time report |

Modules, following the program's structure:

- `Base`: `Option`, `Result` and the error kinds.
- `Text`: ASCII lower-casing, title-casing, slicing, and the order Python compares strings in.
- `Filters`: `get_filters`, the bounded-retry questions and the code expansion.
- `Trips`: trip records and `load_data`'s month and day filter.
- `Stats`: mode with count, the 12-hour label, the H:M:S split, the station combination, min and max.
- `Reports`: the four reports.
- `Session`: `main`, covering raw-data paging, restart and the invalid-city sentinel.

The most common value follows pandas: `mode()` returns the tied values
sorted, and `[0]` takes the least. Numbers are compared by value. Strings
are compared character by character on code points, as Python does.

## Model

| member | source | states |
|---|---|---|
| Text.Lower | bikeshare.py:46 | `str.lower()` keeps the length of the answer |
| Text.LowerAt | bikeshare.py:46 | each character of the lower-cased answer is the character at the same place, lower-cased |
| Text.LowerIdempotent | bikeshare.py:42-46 | lower-casing an already lower-cased answer changes nothing |
| Text.Truncate | bikeshare.py:73 | `s[0:3]`: the result is a prefix of the input, with length the smaller of the input's length and the bound |
| Text.Title | bikeshare.py:145 | `str.title()` keeps the length; TitleOfWord and LowerOfCapitalized relate it to the weekday names |
| Text.TitleOfWord | bikeshare.py:145 | title-casing a lower-case word capitalises it, and lower-casing the result gives the word back |
| Text.LowerOfCapitalized | bikeshare.py:145 | a capitalised name such as "Monday" lower-cases to a lower-case word, and title-casing that gives the name back |
| Text.TitleMatchesIffLowerMatches | bikeshare.py:145 | for a lower-case word and a capitalised weekday name, comparing the title-cased word with the name is the same as comparing the word with the lower-cased name |
| Text.PrecedesIrreflexive | bikeshare.py:168 | no string sorts before itself in the order tied modes are sorted in |
| Text.PrecedesTransitive | bikeshare.py:168 | the string order used for tied modes is transitive |
| Text.PrecedesTotal | bikeshare.py:168 | any two different strings are ordered one way or the other, so the first of the tied modes is well defined |
| Filters.Normalize | bikeshare.py:68-73 | the cleaned answer starts the lower-cased answer: the whole of it for a city (line 46), its first three characters, or fewer when the answer is shorter, for a month or a day (lines 73, 102) |
| Filters.NormalizeIgnoresCase | bikeshare.py:42-46 | an answer is cleaned up the same whatever the case of its letters |
| Filters.AskFrom | bikeshare.py:35-47 | the retry loop from response i on: it accepts the first response whose clean-up is a choice, within the attempts left, with every response before it from i on rejected; or every attempt is rejected and exactly that many responses are used; or the responses run out first, all of them rejected |
| Filters.Ask | bikeshare.py:35-47 | a question with three attempts: it accepts the first response whose normalised form is a choice, at a position below the attempt count, with every earlier response rejected; or all three are rejected and exactly three responses are consumed; or the responses run out with all of them rejected |
| Filters.AskOrAll | bikeshare.py:61-74 | the month or day answer is always a choice, and one to three responses are consumed; the answer is the normalised last response consumed, with every earlier one rejected, or it is "all" after exactly three rejected responses; the only failure is running out of input |
| Filters.AskOrAllDefaultsToAll | bikeshare.py:90-96 | three rejected month or day answers give "all" and consume exactly three responses |
| Filters.AskOrAllFailsOnlyAtEnd | bikeshare.py:61-103 | the month or day question fails exactly when fewer than three responses remain and all of them are rejected |
| Filters.ExpandMonth | bikeshare.py:105-106 | an accepted month code expands to "all" or a month name of the table, whose first three letters are the code |
| Filters.ExpandDay | bikeshare.py:108-109 | an accepted day code expands to "all" or a day name of the table, whose first three letters are the code |
| Filters.AskMonthAndDay | bikeshare.py:49-109 | after an accepted city, month and day yield a selection the loader accepts for that city, consuming at most six responses; the only failure is running out of input |
| Filters.AskMonthAndDayExpands | bikeshare.py:61-109 | the month is the expansion of the month question's answer, and the day the expansion of the day question's answer on the responses after it; the pair fails exactly when one of the questions does |
| Filters.AskFindsCity | bikeshare.py:35-47 | the city question accepts response i exactly when i is among the first three responses, every earlier response was rejected, and response i lower-cased is a city key |
| Filters.GetFilters | bikeshare.py:11-112 | the result is the invalid triple exactly when the first three city answers are all rejected, and then only those three responses are consumed; otherwise the selection has a known city and month and day names from the tables, and at most nine responses are consumed; the only failure is running out of input |
| Filters.GetFiltersTakesFirstCity | bikeshare.py:11-112 | the collector takes the first accepted city answer and continues with the month and day questions on the responses after it; with no accepted city among fewer than three responses, input runs out |
| Filters.CityAnswerIgnoresCase | bikeshare.py:42-46 | "CHI" is accepted as "chi" at the first attempt |
| Filters.MonthAnswerKeepsThreeLetters | bikeshare.py:69-73 | "January" is accepted as "jan" |
| Filters.DayAnswerIgnoresCase | bikeshare.py:98-102 | "Mon" is accepted as "mon" |
| Filters.FullNamesAreAccepted | bikeshare.py:61-109 | "January" then "Mon" select the month "january" and the day "monday" |
| Filters.AnswersInAnyCase | bikeshare.py:11-112 | "CHI", "January", "Mon" select Chicago, January and Monday, consuming all three responses |
| Trips.DayName | bikeshare.py:137 | every weekday name is capitalised: an upper-case letter followed by lower-case letters |
| Trips.LowerDayName | bikeshare.py:137 | each weekday's lower-cased name is the day question's table entry for that weekday's code, so the day filter can match every weekday |
| Trips.DayCodesCoverTable | bikeshare.py:137 | every code of the day question's table is some weekday's code, so every accepted day answer names a weekday |
| Trips.LowerDayNameInjective | bikeshare.py:137 | different weekdays have different lower-cased names, so an accepted day answer selects exactly one weekday |
| Trips.IndexFrom | bikeshare.py:141 | `list.index`: the first position holding the value, or none when no position does |
| Trips.MonthNumberOf | bikeshare.py:140-141 | a month name has a number exactly when it is one of the six names, and the number is its 1-based position; otherwise it raises |
| Trips.Select | bikeshare.py:142-145 | every kept row is an input row that matches the criterion, and every matching input row is kept |
| Trips.SelectKeepsCounts | bikeshare.py:142-145 | each matching row is kept as many times as it occurs in the input, identical trips included, and no other row is kept |
| Trips.SelectIsSubsequence | bikeshare.py:142-145 | filtering keeps the rows' order |
| Trips.SelectIdempotent | bikeshare.py:142-145 | filtering twice by the same criterion is filtering once |
| Trips.SelectEverything | bikeshare.py:139-146 | the empty criterion (no month, no day) keeps every row |
| Trips.SelectBoth | bikeshare.py:139-146 | filtering by month and day together equals filtering by month, then by day |
| Trips.CriterionOf | bikeshare.py:139-145 | "all" imposes nothing; a month name becomes its number, an unknown one raises; a day name is compared title-cased |
| Trips.FilterRows | bikeshare.py:139-146 | raises exactly for an unknown month name; every kept row is an input row of the named month and day; each input row of the named month and day is kept as many times as it occurs, and no other row is kept |
| Trips.FilterRowsAllIsIdentity | bikeshare.py:139-146 | "all" and "all" keep the data unchanged |
| Trips.FilterRowsKeepsOrder | bikeshare.py:139-146 | the filtered rows are a subsequence of the data |
| Trips.FilterRowsIdempotent | bikeshare.py:139-146 | filtering the filtered rows again changes nothing |
| Trips.FilterRowsIsMonthThenDay | bikeshare.py:139-146 | the month step followed by the day step selects the same rows as both conditions at once |
| Trips.ValidSelectionFilter | bikeshare.py:105-109 | for any selection the collector returns, `months.index` is defined, and a row is kept exactly when its month name and lower-cased weekday name agree with the selection |
| Trips.LoadData | bikeshare.py:132-146 | raises exactly for an unknown city, a missing file or an unknown month name, with the matching error; otherwise the rows are the file's rows filtered, and its column flags are kept |
| Stats.BeforeIrreflexive | bikeshare.py:168 | no value sorts before itself |
| Stats.BeforeTransitive | bikeshare.py:168 | the sort order of mode values is transitive |
| Stats.BeforeTotal | bikeshare.py:168 | any two different values are ordered |
| Stats.Leader | bikeshare.py:168 | the best candidate among a column's first k cells: no earlier cell is more frequent, or equally frequent and sorted before it |
| Stats.Mode | bikeshare.py:168-169 | the reported value occurs in the column; its count is the number of cells equal to it; no value occurs more often; every other value that occurs as often sorts after it |
| Stats.ModeIsUnique | bikeshare.py:177-178 | value and count are determined by the column's contents alone |
| Stats.ModeDetermines | bikeshare.py:168-170 | once a value and count are known to be the mode, every other claim to be the mode names the same value and count |
| Stats.Combo | bikeshare.py:233 | the combination string splits back into the start station, " to ", and the end station |
| Stats.ComboDeterminesEnd | bikeshare.py:233 | two trips from one start station have the same combination only if they end at the same station |
| Stats.HourLabel | bikeshare.py:188-193 | the printed hour is in 0..12; "PM" exactly for hours after 12, with 1..11 printed; "AM" for every other hour, so 0 is 0AM and 12 is 12AM; reading the label back gives the hour |
| Stats.HourLabelInjective | bikeshare.py:188-193 | different hours get different labels |
| Stats.TotalDuration | bikeshare.py:253 | the total travel time of one trip is its duration; with TotalDurationAppend the total of any rows is therefore the sum of their durations; it is at least each trip's duration, and zero exactly when every trip lasted zero seconds |
| Stats.TotalDurationAppend | bikeshare.py:253 | the total over two runs of trips is the sum of their totals, so it does not depend on how the rows are split |
| Stats.ToHms | bikeshare.py:253-255 | hours, minutes and seconds add back up to the total, with minutes and seconds below 60 |
| Stats.ToHmsInvertsComposition | bikeshare.py:254-255 | any hours, minutes below 60 and seconds below 60 are recovered from their total |
| Stats.MinOf | bikeshare.py:318 | the earliest birth year occurs in the data and no year is earlier |
| Stats.MaxOf | bikeshare.py:317 | the latest birth year occurs in the data and no year is later |
| Stats.Present | bikeshare.py:316-322 | dropping missing cells keeps every present value as often as it occurs, and removes as many cells as are missing |
| Reports.TimeStats | bikeshare.py:158-193 | raises on no rows; otherwise it raises exactly when the most common month has no name; on success month, day and hour are each the mode of their column with its count, the month carries its name, and the hour carries its 12-hour label |
| Reports.StationStats | bikeshare.py:213-235 | raises exactly on no rows; start station, end station and combination are each the mode of their column with its count |
| Reports.DurationStats | bikeshare.py:253-255 | the total travel time in seconds, with its hours, minutes and seconds adding back up to it |
| Reports.GroupsOf | bikeshare.py:288-295 | each value's group holds as many rows as have that value, and the missing count is the number of rows without one |
| Reports.BirthStats | bikeshare.py:315-322 | raises exactly when no row has a birth year; otherwise the oldest and youngest years each belong to some rider, every year lies between them, the most common year lies between them and is the mode of the present years, and the missing count is the number of rows without a year |
| Reports.UserStats | bikeshare.py:280-331 | the number of users is the number of rows; user-type counts per value and the count of rows without a type; gender counts and the count of rows without a gender exactly when the file has that column; birth-year figures exactly when it has that one, raising when no year is present |
| Session.Page | bikeshare.py:372 | page k holds at most five rows, the rows from position 5k on, and is empty exactly when 5k reaches the end of the data |
| Session.PagesShowPrefix | bikeshare.py:370-376 | pages 0 to n-1, shown in order, display exactly the first min(5n, rows) rows of the data |
| Session.Paging | bikeshare.py:366-376 | a page is shown for each leading response that is exactly "yes", with page k+i for the i-th; the first other response ends the loop and is consumed; a failure is always running out of input |
| Session.PagingFailsOnlyAtEnd | bikeshare.py:366-376 | the raw-data loop fails exactly when the input runs out while every answer so far was "yes" |
| Session.Summarize | bikeshare.py:361-364 | the four reports for the data; the pass fails exactly when the time report or the user report raises, with the time report's error when it raises, since it runs first, and the user report's error otherwise |
| Session.Finish | bikeshare.py:366-383 | the pass shows the pages the raw-data loop shows, and its restart answer is the response after that loop; it continues exactly when that answer lower-cases to "yes", with the responses after it; with no response left the session crashes at end of input |
| Session.Analyze | bikeshare.py:346-383 | a loader error or a report error ends the session with that error, in that order; otherwise the pass is finished on the loaded data and its reports, so a recorded pass holds exactly what the loader and the reports produced |
| Session.Iterate | bikeshare.py:339-383 | one loop iteration: it ends with the invalid-city outcome exactly when the collector returned the invalid triple; a collector failure ends the session with that error; a valid selection leads to its pass on the remaining responses |
| Session.Run | bikeshare.py:338-383 | every pass of a session has valid filters and shows the raw pages in order; every pass but the last was followed by a restart; the session ends declined exactly when the last pass's restart answer was not "yes" in any case |
| Session.RunFollowsIterate | bikeshare.py:339-383 | a session is its first iteration; after a restart it goes on with the session on the remaining responses, and otherwise it ends with that iteration's outcome |
| Session.InvalidCityEndsSession | bikeshare.py:342-344 | three rejected city answers end the session with no pass, whatever the data files hold, so nothing is loaded |
| Session.PassShowsLeadingRows | bikeshare.py:370-376 | the raw rows a pass displayed are the leading rows of its data |
| Session.UpperCaseYesShowsNoRows | bikeshare.py:371 | "YES" to the raw-data question shows no page, since that comparison is exact |
| Session.UpperCaseYesRestarts | bikeshare.py:378-383 | after "no" to the raw data, "YES" to the restart question starts another pass, since that comparison ignores case |

## Left out

- Reading the CSV files and deriving month, weekday and start hour from the start time (`pd.read_csv`, `pd.to_datetime`, `.dt.*`). These are library calls and file I/O. Trips carry those fields already derived, and the files are a map parameter.
- All prompt and report text, the `.title()` formatting of displayed names, and `main`'s city display-name table. This is console output that the model does not produce.
- The `time.time()` runtime measurements. They are clock reads and do not affect any result.
- The mean trip duration and its formatting. This is floating-point arithmetic.
- The rendering of the grouped user-type and gender counts. They are modelled as multisets of values plus a count of missing cells.
- Durations and birth years are integers here. pandas holds a column with missing values as floats.
- Lower-casing and title-casing cover ASCII letters only. Python's full Unicode case mapping is not modelled.
- The stray top-level `pwd` after `main` returns. It is a NameError outside the program's logic.
- `Session.Run` is a function of the whole response sequence, so a session that never ends is not modelled. Each pass consumes at least one response, so every finite input ends.
