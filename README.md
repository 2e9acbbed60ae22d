# Bus-route search, modelled in Dafny

This project models `search_buses` from a small bus-timing web application.
The function takes a free-text route query and the list of route records. It:

1. lower-cases and trims the query;
2. replaces it through a fixed alias table (`"hyd"` becomes `"hyderabad"`),
   matching the whole string only;
3. asks a fuzzy matcher for up to five route names close to it;
4. keeps every record whose lower-cased route is one of those names, in input
   order;
5. gives each kept record a `formatted_times` list in place. Every `H:MM` or
   `HH:MM` entry becomes a 12-hour string such as `"6:30 PM"`. Any other entry
   is copied unchanged.

Files:

- `text.dfy` (module `Text`): the parts of Python's `str` that the search
  uses. These are `lower()`, `strip()`, ASCII digits, `int()` on a digit
  string, and the renderings `{n}` and `{n:02d}`.
- `schemas.dfy` (module `Schemas`): `BusRecord`, the record shape of
  `BusResponse`. It is a class because the search writes `formatted_times`
  into the record it returns. `route`, `departure_times` and `bus_type` are
  never written by the search, so they are constant fields.
- `utils.dfy` (module `Utils`):
  - the alias table and query normalisation;
  - the 12-hour conversion `FormatTime`, with an independent reader
    `ParseTwelveHour` to check it against;
  - the order-preserving filter `Matched`;
  - the two loops `FormatDepartureTimes` and `CollectMatched`;
  - `SearchBuses`, which puts them together.

The fuzzy matcher (`difflib.get_close_matches`) is a function parameter of
`SearchBuses`. It is called with the constants `MaxMatches = 5` and
`Cutoff = 0.6`. The only thing assumed about it is what the library promises:
at most `n` names, each one taken from the candidates (`MatcherContract`). That
assumption is used in `MatchedRouteBound` and nowhere else. Loading the records
from the data file becomes the `buses` parameter.

Two behaviours of the source are easy to miss, and the model keeps both:

- An entry such as `"24:70"` fits the pattern `^\d{1,2}:\d{2}$`. Nothing checks
  the ranges, so it becomes `"12:70 PM"`. It is not passed through unchanged
  (`FormatTimeUncheckedExamples`).
- The result is not limited to five records. Every record whose route name
  matches is returned, duplicates included (`MatchedAll`,
  `MatchedMultiplicity`). What is limited to five is the number of distinct
  route names in the result (`MatchedRouteBound`).

The search uses the matcher's answer only as a set of names, so their order
does not matter. Which names the matcher picks (ranking, tie-break, cutoff) is
left abstract; see "## Left out".

## Model

| member | source | states |
|---|---|---|
| `Text.LowerChar` | app/utils.py:11 | `lower()` of one character: an ASCII upper-case letter becomes its lower-case letter, every other character is kept, and the result is never upper-case |
| `Text.Lower` | app/utils.py:11 | `lower()` keeps the length, folds each character on its own, and leaves no upper-case ASCII letter |
| `Text.LowerOfLowerCase` | app/utils.py:11 | lower-casing a string that has no upper-case letter changes nothing, so `lower()` is idempotent |
| `Text.IsSpace` | app/utils.py:11 | the characters `strip()` removes: exactly those for which `str.isspace()` holds (ASCII 9-13 and 28-32, U+0085, U+00A0, U+1680, U+2000-U+200A, U+2028, U+2029, U+202F, U+205F, U+3000) |
| `Text.StripLeft` | app/utils.py:11 | the result is a suffix of the input that does not start with whitespace, and everything removed is whitespace |
| `Text.StripRight` | app/utils.py:11 | the result is a prefix of the input that does not end with whitespace, and everything removed is whitespace |
| `Text.Strip` | app/utils.py:11 | `strip()` leaves no whitespace at either end and never makes the string longer |
| `Text.StripIsTrim` | app/utils.py:11 | `strip()` returns a contiguous piece of its input, with only whitespace cut off on either side |
| `Text.StripOfTrimmed` | app/utils.py:11 | stripping a trimmed string changes nothing, so `strip()` is idempotent |
| `Text.StripOfPadded` | app/utils.py:11 | a trimmed string surrounded by any whitespace comes back exactly |
| `Text.StripKeepsLowerCase` | app/utils.py:11 | stripping a lower-case string keeps it lower-case |
| `Text.ParseDecimal` | app/utils.py:38 | `int()` of a string of `k` ASCII digits is a natural number below `10^k`; `ParseDecimalString` and `ZeroPad2OfTwoDigits` pin its value |
| `Text.ParseDecimalBound` | app/utils.py:38 | a one-digit string is below 10 and a two-digit string is below 100 |
| `Text.DecimalString` | app/utils.py:41 | `str(n)` is one or more ASCII digits with no leading zero unless `n` is 0; it is one digit below 10 and two digits for 10..99 |
| `Text.ParseDecimalString` | app/utils.py:38-41 | `int(str(n)) == n` for every natural `n` |
| `Text.ZeroPad2` | app/utils.py:41 | `{n:02d}` is at least two ASCII digits, and exactly two below 100 |
| `Text.ParseTwoDigits` | app/utils.py:38 | `int()` of a two-digit string is its tens digit times ten plus its units digit |
| `Text.ZeroPad2OfTwoDigits` | app/utils.py:38-41 | for any two-digit string `t`, `int(t)` is its two-digit value and `{int(t):02d}` gives `t` back |
| `Text.ParseZeroPad2` | app/utils.py:41 | `int` of `{n:02d}` is `n` for every natural `n` |
| `Schemas.BusRecord.constructor` | app/schemas.py:8-12 | a record has the given route, departure times and bus type, and `formatted_times` defaults to empty |
| `Utils.Normalize` | app/utils.py:11 | the normalised query has no upper-case letter and no whitespace at either end |
| `Utils.NormalizeIdempotent` | app/utils.py:11 | normalising twice gives the same result as normalising once |
| `Utils.NormalizeExample` | app/utils.py:11 | `"  HYD "` normalises to `"hyd"` |
| `Utils.Aliases` | app/utils.py:14-23 | the alias table, entry for entry: eight keys, four distinct values |
| `Utils.ResolveAlias` | app/utils.py:14-24 | a query that is not a key is kept; a key becomes one of the table's values; either way the result is left alone by a second lookup |
| `Utils.EffectiveQuery` | app/utils.py:11-24 | the string handed to the matcher has no upper-case letter, no whitespace at either end, and is left alone by a second alias lookup |
| `Utils.AliasTableClosed` | app/utils.py:14-23 | every alias value is either not a key or maps to itself |
| `Utils.AliasTableWords` | app/utils.py:14-23 | every key and value of the table is a non-empty run of the letters a..z |
| `Utils.WordNormalized` | app/utils.py:11 | a non-empty run of the letters a..z is left unchanged by `lower().strip()` |
| `Utils.AliasTableNormalized` | app/utils.py:11-23 | every key and value is lower-case and trimmed, and normalising any of them gives it back, so each key is reached by the query that spells it |
| `Utils.ResolveAliasIdempotent` | app/utils.py:14-24 | applying the alias lookup twice gives the same result as applying it once |
| `Utils.AliasUpToCaseAndSpace` | app/utils.py:11-24 | a query equal to a key after lower-casing, apart from surrounding whitespace, reaches the matcher as that key's value |
| `Utils.NoAliasKeepsQuery` | app/utils.py:11-24 | a query whose normalised form is not a key reaches the matcher as `strip(lower(query))` |
| `Utils.EffectiveQueryIdempotent` | app/utils.py:11-24 | feeding the effective query back in as a query gives it again |
| `Utils.AliasExamples` | app/utils.py:14-24 | `"hyd"` becomes `"hyderabad"` and `"tirupsathi"` becomes `"tirupati"`; `"tpt bus"` and `"chennai"` stay as they are |
| `Utils.IsClockTime` | app/utils.py:37 | the pattern `^\d{1,2}:\d{2}$`: one or two digits, a colon, two digits; `ClockOfParts` and `ClockTimeParts` state both directions |
| `Utils.ClockOfParts` | app/utils.py:37-38 | one or two digits, a colon and two digits always fit the pattern, and the hour and minute read back are the values of the two parts |
| `Utils.ClockTimeParts` | app/utils.py:37-38 | every entry that fits the pattern is such a string; its hour part holds no colon, so the hour and minute are `int` of the two pieces `split(':')` gives |
| `Utils.ClockHour` | app/utils.py:38 | the hour read from a clock-time entry is below 100 |
| `Utils.ClockMinute` | app/utils.py:38 | the minute read from a clock-time entry is below 100 |
| `Utils.Hour12` | app/utils.py:40 | `hour % 12 or 12` lies in 1..12 and equals `hour` modulo 12 |
| `Utils.Period` | app/utils.py:39 | the period is `"AM"` exactly when the hour is below 12, and `"PM"` exactly when it is not |
| `Utils.FormatTime` | app/utils.py:37-43 | an entry that does not fit the pattern is copied unchanged; the clock-time case is stated by `FormatTimeShape` and `FormatTimeRoundTrip` |
| `Utils.FormatTimeShape` | app/utils.py:37-41 | a clock time gives the 12-hour hour without leading zero, the input's own two minute digits, a space, then `"AM"` exactly when the hour is below 12 |
| `Utils.FormatTimeRoundTrip` | app/utils.py:37-41 | for hours 0..23, reading the display string back as a 12-hour time gives the original hour and minute |
| `Utils.FormatTimeTwelveExamples` | app/utils.py:37-41 | `"0:00"` becomes `"12:00 AM"` and `"12:00"` becomes `"12:00 PM"` |
| `Utils.TwelveOClock` | app/utils.py:39-41 | a clock time whose hour is a multiple of 12 shows the hour as `12`, followed by its own minute digits and its period |
| `Utils.FormatTimeAfternoonExample` | app/utils.py:37-41 | `"13:05"` becomes `"1:05 PM"` |
| `Utils.FormatTimeLeadingZeroExample` | app/utils.py:37-41 | `"06:05"` becomes `"6:05 AM"` |
| `Utils.FormatTimeUncheckedExamples` | app/utils.py:37-43 | `"24:70"` becomes `"12:70 PM"`; `"varies"` and `"6:5"` are copied |
| `Utils.FormatDepartureTimes` | app/utils.py:34-43 | `formatted_times` has the length of `departure_times`, and entry i is the conversion of entry i alone |
| `Utils.MaxMatches` | app/utils.py:28 | the matcher is asked for at most `n=5` names |
| `Utils.Cutoff` | app/utils.py:28 | the similarity threshold handed to the matcher, `cutoff=0.6` |
| `Utils.MatcherContract` | app/utils.py:28 | the only assumption about `get_close_matches`: its answer has at most `n` names, each one of the candidates |
| `Utils.RouteNames` | app/utils.py:27 | one candidate name per record, in order: its lower-cased route |
| `Utils.IsMatch` | app/utils.py:32 | a record is kept when its lower-cased route is among the matches; `MatchedMembership` and `MatchedMultiplicity` state what that means for the result |
| `Utils.Matched` | app/utils.py:30-45 | the filtered list is never longer than the input |
| `Utils.MatchedStep` | app/utils.py:31-45 | considering one more record adds that record at the end if its route matches, and nothing otherwise |
| `Utils.MatchedIsSubsequence` | app/utils.py:30-45 | the result is a subsequence of the input records, in their original order |
| `Utils.MatchedMultiplicity` | app/utils.py:31-45 | each matching record appears as often as in the input, so duplicates all appear; no other record appears |
| `Utils.MatchedMembership` | app/utils.py:31-32 | a record is in the result exactly when it is in the input and its lower-cased route is among the matches |
| `Utils.MatchedNone` | app/utils.py:28-32 | with no match, nothing is returned |
| `Utils.MatchedAll` | app/utils.py:31-45 | when every record matches, all records are returned, so the result length is not bounded by five |
| `Utils.MatchedOwnNames` | app/utils.py:27-32 | every record's own lower-cased route is a candidate name, so a matcher that returned every candidate would keep every record |
| `Utils.MatchedRouteBound` | app/utils.py:27-32 | with a matcher that keeps its contract, the result names at most five distinct routes, all taken from the input |
| `Utils.CollectMatched` | app/utils.py:30-45 | the loop returns exactly the matching records in order, sets `formatted_times` on each of them, and leaves every other record's `formatted_times` unchanged |
| `Utils.SearchBuses` | app/utils.py:9-47 | the result is the filter of the records by the matcher's answer for the effective query; the returned records are the input objects, each carrying its formatted times; no other record changes |

## Left out

- `load_bus_data` (app/utils.py:5-7) opens and parses a JSON file. That is I/O, so the records are the `buses` parameter of `SearchBuses`.
- `difflib.get_close_matches` and its similarity ratio (app/utils.py:28) are floating-point library code. The matcher is a function parameter. Its ranking, its tie-break and the 0.6 threshold are not modelled. When six or more route names pass the cutoff, the ranking decides which five are kept, and so which records come back; the model says only that at most five distinct routes do (`MatchedRouteBound`). Duplicate names in its answer are allowed.
- HTTP routing, templates and the database (app/main.py), and the Pydantic validation of `UserCreate` (app/schemas.py:3-6) are framework behaviour.
- `Text.Lower`: folds only the ASCII letters A..Z. Python's `lower()` also folds non-ASCII letters; that is not modelled.
- `Utils.IsClockTime`: `\d` is read as an ASCII digit only. The case where `$` matches before a trailing newline is left out: the source converts `"6:00\n"`, while the model copies it unchanged.
- `Schemas.BusRecord`: a freshly loaded dict has no `formatted_times` key at all. The model starts a record with the default `[]` that `BusResponse` gives the field.
