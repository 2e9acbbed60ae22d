/** The bus-route search: normalise the query, resolve aliases, ask a fuzzy
    matcher for close route names, keep the records whose route is among
    them, and attach 12-hour display times to each kept record. */
module Utils {
  import opened Text
  import opened Schemas

  datatype Option<T> = None | Some(value: T)

  // ================================================================ the query

  /** Shorthands and misspellings, looked up on the whole normalised query. */
  const Aliases: map<string, string> := map[
    "tpt" := "tirupati",
    "hyd" := "hyderabad",
    "bglr" := "bangalore",
    "chen" := "chennai",
    "tirupsathi" := "tirupati",
    "tirupsthi" := "tirupati",
    "hyderabad" := "hyderabad",
    "banglore" := "bangalore"
  ]

  /** `query.lower().strip()`. */
  function Normalize(query: string): (q: string)
    ensures IsLowerCase(q) && IsTrimmed(q)
  {
    StripKeepsLowerCase(Lower(query));
    Strip(Lower(query))
  }

  /** `aliases.get(q, q)`: a key of the table is replaced by its value, any
      other string is kept. */
  function ResolveAlias(q: string): (r: string)
    ensures q !in Aliases ==> r == q
    ensures q in Aliases ==> r in Aliases.Values
    ensures r !in Aliases || Aliases[r] == r
  {
    AliasTableClosed();
    if q in Aliases then Aliases[q] else q
  }

  /** The string handed to the matcher: normalised, and left alone by a
      second alias lookup. */
  function EffectiveQuery(query: string): (e: string)
    ensures IsLowerCase(e) && IsTrimmed(e)
    ensures e !in Aliases || Aliases[e] == e
  {
    AliasTableNormalized();
    ResolveAlias(Normalize(query))
  }

  /** The table is closed: a value is either not a key or is mapped to
      itself (as `"hyderabad"` is). */
  lemma AliasTableClosed()
    ensures forall k :: k in Aliases ==>
              Aliases[k] !in Aliases || Aliases[Aliases[k]] == Aliases[k]
  {
  }

  /** A non-empty run of the letters `a`..`z`. */
  predicate IsWord(s: string)
  {
    |s| > 0 && forall i :: 0 <= i < |s| ==> 'a' <= s[i] <= 'z'
  }

  /** Every key and every value is a plain lower-case word. */
  lemma AliasTableWords()
    ensures forall k :: k in Aliases ==> IsWord(k) && IsWord(Aliases[k])
  {
    assert IsWord("tirupati") && IsWord("hyderabad") && IsWord("bangalore") && IsWord("chennai");
    assert IsWord("tpt") && IsWord("hyd") && IsWord("bglr") && IsWord("chen");
    assert IsWord("tirupsathi") && IsWord("tirupsthi") && IsWord("banglore");
  }

  /** A plain lower-case word is left alone by normalisation. */
  lemma WordNormalized(w: string)
    requires IsWord(w)
    ensures IsLowerCase(w) && IsTrimmed(w) && Normalize(w) == w
  {
    LowerOfLowerCase(w);
    StripOfTrimmed(w);
  }

  /** Every key and every value is already normalised: each key is reached
      by the query that spells it, and each value survives normalisation. */
  lemma AliasTableNormalized()
    ensures forall k :: k in Aliases ==> IsLowerCase(k) && IsTrimmed(k)
    ensures forall k :: k in Aliases ==> IsLowerCase(Aliases[k]) && IsTrimmed(Aliases[k])
    ensures forall k :: k in Aliases ==> Normalize(k) == k && Normalize(Aliases[k]) == Aliases[k]
  {
    AliasTableWords();
    forall k | k in Aliases
      ensures IsLowerCase(k) && IsTrimmed(k) && Normalize(k) == k
      ensures IsLowerCase(Aliases[k]) && IsTrimmed(Aliases[k]) && Normalize(Aliases[k]) == Aliases[k]
    {
      WordNormalized(k);
      WordNormalized(Aliases[k]);
    }
  }

  /** A query that equals a key once lower-cased, apart from whitespace around
      it, is replaced by that key's value. */
  lemma AliasUpToCaseAndSpace(query: string, pre: string, key: string, post: string)
    requires key in Aliases && AllSpace(pre) && AllSpace(post)
    requires Lower(query) == pre + key + post
    ensures EffectiveQuery(query) == Aliases[key]
  {
    AliasTableNormalized();
    StripOfPadded(pre, key, post);
  }

  /** A query whose normalised form is not a key reaches the matcher as that
      normalised form: nothing inside a longer query is rewritten. */
  lemma NoAliasKeepsQuery(query: string)
    requires Normalize(query) !in Aliases
    ensures EffectiveQuery(query) == Strip(Lower(query))
  {
  }

  /** Looking an alias up a second time changes nothing. */
  lemma {:induction false} ResolveAliasIdempotent(q: string)
    ensures ResolveAlias(ResolveAlias(q)) == ResolveAlias(q)
  {
    AliasTableClosed();
  }

  /** Normalising twice is normalising once. */
  lemma NormalizeIdempotent(query: string)
    ensures Normalize(Normalize(query)) == Normalize(query)
  {
    var q := Normalize(query);
    LowerOfLowerCase(q);
    StripOfTrimmed(q);
  }

  /** The effective query is a fixed point: feeding it back as a query yields
      it again, because alias values are normalised and map to themselves. */
  lemma EffectiveQueryIdempotent(query: string)
    ensures EffectiveQuery(EffectiveQuery(query)) == EffectiveQuery(query)
  {
    var q := Normalize(query);
    var e := ResolveAlias(q);
    AliasTableNormalized();
    LowerOfLowerCase(e);
    StripOfTrimmed(e);
    assert Normalize(e) == e;
    ResolveAliasIdempotent(q);
  }

  /** Case is folded and surrounding whitespace dropped. */
  lemma NormalizeExample()
    ensures Normalize("  HYD ") == "hyd"
  {
    assert Lower("  HYD ") == "  " + "hyd" + " ";
    StripOfPadded("  ", "hyd", " ");
  }

  /** The lookup is on the whole string: a key is rewritten, a longer query
      that merely contains a key is not. */
  lemma AliasExamples()
    ensures ResolveAlias("hyd") == "hyderabad"
    ensures ResolveAlias("tirupsathi") == "tirupati"
    ensures ResolveAlias("tpt bus") == "tpt bus"
    ensures ResolveAlias("chennai") == "chennai"
  {
  }

  // ================================================================ 12-hour times

  /** The regex `^\d{1,2}:\d{2}$`: one or two digits, a colon, two digits. */
  predicate IsClockTime(s: string)
  {
    && (|s| == 4 || |s| == 5)
    && s[|s| - 3] == ':'
    && AllDigits(s[..|s| - 3])
    && AllDigits(s[|s| - 2..])
  }

  /** The hour, `int(time.split(':')[0])`. */
  function ClockHour(s: string): (h: nat)
    requires IsClockTime(s)
    ensures h < 100
  {
    ParseDecimalBound(s[..|s| - 3]);
    ParseDecimal(s[..|s| - 3])
  }

  /** The minute, `int(time.split(':')[1])`. */
  function ClockMinute(s: string): (m: nat)
    requires IsClockTime(s)
    ensures m < 100
  {
    ParseDecimalBound(s[|s| - 2..]);
    ParseDecimal(s[|s| - 2..])
  }

  /** `hour % 12 or 12`. */
  function Hour12(hour: nat): (h: nat)
    ensures 1 <= h <= 12
    ensures h % 12 == hour % 12
  {
    if hour % 12 == 0 then 12 else hour % 12
  }

  /** `'AM' if hour < 12 else 'PM'`. */
  function Period(hour: nat): (p: string)
    ensures p == "AM" <==> hour < 12
    ensures p == "PM" <==> hour >= 12
  {
    if hour < 12 then "AM" else "PM"
  }

  /** One entry of `formatted_times`: a clock time rendered as
      `f"{hour}:{minute:02d} {period}"`, anything else copied. */
  function FormatTime(s: string): (r: string)
    ensures !IsClockTime(s) ==> r == s
  {
    if IsClockTime(s) then
      DecimalString(Hour12(ClockHour(s))) + ":" + ZeroPad2(ClockMinute(s)) + " "
        + Period(ClockHour(s))
    else
      s
  }

  /** The rendered form of a clock time: the 12-hour hour without leading
      zero, the input's own two minute digits, a space and the period, which
      is `"AM"` exactly when the parsed hour is below 12. */
  lemma FormatTimeShape(s: string)
    requires IsClockTime(s)
    ensures var r := FormatTime(s);
            var hs := DecimalString(Hour12(ClockHour(s)));
            && 1 <= |hs| <= 2 && hs[0] != '0' && ParseDecimal(hs) == Hour12(ClockHour(s))
            && r == hs + ":" + s[|s| - 2..] + " " + Period(ClockHour(s))
            && (r[|r| - 2..] == "AM" <==> ClockHour(s) < 12)
  {
    ZeroPad2OfTwoDigits(s[|s| - 2..]);
    ParseDecimalString(Hour12(ClockHour(s)));
  }

  /** Reads a displayed 12-hour time `"H:MM AM"` / `"HH:MM PM"` back into a
      24-hour hour and a minute. */
  function ParseTwelveHour(t: string): Option<(nat, nat)>
  {
    if |t| < 3 || t[|t| - 3] != ' ' || t[|t| - 1] != 'M' || (t[|t| - 2] != 'A' && t[|t| - 2] != 'P')
    then None
    else
      var clock := t[..|t| - 3];
      if IsClockTime(clock) && 1 <= ClockHour(clock) <= 12 then
        Some((ClockHour(clock) % 12 + (if t[|t| - 2] == 'P' then 12 else 0), ClockMinute(clock)))
      else None
  }

  /** `hs + ":" + ms` is a clock time whose parts are `hs` and `ms`. */
  lemma ClockOfParts(hs: string, ms: string)
    requires 1 <= |hs| <= 2 && AllDigits(hs) && |ms| == 2 && AllDigits(ms)
    ensures IsClockTime(hs + ":" + ms)
    ensures ClockHour(hs + ":" + ms) == ParseDecimal(hs)
    ensures ClockMinute(hs + ":" + ms) == ParseDecimal(ms)
  {
    var c := hs + ":" + ms;
    assert c[..|c| - 3] == hs && c[|c| - 2..] == ms;
  }

  /** Every clock time splits at its colon into a one- or two-digit hour and
      a two-digit minute; the hour part holds no colon, so it is what
      `split(':')[0]` returns. */
  lemma ClockTimeParts(s: string)
    requires IsClockTime(s)
    ensures var hs, ms := s[..|s| - 3], s[|s| - 2..];
            && s == hs + ":" + ms
            && 1 <= |hs| <= 2 && AllDigits(hs) && ':' !in hs
            && |ms| == 2 && AllDigits(ms)
            && ClockHour(s) == ParseDecimal(hs) && ClockMinute(s) == ParseDecimal(ms)
  {
    assert s == s[..|s| - 3] + [s[|s| - 3]] + s[|s| - 2..];
  }

  /** Reading a display string assembled from its parts. */
  lemma ParseTwelveHourOfParts(hs: string, ms: string, p: string)
    requires 1 <= |hs| <= 2 && AllDigits(hs) && 1 <= ParseDecimal(hs) <= 12
    requires |ms| == 2 && AllDigits(ms)
    requires p == "AM" || p == "PM"
    ensures ParseTwelveHour(hs + ":" + ms + " " + p)
            == Some((ParseDecimal(hs) % 12 + (if p == "PM" then 12 else 0), ParseDecimal(ms)))
  {
    var clock := hs + ":" + ms;
    var t := clock + " " + p;
    ClockOfParts(hs, ms);
    assert t[..|t| - 3] == clock;
    assert t[|t| - 3] == ' ' && t[|t| - 2] == p[0] && t[|t| - 1] == p[1];
    assert (p[0] == 'P') == (p == "PM") && p[1] == 'M';
    assert IsClockTime(clock) && ClockHour(clock) == ParseDecimal(hs);
    assert ParseTwelveHour(t)
           == Some((ClockHour(clock) % 12 + (if p[0] == 'P' then 12 else 0), ClockMinute(clock)));
  }

  /** Round trip: for a clock time with an hour of a real day (0..23), the
      display string reads back to the same hour and minute. */
  lemma FormatTimeRoundTrip(s: string)
    requires IsClockTime(s) && ClockHour(s) < 24
    ensures ParseTwelveHour(FormatTime(s)) == Some((ClockHour(s), ClockMinute(s)))
  {
    var h, m := ClockHour(s), ClockMinute(s);
    var hs := DecimalString(Hour12(h));
    var ms := ZeroPad2(m);
    ParseDecimalString(Hour12(h));
    ParseZeroPad2(m);
    ParseTwelveHourOfParts(hs, ms, Period(h));
    assert FormatTime(s) == hs + ":" + ms + " " + Period(h);
    assert Hour12(h) % 12 + (if Period(h) == "PM" then 12 else 0) == h;
  }

  /** Hours 0 and 12 are both shown as 12: hour 0 in the morning, hour 12 in
      the afternoon. */
  lemma FormatTimeTwelveExamples()
    ensures FormatTime("0:00") == "12:00 AM"
    ensures FormatTime("12:00") == "12:00 PM"
  {
    FormatTimeUnfold("0:00");
    TwelveOClock("0:00");
    FormatTimeUnfold("12:00");
    TwelveOClock("12:00");
  }

  /** Hours after noon lose 12. */
  lemma FormatTimeAfternoonExample()
    ensures FormatTime("13:05") == "1:05 PM"
  {
    FormatTimeUnfold("13:05");
    assert DecimalString(1) == "1";
  }

  /** A leading zero of the hour is dropped, that of the minute kept. */
  lemma FormatTimeLeadingZeroExample()
    ensures FormatTime("06:05") == "6:05 AM"
  {
    FormatTimeUnfold("06:05");
    assert DecimalString(6) == "6";
  }

  /** Nothing checks ranges, so an out-of-range entry that fits the pattern is
      still converted; entries that do not fit it are copied. */
  lemma FormatTimeUncheckedExamples()
    ensures FormatTime("24:70") == "12:70 PM"
    ensures FormatTime("varies") == "varies"
    ensures FormatTime("6:5") == "6:5"
  {
    FormatTimeUnfold("24:70");
    assert DecimalString(12) == "12";
  }

  /** A clock time whose hour is a multiple of 12 shows the hour as `12`. */
  lemma TwelveOClock(s: string)
    requires IsClockTime(s) && ClockHour(s) % 12 == 0
    ensures FormatTime(s) == "12:" + s[|s| - 2..] + " " + Period(ClockHour(s))
  {
    FormatTimeUnfold(s);
    assert DecimalString(12) == "12";
  }

  /** `FormatTime` on any clock time, spelled out: the hour has the value of
      its one or two digits, and the minute digits are copied. */
  lemma FormatTimeUnfold(s: string)
    requires IsClockTime(s)
    ensures ClockHour(s) == if |s| == 4 then DigitValue(s[0])
                            else DigitValue(s[0]) * 10 + DigitValue(s[1])
    ensures FormatTime(s)
            == DecimalString(Hour12(ClockHour(s))) + ":" + s[|s| - 2..] + " " + Period(ClockHour(s))
  {
    FormatTimeShape(s);
    var hs := s[..|s| - 3];
    if |s| == 4 {
      assert hs[..0] == [];
    } else {
      ZeroPad2OfTwoDigits(hs);
    }
  }

  /** `f` is `d` converted entry by entry. */
  predicate FormattedFrom(f: seq<string>, d: seq<string>)
  {
    |f| == |d| && forall i :: 0 <= i < |d| ==> f[i] == FormatTime(d[i])
  }

  /** The inner loop: builds `formatted_times` from `departure_times`. */
  method FormatDepartureTimes(times: seq<string>) returns (formatted: seq<string>)
    ensures |formatted| == |times|
    ensures forall i :: 0 <= i < |times| ==> formatted[i] == FormatTime(times[i])
  {
    formatted := [];
    for i := 0 to |times|
      invariant |formatted| == i
      invariant forall k :: 0 <= k < i ==> formatted[k] == FormatTime(times[k])
    {
      formatted := formatted + [FormatTime(times[i])];
    }
  }

  // ================================================================ matching

  /** How many close matches are asked for (`n=5`) and the similarity they
      must reach (`cutoff=0.6`). */
  const MaxMatches: nat := 5
  const Cutoff: real := 0.6

  /** `difflib.get_close_matches(word, possibilities, n, cutoff)`, supplied
      by the caller. */
  type Matcher = (string, seq<string>, nat, real) -> seq<string>

  /** What `get_close_matches` promises: at most `n` names, each one of the
      candidates. */
  predicate MatcherContract(matches: seq<string>, names: seq<string>, n: nat)
  {
    |matches| <= n && forall k :: 0 <= k < |matches| ==> matches[k] in names
  }

  /** `[bus['route'].lower() for bus in buses]`. */
  function RouteNames(buses: seq<BusRecord>): (names: seq<string>)
    ensures |names| == |buses|
    ensures forall i :: 0 <= i < |buses| ==> names[i] == Lower(buses[i].route)
  {
    seq(|buses|, i requires 0 <= i < |buses| => Lower(buses[i].route))
  }

  /** Whether a record is kept: `bus['route'].lower() in matches`. */
  predicate IsMatch(b: BusRecord, matches: seq<string>)
  {
    Lower(b.route) in matches
  }

  /** The records that are kept, in their original order. */
  function Matched(buses: seq<BusRecord>, matches: seq<string>): (r: seq<BusRecord>)
    ensures |r| <= |buses|
  {
    if buses == [] then []
    else
      var last := buses[|buses| - 1];
      Matched(buses[..|buses| - 1], matches) + (if IsMatch(last, matches) then [last] else [])
  }

  /** One more record considered: the result grows by that record or not at
      all. */
  lemma MatchedStep(buses: seq<BusRecord>, i: nat, matches: seq<string>)
    requires i < |buses|
    ensures Matched(buses[..i + 1], matches)
            == Matched(buses[..i], matches) + (if IsMatch(buses[i], matches) then [buses[i]] else [])
  {
    assert buses[..i + 1][..i] == buses[..i];
  }

  /** `xs` is `ys` with some elements left out and the rest in order. */
  ghost predicate IsSubsequence<T>(xs: seq<T>, ys: seq<T>)
    decreases |ys|
  {
    || xs == []
    || (&& ys != []
        && (|| (xs[|xs| - 1] == ys[|ys| - 1] && IsSubsequence(xs[..|xs| - 1], ys[..|ys| - 1]))
            || IsSubsequence(xs, ys[..|ys| - 1])))
  }

  /** The result keeps the records' order: it is a subsequence of the input. */
  lemma {:induction false} MatchedIsSubsequence(buses: seq<BusRecord>, matches: seq<string>)
    ensures IsSubsequence(Matched(buses, matches), buses)
  {
    if buses != [] {
      var front := buses[..|buses| - 1];
      var last := buses[|buses| - 1];
      var r := Matched(buses, matches);
      MatchedIsSubsequence(front, matches);
      if IsMatch(last, matches) {
        assert r[..|r| - 1] == Matched(front, matches);
      } else {
        assert r == Matched(front, matches);
      }
    }
  }

  /** The result holds each matching record as often as the input does and
      no other record: duplicates of a matching route all appear. */
  lemma {:induction false} MatchedMultiplicity(buses: seq<BusRecord>, matches: seq<string>)
    ensures forall b :: multiset(Matched(buses, matches))[b]
                        == if IsMatch(b, matches) then multiset(buses)[b] else 0
  {
    if buses != [] {
      var front := buses[..|buses| - 1];
      var last := buses[|buses| - 1];
      MatchedMultiplicity(front, matches);
      assert buses == front + [last];
      assert multiset(buses) == multiset(front) + multiset{last};
    }
  }

  /** A record is in the result exactly when it is in the input and its
      lower-cased route is one of the matches. */
  lemma MatchedMembership(buses: seq<BusRecord>, matches: seq<string>)
    ensures forall b :: b in Matched(buses, matches) <==> b in buses && IsMatch(b, matches)
  {
    MatchedMultiplicity(buses, matches);
  }

  /** With no match nothing is returned. */
  lemma {:induction false} MatchedNone(buses: seq<BusRecord>)
    ensures Matched(buses, []) == []
  {
    if buses != [] {
      MatchedNone(buses[..|buses| - 1]);
    }
  }

  /** When every record matches, all are returned: the number of records in
      the result is not bounded by the number of matched names. */
  lemma {:induction false} MatchedAll(buses: seq<BusRecord>, matches: seq<string>)
    requires forall i :: 0 <= i < |buses| ==> IsMatch(buses[i], matches)
    ensures Matched(buses, matches) == buses
  {
    if buses != [] {
      MatchedAll(buses[..|buses| - 1], matches);
    }
  }

  /** If the matcher handed back every candidate name, every record would be
      kept: each record's own name is among the candidates. */
  lemma MatchedOwnNames(buses: seq<BusRecord>)
    ensures forall b :: b in buses ==> Lower(b.route) in RouteNames(buses)
    ensures Matched(buses, RouteNames(buses)) == buses
  {
    var names := RouteNames(buses);
    assert forall i :: 0 <= i < |buses| ==> names[i] == Lower(buses[i].route);
    MatchedAll(buses, names);
  }

  /** The lower-cased route names of some records. */
  ghost function RouteSet(buses: seq<BusRecord>): set<string>
  {
    set b | b in buses :: Lower(b.route)
  }

  /** A sequence has no more distinct elements than it has entries. */
  lemma {:induction false} SetOfSeqSize<T>(s: seq<T>)
    ensures |set x | x in s| <= |s|
  {
    if s != [] {
      var front := s[..|s| - 1];
      SetOfSeqSize(front);
      assert (set x | x in s) == (set x | x in front) + {s[|s| - 1]};
    }
  }

  /** With a matcher that keeps its contract, the result names at most five
      distinct routes, each one taken from the input. */
  lemma MatchedRouteBound(buses: seq<BusRecord>, matches: seq<string>)
    requires MatcherContract(matches, RouteNames(buses), MaxMatches)
    ensures RouteSet(Matched(buses, matches)) <= RouteSet(buses)
    ensures |RouteSet(Matched(buses, matches))| <= MaxMatches
  {
    var r := Matched(buses, matches);
    MatchedMembership(buses, matches);
    var names := set x | x in matches;
    assert RouteSet(r) <= names;
    assert names == RouteSet(r) + (names - RouteSet(r));
    SetOfSeqSize(matches);
  }

  // ================================================================ search_buses

  /** The record carries the display form of its own departure times. */
  predicate HasFormattedTimes(b: BusRecord)
    reads b
  {
    FormattedFrom(b.formattedTimes, b.departureTimes)
  }

  /** The loop of `search_buses`: walks the records in order, gives every
      matching one its `formatted_times` in place and collects it. */
  method CollectMatched(buses: seq<BusRecord>, matches: seq<string>)
    returns (results: seq<BusRecord>)
    modifies set b | b in buses
    ensures results == Matched(buses, matches)
    ensures forall b :: b in results ==> HasFormattedTimes(b)
    ensures forall b :: b in buses && b !in results ==> b.formattedTimes == old(b.formattedTimes)
  {
    results := [];
    for i := 0 to |buses|
      invariant results == Matched(buses[..i], matches)
      invariant forall b :: b in results ==> HasFormattedTimes(b)
      invariant forall b :: b in buses && b !in results ==> b.formattedTimes == old(b.formattedTimes)
    {
      var bus := buses[i];
      MatchedStep(buses, i, matches);
      if IsMatch(bus, matches) {
        var formatted := FormatDepartureTimes(bus.departureTimes);
        bus.formattedTimes := formatted;
        results := results + [bus];
      }
    }
    assert buses[..|buses|] == buses;
  }

  /** `search_buses(query)` over `buses`, the records `load_bus_data` would
      return: the effective query is matched against the lower-cased route
      names, and the matching records are returned, the very same objects,
      each with `formatted_times` set; no other record is touched. */
  method SearchBuses(query: string, buses: seq<BusRecord>, matcher: Matcher)
    returns (results: seq<BusRecord>)
    modifies set b | b in buses
    ensures results == Matched(buses, matcher(EffectiveQuery(query), RouteNames(buses), MaxMatches, Cutoff))
    ensures forall b :: b in results ==> HasFormattedTimes(b)
    ensures forall b :: b in buses && b !in results ==> b.formattedTimes == old(b.formattedTimes)
  {
    var q := Normalize(query);
    q := ResolveAlias(q);
    var routeNames := RouteNames(buses);
    var matches := matcher(q, routeNames, MaxMatches, Cutoff);
    results := CollectMatched(buses, matches);
  }
}
