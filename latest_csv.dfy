/**
 * `AGOLVehiclesPallet.get_latest_csv`: pick the latest
 * `vehicle_data_<YYYYMMDD>.csv` from the staging directory, cut the date
 * stamp out of its name, parse it as a calendar date and, when a freshness
 * window is configured, insist that the date is within that many days of
 * today.
 *
 * The directory listing is a sequence of file names in whatever order the
 * file system yields them, and "today" is a parameter (a day ordinal).
 */
module LatestCsv {
  import opened Wrappers
  import opened Text
  import opened Calendar

  const NamePrefix := "vehicle_data_"
  const NameSuffix := ".csv"

  /** Why `get_latest_csv` raised. */
  datatype CsvError =
    | NoMatchingCsv             // `csvs[-1]` on an empty list
    | UnparsableDate            // `int()` or `datetime.date()` refused the stamp
    | DayOverflow               // `datetime.date()` got a day too wide for a C `int`
    | DateOutOfRange            // `today - timedelta(days=i)` fell before `date.min`
    | NotRecent(path: string)   // the explicit staleness `ValueError`

  /** The Python exception class each failure surfaces as. */
  function ExceptionClass(e: CsvError): (name: string)
    ensures name == "IndexError" <==> e == NoMatchingCsv
    ensures name == "OverflowError" <==> e == DayOverflow || e == DateOutOfRange
    ensures name == "ValueError" <==> e == UnparsableDate || e.NotRecent?
  {
    match e
    case NoMatchingCsv => "IndexError"
    case UnparsableDate => "ValueError"
    case DayOverflow => "OverflowError"
    case DateOutOfRange => "OverflowError"
    case NotRecent(_) => "ValueError"
  }

  // ---------------------------------------------------------------------
  // Choosing the file
  // ---------------------------------------------------------------------

  /** The glob `vehicle_data_*.csv` on a single file name. */
  predicate MatchesGlob(name: string)
  {
    |name| >= |NamePrefix| + |NameSuffix|
    && name[..|NamePrefix|] == NamePrefix
    && name[|name| - |NameSuffix|..] == NameSuffix
  }

  /** The names the glob yields, in listing order. */
  function Matching(names: seq<string>): (r: seq<string>)
    ensures forall n :: n in r <==> n in names && MatchesGlob(n)
  {
    if names == [] then []
    else (if MatchesGlob(names[0]) then [names[0]] else []) + Matching(names[1..])
  }

  /** The last element of the sorted list: the greatest name in string order. */
  function Greatest(xs: seq<string>): (r: string)
    requires xs != []
    ensures r in xs
    ensures forall x :: x in xs ==> LessEq(x, r)
  {
    if |xs| == 1 then
      LessEqReflexive(xs[0]);
      xs[0]
    else
      var g := Greatest(xs[1..]);
      LessEqTotal(xs[0], g);
      LessEqReflexive(xs[0]);
      if LessEq(xs[0], g) then g
      else
        assert forall x :: x in xs[1..] ==> LessEq(x, xs[0]) by {
          forall x | x in xs[1..] ensures LessEq(x, xs[0]) {
            LessEqTransitive(x, g, xs[0]);
          }
        }
        xs[0]
  }

  /** `name` is what `sorted(glob(...))[-1]` picks out of `names`. */
  predicate IsLatestMatch(name: string, names: seq<string>)
  {
    name in names && MatchesGlob(name)
    && forall n :: n in names && MatchesGlob(n) ==> LessEq(n, name)
  }

  /** At most one name is the latest match. */
  lemma LatestMatchUnique(a: string, b: string, names: seq<string>)
    requires IsLatestMatch(a, names) && IsLatestMatch(b, names)
    ensures a == b
  {
    LessEqAntisymmetric(a, b);
  }

  predicate IsSorted(s: seq<string>)
  {
    forall i, j :: 0 <= i < j < |s| ==> LessEq(s[i], s[j])
  }

  /** Whatever order the names come in, the last of any sorted arrangement of
      them is `Greatest`. */
  lemma LastOfSortedIsGreatest(xs: seq<string>, sorted: seq<string>)
    requires xs != [] && multiset(sorted) == multiset(xs) && IsSorted(sorted)
    ensures |sorted| > 0 && sorted[|sorted| - 1] == Greatest(xs)
  {
    var last := sorted[|sorted| - 1];
    assert last in multiset(sorted);
    forall x | x in xs ensures LessEq(x, last) {
      assert x in multiset(sorted);
      var i :| 0 <= i < |sorted| && sorted[i] == x;
      if i == |sorted| - 1 { LessEqReflexive(x); }
    }
    LessEqAntisymmetric(last, Greatest(xs));
  }

  /** `Greatest` depends only on which names are present, not on their order
      or repetitions. */
  lemma GreatestIgnoresOrder(xs: seq<string>, ys: seq<string>)
    requires xs != [] && ys != []
    requires forall x :: x in xs <==> x in ys
    ensures Greatest(xs) == Greatest(ys)
  {
    LessEqAntisymmetric(Greatest(xs), Greatest(ys));
  }

  // ---------------------------------------------------------------------
  // Reading the date
  // ---------------------------------------------------------------------

  /** `Path(dir) / name`, rendered with `str`. */
  function JoinPath(dir: string, name: string): string
  {
    dir + "/" + name
  }

  /** `str(path).rsplit('_')[-1].split('.')[0]`. */
  function DateString(path: string): (r: string)
    ensures '_' !in r && '.' !in r
  {
    BeforeFirst('.', AfterLast('_', path))
  }

  /** The largest value a C `int` holds: the C `date` constructor converts its
      arguments to C `int` before it checks any range. */
  const CIntMax := 2147483647

  /** The three slices are digit strings, but the open-ended day slice is
      wider than a C `int`: `datetime.date()` raises `OverflowError`, which
      the `except ValueError` does not catch. The year and month slices have
      at most four and two digits, so only the day can overflow. */
  predicate DayExceedsCInt(s: string)
  {
    ParseInt(Take(s, 4)).Some? && ParseInt(Slice(s, 4, 6)).Some?
    && match ParseInt(Drop(s, 6))
       case Some(day) => day > CIntMax
       case None => false
  }

  /** `datetime.date(int(s[:4]), int(s[4:6]), int(s[6:]))`, with `None` for the
      `ValueError` that either step raises: the date is the one the three
      slices denote, and it is produced whenever they denote a valid date. */
  function ParseDate(s: string): (r: Option<Date>)
    ensures r.Some? ==> Valid(r.value)
                        && ParseInt(Take(s, 4)) == Some(r.value.year)
                        && ParseInt(Slice(s, 4, 6)) == Some(r.value.month)
                        && ParseInt(Drop(s, 6)) == Some(r.value.day)
    ensures forall year: nat, month: nat, day: nat
              | ParseInt(Take(s, 4)) == Some(year) && ParseInt(Slice(s, 4, 6)) == Some(month)
                && ParseInt(Drop(s, 6)) == Some(day) && Valid(Date(year, month, day))
              :: r == Some(Date(year, month, day))
    ensures r.Some? ==> !DayExceedsCInt(s)
  {
    match (ParseInt(Take(s, 4)), ParseInt(Slice(s, 4, 6)), ParseInt(Drop(s, 6)))
    case (Some(year), Some(month), Some(day)) =>
      if Valid(Date(year, month, day)) then Some(Date(year, month, day)) else None
    case _ => None
  }

  /** A stamp that parses is all digits and has at least seven of them: a
      non-digit anywhere or a missing piece is refused, and there is never a
      default date. The day slice is open-ended, so eight digits are not
      required. */
  lemma ParsedStampIsDigits(s: string)
    requires ParseDate(s).Some?
    ensures AllDigits(s) && |s| >= 7
  {
    var year, month, day := Take(s, 4), Slice(s, 4, 6), Drop(s, 6);
    SlicesCover(s, 4, 6);
    assert s == year + month + day;
    forall i | 0 <= i < |s| ensures IsDigit(s[i]) {
      if i < |year| {
        assert s[i] == year[i];
      } else if i < |year| + |month| {
        assert s[i] == month[i - |year|];
      } else {
        assert s[i] == day[i - |year| - |month|];
      }
    }
  }

  /** The eight-digit stamp `YYYYMMDD` the upstream export writes for a date. */
  function Stamp(d: Date): (s: string)
    requires Valid(d)
    ensures |s| == 8 && AllDigits(s)
  {
    Pad(d.year, 4) + Pad(d.month, 2) + Pad(d.day, 2)
  }

  lemma StampPieces(d: Date)
    requires Valid(d)
    ensures Take(Stamp(d), 4) == Pad(d.year, 4)
    ensures Slice(Stamp(d), 4, 6) == Pad(d.month, 2)
    ensures Drop(Stamp(d), 6) == Pad(d.day, 2)
  {
  }

  /** Parsing a stamp gives back the date it was written from. */
  lemma ParseStamp(d: Date)
    requires Valid(d)
    ensures ParseDate(Stamp(d)) == Some(d)
  {
    StampPieces(d);
    ValueOfPad(d.year, 4);
    ValueOfPad(d.month, 2);
    ValueOfPad(d.day, 2);
  }

  /** An eight-character stamp that parses is the stamp of the date it parses to. */
  lemma StampOfParse(s: string)
    requires |s| == 8 && ParseDate(s).Some?
    ensures Stamp(ParseDate(s).value) == s
  {
    var d := ParseDate(s).value;
    var year, month, day := Take(s, 4), Slice(s, 4, 6), Drop(s, 6);
    PadOfValue(year);
    PadOfValue(month);
    PadOfValue(day);
    SlicesCover(s, 4, 6);
  }

  /** The name the upstream export gives the file for a date. */
  function NameFor(d: Date): (name: string)
    requires Valid(d)
    ensures MatchesGlob(name)
  {
    NamePrefix + Stamp(d) + NameSuffix
  }

  /** The date stamp cut out of a conventionally named file is its stamp,
      whatever directory it sits in. */
  lemma DateStringOfName(dir: string, d: Date)
    requires Valid(d)
    ensures DateString(JoinPath(dir, NameFor(d))) == Stamp(d)
  {
    var s := Stamp(d);
    DigitsHaveNoSeparators(s);
    var tail := s + NameSuffix;
    assert '_' !in NameSuffix;
    assert '_' !in tail;
    assert NamePrefix == "vehicle_data" + ['_'];
    Regroup(dir + "/", "vehicle_data", s, NameSuffix);
    assert JoinPath(dir, NameFor(d)) == ((dir + "/") + "vehicle_data") + ['_'] + tail;
    AfterLastOfLast('_', (dir + "/") + "vehicle_data", tail);
    assert NameSuffix == ['.'] + "csv";
    assert tail == s + ['.'] + "csv";
    BeforeFirstOfFirst('.', s, "csv");
  }

  lemma Regroup(head: string, word: string, s: string, suffix: string)
    ensures head + (word + ['_'] + s + suffix) == (head + word) + ['_'] + (s + suffix)
  {
  }

  lemma DigitsHaveNoSeparators(s: string)
    requires AllDigits(s)
    ensures '_' !in s && '.' !in s
  {
  }

  /** For conventionally named files, string order is date order. This is the
      invariant that makes "sort and take the last" pick the newest file. */
  lemma SortOrderIsChronological(a: Date, b: Date)
    requires Valid(a) && Valid(b)
    ensures LessEq(NameFor(a), NameFor(b)) <==> ToOrdinal(a) <= ToOrdinal(b)
  {
    var sa, sb := Stamp(a), Stamp(b);
    assert NameFor(a) == NamePrefix + (sa + NameSuffix);
    assert NameFor(b) == NamePrefix + (sb + NameSuffix);
    LessEqCommonPrefix(NamePrefix, sa + NameSuffix, sb + NameSuffix);
    OrdinalOrder(a, b);
    if sa == sb {
      ParseStamp(a);
      ParseStamp(b);
      LessEqReflexive(sa + NameSuffix);
    } else {
      LessEqEqualLength(sa, sb, NameSuffix, NameSuffix);
      LessEqIsNumeric(sa, sb);
      StampValue(a);
      StampValue(b);
    }
  }

  /** A stamp read as a number is `YYYY * 10000 + MM * 100 + DD`. */
  lemma StampValue(d: Date)
    requires Valid(d)
    ensures Value(Stamp(d)) == d.year * 10000 + d.month * 100 + d.day
  {
    PaddedFieldsValue(d.year, d.month, d.day);
  }

  lemma PaddedFieldsValue(year: nat, month: nat, day: nat)
    requires year < 10000 && month < 100 && day < 100
    ensures Value(Pad(year, 4) + Pad(month, 2) + Pad(day, 2)) == year * 10000 + month * 100 + day
  {
    var y, m, dd := Pad(year, 4), Pad(month, 2), Pad(day, 2);
    assert Pow10(2) == 100;
    assert Pow10(4) == 10000;
    ValueOfPad(year, 4);
    ValueOfPad(month, 2);
    ValueOfPad(day, 2);
    ValueConcat(y, m);
    var ym := Value(y + m);
    assert ym == year * 100 + month;
    ValueConcat(y + m, dd);
    assert Value(y + m + dd) == ym * 100 + day;
  }

  // ---------------------------------------------------------------------
  // The freshness window
  // ---------------------------------------------------------------------

  /** `[today - timedelta(days=i) for i in range(previousDays + 1)]`, as
      ordinals; `None` for the `OverflowError` raised once a day before
      `date(1, 1, 1)` would be needed. */
  function PreviousDates(today: Ordinal, previousDays: int): (r: Option<seq<int>>)
    ensures r.None? <==> previousDays >= today
    ensures r.Some? ==> |r.value| == if previousDays >= 0 then previousDays + 1 else 0
  {
    if previousDays >= 0 && today - previousDays < MinOrdinal then None
    else Some(seq(if previousDays >= 0 then previousDays + 1 else 0, i => today - i))
  }

  /** A day is in the window list exactly when it is today or at most
      `previousDays` days earlier; the window never reaches into the future. */
  lemma InPreviousDates(today: Ordinal, previousDays: int, o: int)
    requires PreviousDates(today, previousDays).Some?
    ensures o in PreviousDates(today, previousDays).value <==> 0 <= today - o <= previousDays
  {
    var ds := PreviousDates(today, previousDays).value;
    if 0 <= today - o <= previousDays {
      assert ds[today - o] == o;
    }
  }

  // ---------------------------------------------------------------------
  // get_latest_csv
  // ---------------------------------------------------------------------

  /** Everything `get_latest_csv` does once the latest file is known: read its
      stamp, parse it, and check it against the window. */
  function CheckLatest(latest: string, previousDays: int, today: Ordinal)
    : (r: Result<(string, string), CsvError>)
    ensures r.Ok? ==> r.value == (latest, DateString(latest)) && ParseDate(r.value.1).Some?
    ensures r.Err? ==> r.error != NoMatchingCsv
    ensures r.Err? && r.error.NotRecent? ==> previousDays > 0
  {
    var dateString := DateString(latest);
    if DayExceedsCInt(dateString) then Err(DayOverflow)
    else match ParseDate(dateString)
    case None => Err(UnparsableDate)
    case Some(csvDate) =>
      match PreviousDates(today, previousDays)
      case None => Err(DateOutOfRange)
      case Some(previous) =>
        if previousDays > 0 && ToOrdinal(csvDate) !in previous then Err(NotRecent(latest))
        else Ok((latest, dateString))
  }

  /** `get_latest_csv(dir, previousDays)` on a directory holding `names`, run
      on the day `today`: the path of the chosen file and its unmodified date
      stamp, or the failure it raises. */
  function GetLatestCsv(dir: string, names: seq<string>, previousDays: int, today: Ordinal)
    : (r: Result<(string, string), CsvError>)
    ensures r == Err(NoMatchingCsv) <==> forall n :: n in names ==> !MatchesGlob(n)
    ensures r.Ok? ==> exists name :: IsLatestMatch(name, names)
                                     && r.value == (JoinPath(dir, name), DateString(JoinPath(dir, name)))
                                     && ParseDate(r.value.1).Some?
    ensures r.Err? && r.error.NotRecent? ==> previousDays > 0
  {
    var matches := Matching(names);
    if matches == [] then Err(NoMatchingCsv)
    else
      var name := Greatest(matches);
      assert IsLatestMatch(name, names);
      CheckLatest(JoinPath(dir, name), previousDays, today)
  }

  /** Once the latest match is known, the run is `CheckLatest` on its path. */
  lemma SelectsLatest(dir: string, names: seq<string>, previousDays: int, today: Ordinal, name: string)
    requires IsLatestMatch(name, names)
    ensures GetLatestCsv(dir, names, previousDays, today) == CheckLatest(JoinPath(dir, name), previousDays, today)
  {
    assert name in Matching(names);
    LatestMatchUnique(Greatest(Matching(names)), name, names);
  }

  /** The chosen file is the latest match however the directory lists it. */
  lemma SelectionIgnoresListingOrder(dir: string, names: seq<string>, names': seq<string>,
                                     previousDays: int, today: Ordinal)
    requires forall n :: n in names <==> n in names'
    ensures GetLatestCsv(dir, names, previousDays, today) == GetLatestCsv(dir, names', previousDays, today)
  {
    var m, m' := Matching(names), Matching(names');
    if m != [] {
      assert m[0] in m';
      var name := Greatest(m);
      assert IsLatestMatch(name, names');
      SelectsLatest(dir, names, previousDays, today, name);
      SelectsLatest(dir, names', previousDays, today, name);
    }
  }

  /** A stamp that does not parse fails whatever the window: with
      `OverflowError` when its day is too wide for a C `int`, with `ValueError`
      otherwise. */
  lemma UnparsableDateFails(dir: string, names: seq<string>, previousDays: int, today: Ordinal, name: string)
    requires IsLatestMatch(name, names)
    requires ParseDate(DateString(JoinPath(dir, name))).None?
    ensures DayExceedsCInt(DateString(JoinPath(dir, name)))
            ==> GetLatestCsv(dir, names, previousDays, today) == Err(DayOverflow)
    ensures !DayExceedsCInt(DateString(JoinPath(dir, name)))
            ==> GetLatestCsv(dir, names, previousDays, today) == Err(UnparsableDate)
  {
    SelectsLatest(dir, names, previousDays, today, name);
  }

  /** Without a window (`previousDays <= 0`, the default being -1) any date
      that parses is accepted, however old. */
  lemma NoWindowAcceptsAnyDate(dir: string, names: seq<string>, previousDays: int, today: Ordinal,
                                name: string, d: Date)
    requires previousDays <= 0 && IsLatestMatch(name, names)
    requires ParseDate(DateString(JoinPath(dir, name))) == Some(d)
    ensures GetLatestCsv(dir, names, previousDays, today)
            == Ok((JoinPath(dir, name), DateString(JoinPath(dir, name))))
  {
    SelectsLatest(dir, names, previousDays, today, name);
  }

  /** With a window of `previousDays > 0` days the file is accepted exactly when
      its date is between `previousDays` days ago and today; otherwise it is
      refused as not recent. */
  lemma WindowAcceptsExactlyRecent(dir: string, names: seq<string>, previousDays: int, today: Ordinal,
                                   name: string, d: Date)
    requires 0 < previousDays < today && IsLatestMatch(name, names)
    requires ParseDate(DateString(JoinPath(dir, name))) == Some(d)
    ensures var r := GetLatestCsv(dir, names, previousDays, today);
            && (r == Ok((JoinPath(dir, name), DateString(JoinPath(dir, name))))
                <==> 0 <= today - ToOrdinal(d) <= previousDays)
            && (r.Ok? || r == Err(NotRecent(JoinPath(dir, name))))
  {
    SelectsLatest(dir, names, previousDays, today, name);
    InPreviousDates(today, previousDays, ToOrdinal(d));
  }

  /** The edges of the window: `previousDays` days ago is in, one day more is
      out, and so is any future date. */
  lemma WindowEdges(dir: string, names: seq<string>, previousDays: int, today: Ordinal,
                    name: string, d: Date)
    requires 0 < previousDays < today && IsLatestMatch(name, names)
    requires ParseDate(DateString(JoinPath(dir, name))) == Some(d)
    ensures ToOrdinal(d) == today - previousDays ==> GetLatestCsv(dir, names, previousDays, today).Ok?
    ensures ToOrdinal(d) == today - previousDays - 1
            ==> GetLatestCsv(dir, names, previousDays, today) == Err(NotRecent(JoinPath(dir, name)))
    ensures ToOrdinal(d) > today
            ==> GetLatestCsv(dir, names, previousDays, today) == Err(NotRecent(JoinPath(dir, name)))
  {
    SelectsLatest(dir, names, previousDays, today, name);
    InPreviousDates(today, previousDays, ToOrdinal(d));
  }

  /** A window reaching back before `date(1, 1, 1)` overflows while the list of
      dates is built, before any staleness check. */
  lemma WindowBeforeFirstDayOverflows(dir: string, names: seq<string>, previousDays: int, today: Ordinal,
                                      name: string, d: Date)
    requires previousDays >= today && IsLatestMatch(name, names)
    requires ParseDate(DateString(JoinPath(dir, name))) == Some(d)
    ensures GetLatestCsv(dir, names, previousDays, today) == Err(DateOutOfRange)
  {
    SelectsLatest(dir, names, previousDays, today, name);
  }
}

/** Worked cases of the selector on concrete listings. */
module LatestCsvExamples {
  import opened Wrappers
  import opened Text
  import opened Calendar
  import opened LatestCsv

  /** Nothing forces eight digits: a seven-digit stamp leaves a one-digit day. */
  lemma SevenDigitStampParses()
    ensures ParseDate("2023011") == Some(Date(2023, 1, 1))
  {
    assert Take("2023011", 4) == "2023";
    assert Slice("2023011", 4, 6) == "01";
    assert Drop("2023011", 6) == "1";
    PadLiterals();
    assert Pad(1, 1) == "1" by { assert Pad(0, 0) == []; }
    ValueOfPad(2023, 4);
    ValueOfPad(1, 2);
    ValueOfPad(1, 1);
  }

  /** A ten-digit day slice is all digits, so `int()` accepts it, but it is
      too wide for the C `int` that `datetime.date()` converts it to. */
  lemma TenDigitDayOverflows(s: string)
    requires s == "2023019999999999"
    ensures DayExceedsCInt(s) && ParseDate(s).None?
  {
    var nines := "99999";
    assert Take(s, 4) == "2023";
    assert Slice(s, 4, 6) == "01";
    assert Drop(s, 6) == nines + nines;
    FiveNines(nines);
    ValueConcat(nines, nines);
  }

  lemma FiveNines(s: string)
    requires s == "99999"
    ensures AllDigits(s) && Value(s) == 99999 && Pow10(|s|) == 100000
  {
    assert Pad(99999, 5) == s;
    ValueOfPad(99999, 5);
  }

  const Jan01 := Date(2023, 1, 1)
  const Jan10 := Date(2023, 1, 10)
  const Jan15 := Date(2023, 1, 15)
  const Jan16 := Date(2023, 1, 16)

  lemma PadLiterals()
    ensures Pad(2023, 4) == "2023"
    ensures Pad(1, 2) == "01" && Pad(10, 2) == "10" && Pad(15, 2) == "15"
  {
    assert Pad(2, 1) == "2" by { assert Pad(0, 0) == []; }
    assert Pad(20, 2) == "20";
    assert Pad(202, 3) == "202";
    assert Pad(0, 1) == "0" by { assert Pad(0, 0) == []; }
    assert Pad(1, 1) == "1" by { assert Pad(0, 0) == []; }
  }

  lemma ExampleStamps()
    ensures Valid(Jan01) && Valid(Jan10) && Valid(Jan15)
    ensures Stamp(Jan01) == "20230101" && Stamp(Jan10) == "20230110" && Stamp(Jan15) == "20230115"
  {
    PadLiterals();
  }

  lemma ExampleNames()
    ensures Valid(Jan01) && Valid(Jan10) && Valid(Jan15)
    ensures NameFor(Jan01) == "vehicle_data_20230101.csv"
    ensures NameFor(Jan10) == "vehicle_data_20230110.csv"
    ensures NameFor(Jan15) == "vehicle_data_20230115.csv"
  {
    ExampleStamps();
    NameLiterals();
  }

  lemma NameLiterals()
    ensures NamePrefix + "20230101" + NameSuffix == "vehicle_data_20230101.csv"
    ensures NamePrefix + "20230110" + NameSuffix == "vehicle_data_20230110.csv"
    ensures NamePrefix + "20230115" + NameSuffix == "vehicle_data_20230115.csv"
  {
  }

  lemma ExampleLatest()
    ensures Valid(Jan15)
    ensures IsLatestMatch(NameFor(Jan15), ["vehicle_data_20230101.csv", "vehicle_data_20230115.csv",
                                           "vehicle_data_20230110.csv"])
  {
    ExampleNames();
    SortOrderIsChronological(Jan01, Jan15);
    SortOrderIsChronological(Jan10, Jan15);
    LessEqReflexive(NameFor(Jan15));
  }

  lemma FleetPath()
    ensures JoinPath("fleet", "vehicle_data_20230115.csv") == "fleet/vehicle_data_20230115.csv"
  {
  }

  /** Three exports listed out of order: the selector takes the 15th, which a
      seven-day window on the 16th accepts, and hands back its bare stamp. */
  lemma ListingExample(names: seq<string>, today: Ordinal)
    requires names == ["vehicle_data_20230101.csv", "vehicle_data_20230115.csv", "vehicle_data_20230110.csv"]
    requires Valid(Jan16) && today == ToOrdinal(Jan16)
    ensures GetLatestCsv("fleet", names, 7, today) == Ok(("fleet/vehicle_data_20230115.csv", "20230115"))
    ensures ParseDate("20230115") == Some(Jan15)
  {
    ExampleLatest();
    ExampleNames();
    ExampleStamps();
    assert today - ToOrdinal(Jan15) == 1;
    DateStringOfName("fleet", Jan15);
    ParseStamp(Jan15);
    FleetPath();
    WindowAcceptsExactlyRecent("fleet", names, 7, today, NameFor(Jan15), Jan15);
  }
}
