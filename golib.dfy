/** The pieces of Go's standard library that the ingest-and-search core relies
    on (strings, strconv, path/filepath, time), stated as functions over
    `string = seq<char>`. Each one follows the library's documented behaviour
    for the inputs the core gives it. */
module GoLib {

  datatype Option<T> = None | Some(value: T)

  /** A Go `(value, error)` pair: the value when the error is nil. */
  datatype Result<T, E> = Ok(value: T) | Err(error: E)

  const MinInt64: int := -0x8000_0000_0000_0000
  const MaxInt64: int := 0x7FFF_FFFF_FFFF_FFFF

  // ---------------------------------------------------------------------------
  // strings.TrimSpace

  /** unicode.IsSpace: the Unicode White_Space property. */
  predicate IsSpace(c: char) {
    || ('\U{0009}' <= c <= '\U{000D}')
    || c == ' ' || c == '\U{0085}' || c == '\U{00A0}' || c == '\U{1680}'
    || ('\U{2000}' <= c <= '\U{200A}')
    || c == '\U{2028}' || c == '\U{2029}' || c == '\U{202F}' || c == '\U{205F}'
    || c == '\U{3000}'
  }

  predicate AllSpace(s: string) {
    forall i :: 0 <= i < |s| ==> IsSpace(s[i])
  }

  /** Drops the leading white space: the result is a suffix of `s` that does
      not start with a space, and everything dropped was a space. */
  function TrimLeftSpace(s: string): (r: string)
    ensures |r| <= |s| && r == s[|s| - |r|..]
    ensures AllSpace(s[..|s| - |r|])
    ensures r != [] ==> !IsSpace(r[0])
  {
    if s != [] && IsSpace(s[0]) then TrimLeftSpace(s[1..]) else s
  }

  /** Drops the trailing white space: the result is a prefix of `s` that does
      not end with a space, and everything dropped was a space. */
  function TrimRightSpace(s: string): (r: string)
    ensures |r| <= |s| && r == s[..|r|]
    ensures AllSpace(s[|r|..])
    ensures r != [] ==> !IsSpace(r[|r| - 1])
  {
    if s != [] && IsSpace(s[|s| - 1]) then
      var r := TrimRightSpace(s[..|s| - 1]);
      assert s[|r|..] == s[..|s| - 1][|r|..] + [s[|s| - 1]];
      r
    else s
  }

  /** strings.TrimSpace: the part of `s` between its leading and its trailing
      white space, which itself neither starts nor ends with a space. */
  function TrimSpace(s: string): (r: string)
    ensures |r| <= |s|
    ensures r != [] ==> !IsSpace(r[0]) && !IsSpace(r[|r| - 1])
  {
    TrimRightSpace(TrimLeftSpace(s))
  }

  /** What TrimSpace drops is white space on either side: the result is the
      slice of `s` that starts after the leading and ends before the trailing
      white space. */
  lemma TrimSpaceSlice(s: string)
    ensures var r := TrimSpace(s);
      exists k :: 0 <= k <= |s| - |r| && s[k..k + |r|] == r && AllSpace(s[..k]) && AllSpace(s[k + |r|..])
  {
    var l := TrimLeftSpace(s);
    var r := TrimRightSpace(l);
    var k := |s| - |l|;
    assert r == TrimSpace(s);
    assert l == s[k..];
    assert s[k..k + |r|] == r by { assert s[k..k + |r|] == l[..|r|]; }
    assert AllSpace(s[k + |r|..]) by { assert s[k + |r|..] == l[|r|..]; }
    assert AllSpace(s[..k]);
  }

  /** `strings.TrimSpace(s) == ""` exactly when every character of `s` is
      white space. */
  lemma TrimSpaceEmptyIff(s: string)
    ensures TrimSpace(s) == "" <==> AllSpace(s)
  {
    var l := TrimLeftSpace(s);
    if l != [] {
      assert s[|s| - |l|] == l[0];
    }
  }

  // ---------------------------------------------------------------------------
  // strings.Count, strings.Split, strings.Join (single-character separator)

  function Count(s: string, c: char): nat {
    if s == [] then 0 else (if s[0] == c then 1 else 0) + Count(s[1..], c)
  }

  /** strings.Split(s, string(sep)): the maximal pieces between occurrences
      of `sep`; an empty `s` gives one empty piece. */
  function Split(s: string, sep: char): (parts: seq<string>)
    ensures |parts| == Count(s, sep) + 1
    ensures forall i :: 0 <= i < |parts| ==> sep !in parts[i]
  {
    if s == [] then [""]
    else
      var rest := Split(s[1..], sep);
      if s[0] == sep then [""] + rest else [[s[0]] + rest[0]] + rest[1..]
  }

  function Join(parts: seq<string>, sep: char): string
    requires parts != []
  {
    if |parts| == 1 then parts[0] else parts[0] + [sep] + Join(parts[1..], sep)
  }

  /** Splitting loses nothing: joining the pieces gives the input back. */
  lemma {:induction false} JoinSplit(s: string, sep: char)
    ensures Join(Split(s, sep), sep) == s
  {
    if s != [] {
      JoinSplit(s[1..], sep);
      var rest := Split(s[1..], sep);
      if s[0] != sep {
        var parts := [[s[0]] + rest[0]] + rest[1..];
        if |rest| > 1 {
          assert parts[1..] == rest[1..];
          assert Join(rest, sep) == rest[0] + [sep] + Join(rest[1..], sep);
        }
      } else {
        assert ([""] + rest)[1..] == rest;
      }
    }
  }

  /** A separator-free prefix followed by the separator splits off as the
      first piece. */
  lemma {:induction false} SplitAfterPrefix(a: string, b: string, sep: char)
    requires sep !in a
    ensures Split(a + [sep] + b, sep) == [a] + Split(b, sep)
  {
    if a != [] {
      assert (a + [sep] + b)[1..] == a[1..] + [sep] + b;
      SplitAfterPrefix(a[1..], b, sep);
      assert [a[0]] + a[1..] == a;
    } else {
      assert (a + [sep] + b)[1..] == b;
    }
  }

  lemma {:induction false} SplitWithoutSeparator(b: string, sep: char)
    requires sep !in b
    ensures Split(b, sep) == [b]
  {
    if b != [] {
      SplitWithoutSeparator(b[1..], sep);
      assert [b[0]] + b[1..] == b;
    }
  }

  // ---------------------------------------------------------------------------
  // strings.HasSuffix, strings.TrimSuffix, strings.ReplaceAll (one character)

  predicate HasSuffix(s: string, suffix: string) {
    |suffix| <= |s| && s[|s| - |suffix|..] == suffix
  }

  function TrimSuffix(s: string, suffix: string): (r: string)
    ensures HasSuffix(s, suffix) ==> r + suffix == s
    ensures !HasSuffix(s, suffix) ==> r == s
  {
    if HasSuffix(s, suffix) then s[..|s| - |suffix|] else s
  }

  /** strings.ReplaceAll(s, string(from), string(to)). */
  function ReplaceChar(s: string, from: char, to: char): (r: string)
    ensures |r| == |s|
    ensures forall i :: 0 <= i < |s| ==> r[i] == (if s[i] == from then to else s[i])
  {
    if s == [] then [] else [if s[0] == from then to else s[0]] + ReplaceChar(s[1..], from, to)
  }

  // ---------------------------------------------------------------------------
  // Decimal numerals: strconv.ParseInt(s, 10, 64) and fmt's %d

  predicate IsDigit(c: char) {
    '0' <= c <= '9'
  }

  predicate AllDigits(s: string) {
    forall i :: 0 <= i < |s| ==> IsDigit(s[i])
  }

  function DigitsValue(s: string): nat
    requires AllDigits(s)
  {
    if s == [] then 0
    else DigitsValue(s[..|s| - 1]) * 10 + (s[|s| - 1] as int - '0' as int)
  }

  function DigitChar(d: nat): char
    requires d < 10
  {
    ('0' as int + d) as char
  }

  /** The shortest decimal numeral of `n`. */
  function FormatNat(n: nat): (s: string)
    ensures s != [] && AllDigits(s) && DigitsValue(s) == n
    ensures n > 0 ==> s[0] != '0'
  {
    if n < 10 then [DigitChar(n)]
    else
      var h := FormatNat(n / 10);
      var s := h + [DigitChar(n % 10)];
      assert s[..|s| - 1] == h;
      s
  }

  /** fmt's %d (strconv.Itoa) of an integer. */
  function FormatInt(n: int): string {
    if n < 0 then "-" + FormatNat(-n) else FormatNat(n)
  }

  /** strconv.ParseInt(s, 10, 64): an optional sign, one or more decimal
      digits and nothing else, with a value in the int64 range. Go reports a
      syntax error or a range error; both are `None` here. */
  function ParseInt64(s: string): (r: Option<int>)
    ensures r.Some? ==> MinInt64 <= r.value <= MaxInt64
    ensures r.Some? ==> s != [] && IsDigit(s[|s| - 1]) && AllDigits(s[1..])
    ensures r.Some? ==> IsDigit(s[0]) || ((s[0] == '+' || s[0] == '-') && |s| > 1)
  {
    if s == [] then None
    else
      var neg := s[0] == '-';
      var body := if s[0] == '+' || s[0] == '-' then s[1..] else s;
      if body == [] || !AllDigits(body) then None
      else
        var un := DigitsValue(body);
        if !neg && un > MaxInt64 then None
        else if neg && un > -MinInt64 then None
        else Some(if neg then -(un as int) else un as int)
  }

  /** A numeral beyond the int64 range is a range error, not a wrapped
      value. */
  lemma ParseOutOfRange(n: int)
    requires n < MinInt64 || n > MaxInt64
    ensures ParseInt64(FormatInt(n)) == None
  {
    if n < 0 {
      assert ("-" + FormatNat(-n))[1..] == FormatNat(-n);
    }
  }

  /** ParseInt64 reads back every int64 that %d prints. */
  lemma ParseFormatInt(n: int)
    requires MinInt64 <= n <= MaxInt64
    ensures ParseInt64(FormatInt(n)) == Some(n)
  {
    if n < 0 {
      assert ("-" + FormatNat(-n))[1..] == FormatNat(-n);
    }
  }

  /** Any digit string in range reads as its value, leading zeros and a '+'
      sign included; with '-' it reads as the negated value, down to
      MinInt64. */
  lemma ParseDigits(digits: string)
    requires digits != [] && AllDigits(digits)
    ensures DigitsValue(digits) <= MaxInt64 ==>
      && ParseInt64(digits) == Some(DigitsValue(digits) as int)
      && ParseInt64("+" + digits) == Some(DigitsValue(digits) as int)
    ensures DigitsValue(digits) <= -MinInt64 ==> ParseInt64("-" + digits) == Some(-(DigitsValue(digits) as int))
  {
    assert ("+" + digits)[1..] == digits;
    assert ("-" + digits)[1..] == digits;
  }

  // ---------------------------------------------------------------------------
  // path/filepath.Base on a slash-separated path

  function StripTrailingSlashes(p: string): (r: string)
    ensures |r| <= |p| && r == p[..|r|]
    ensures r != [] ==> r[|r| - 1] != '/'
  {
    if p != [] && p[|p| - 1] == '/' then StripTrailingSlashes(p[..|p| - 1]) else p
  }

  /** What follows the last '/'. */
  function LastElement(p: string): (r: string)
    ensures '/' !in r
    ensures p != [] && p[|p| - 1] != '/' ==> r != []
  {
    if '/' in p then LastElement(p[1..]) else p
  }

  /** filepath.Base: the last element of the path after trailing slashes are
      removed; "." for the empty path and "/" for a path of slashes. */
  function Base(path: string): (r: string)
    ensures r != []
    ensures r == "/" || '/' !in r
  {
    if path == [] then "."
    else
      var p := StripTrailingSlashes(path);
      if p == [] then "/" else LastElement(p)
  }

  /** The base of a file in a directory is the file's name, and trailing
      slashes do not change the base. */
  lemma BaseOfChild(dir: string, name: string)
    requires name != [] && '/' !in name
    ensures Base(dir + "/" + name) == name
    ensures Base(dir + "/" + name + "/") == name
  {
    LastElementAfterSlash(dir, name);
    var p := dir + "/" + name;
    assert (p + "/")[..|p + "/"| - 1] == p;
  }

  lemma {:induction false} LastElementAfterSlash(a: string, name: string)
    requires '/' !in name
    ensures LastElement(a + "/" + name) == name
  {
    var p := a + "/" + name;
    assert p[|a|] == '/';
    if a == [] {
      assert p[1..] == name;
    } else {
      assert p[1..] == a[1..] + "/" + name;
      LastElementAfterSlash(a[1..], name);
    }
  }

  // ---------------------------------------------------------------------------
  // time.Parse("2006-01-02", v) in UTC, as Unix seconds

  const SecondsPerDay: int := 86400

  predicate IsLeapYear(y: int) {
    y % 4 == 0 && (y % 100 != 0 || y % 400 == 0)
  }

  function DaysIn(m: int, y: int): int {
    if m == 2 then (if IsLeapYear(y) then 29 else 28)
    else if m == 4 || m == 6 || m == 9 || m == 11 then 30
    else 31
  }

  /** Days from 1970-01-01 to the given proleptic Gregorian date (the
      civil-from-days algorithm; `/` on a positive divisor floors, as the
      algorithm needs). */
  function DaysFromCivil(y: int, m: int, d: int): int
    requires 1 <= m <= 12
  {
    var yy := if m <= 2 then y - 1 else y;
    var era := yy / 400;
    var yoe := yy - era * 400;
    var mp := (m + 9) % 12;
    var doy := (153 * mp + 2) / 5 + d - 1;
    var doe := yoe * 365 + yoe / 4 - yoe / 100 + doy;
    era * 146097 + doe - 719468
  }

  /** The layout "2006-01-02" accepts exactly four year digits, two month
      digits and two day digits separated by '-', with a month of 1..12 and a
      day that exists in that month; the time is midnight UTC. */
  function ParseDate(v: string): (r: Option<int>)
    ensures r.Some? ==> |v| == 10 && v[4] == '-' && v[7] == '-'
    ensures r.Some? ==> AllDigits(v[..4]) && AllDigits(v[5..7]) && AllDigits(v[8..])
    ensures r.Some? ==> r.value % SecondsPerDay == 0
  {
    if |v| == 10 && AllDigits(v[..4]) && v[4] == '-' && AllDigits(v[5..7]) && v[7] == '-' && AllDigits(v[8..])
    then
      var y := DigitsValue(v[..4]);
      var m := DigitsValue(v[5..7]);
      var d := DigitsValue(v[8..]);
      if 1 <= m <= 12 && 1 <= d <= DaysIn(m, y) then
        var days := DaysFromCivil(y, m, d);
        WholeDays(days);
        Some(days * SecondsPerDay)
      else None
    else None
  }

  function Pow10(w: nat): nat {
    if w == 0 then 1 else 10 * Pow10(w - 1)
  }

  /** The `w`-digit zero-padded numeral of `n`, as the layout's "2006", "01"
      and "02" print it. */
  function Pad(n: nat, w: nat): (s: string)
    requires n < Pow10(w)
    ensures |s| == w && AllDigits(s) && DigitsValue(s) == n
  {
    if w == 0 then []
    else
      var h := Pad(n / 10, w - 1);
      var s := h + [DigitChar(n % 10)];
      assert s[..|s| - 1] == h;
      s
  }

  /** Every digit string is the padded numeral of its value. */
  lemma {:induction false} PadDigits(s: string)
    requires AllDigits(s)
    ensures DigitsValue(s) < Pow10(|s|)
    ensures Pad(DigitsValue(s), |s|) == s
  {
    if s != [] {
      var init := s[..|s| - 1];
      PadDigits(init);
      var d := s[|s| - 1] as int - '0' as int;
      var n := DigitsValue(init) * 10 + d;
      assert n / 10 == DigitsValue(init) && n % 10 == d;
      assert s == init + [s[|s| - 1]];
    }
  }

  /** A date printed in the layout "2006-01-02". */
  function FormatDate(y: nat, m: nat, d: nat): (v: string)
    requires y < 10000 && m < 100 && d < 100
    ensures |v| == 10
  {
    Pad(y, 4) + "-" + Pad(m, 2) + "-" + Pad(d, 2)
  }

  /** Parsing a printed date accepts it exactly when the month and day are
      a real date, and gives midnight UTC of that day. */
  lemma ParseFormattedDate(y: nat, m: nat, d: nat)
    requires y < 10000 && m < 100 && d < 100
    ensures ParseDate(FormatDate(y, m, d)) ==
      if 1 <= m <= 12 && 1 <= d <= DaysIn(m, y) then Some(DaysFromCivil(y, m, d) * SecondsPerDay) else None
  {
    var v := FormatDate(y, m, d);
    assert v[..4] == Pad(y, 4) && v[4] == '-' && v[5..7] == Pad(m, 2) && v[7] == '-' && v[8..] == Pad(d, 2);
  }

  /** Conversely, every string the layout accepts is a printed date. */
  lemma ParsedDateIsFormatted(v: string)
    requires ParseDate(v).Some?
    ensures var y, m, d := DigitsValue(v[..4]), DigitsValue(v[5..7]), DigitsValue(v[8..]);
      && y < 10000 && 1 <= m <= 12 && 1 <= d <= DaysIn(m, y)
      && v == FormatDate(y, m, d)
      && ParseDate(v) == Some(DaysFromCivil(y, m, d) * SecondsPerDay)
  {
    PadDigits(v[..4]);
    PadDigits(v[5..7]);
    PadDigits(v[8..]);
    assert v == v[..4] + "-" + v[5..7] + "-" + v[8..];
  }

  lemma WholeDays(n: int)
    ensures (n * SecondsPerDay) % SecondsPerDay == 0
  {
    assert n * SecondsPerDay == SecondsPerDay * n + 0;
  }

  /** The day count is the calendar's: within a month each day is one more
      than the day before ... */
  lemma NextDayInMonth(y: int, m: int, d: int)
    requires 1 <= m <= 12 && 1 <= d < DaysIn(m, y)
    ensures DaysFromCivil(y, m, d + 1) == DaysFromCivil(y, m, d) + 1
  {
  }

  /** ... the first of a month follows the last day of the month before ... */
  lemma NextMonth(y: int, m: int)
    requires 1 <= m < 12
    ensures DaysFromCivil(y, m + 1, 1) == DaysFromCivil(y, m, DaysIn(m, y)) + 1
  {
    if m == 2 {
      MarchFollowsFebruary(y);
    }
  }

  /** The leap-year rule: 1 March is 365 or 366 days after 1 March of the
      year before, as February has 28 or 29 days. */
  lemma MarchFollowsFebruary(y: int)
    ensures DaysFromCivil(y, 3, 1) == DaysFromCivil(y, 2, DaysIn(2, y)) + 1
  {
    assert DaysFromCivil(y, 3, 1) == MarchDays(y) - 719468;
    assert DaysFromCivil(y, 2, DaysIn(2, y)) == MarchDays(y - 1) + 336 + DaysIn(2, y) - 719468;
    EraStep(y);
  }

  /** Days from 1 March of year 0 to 1 March of year `yy`, as DaysFromCivil
      counts them. */
  function MarchDays(yy: int): int {
    var era := yy / 400;
    era * 146097 + DaysOfEra(yy - era * 400)
  }

  /** Days from the start of a 400-year era to 1 March of its year `yoe`. */
  function DaysOfEra(yoe: int): int {
    yoe * 365 + yoe / 4 - yoe / 100
  }

  lemma EraStep(y: int)
    ensures MarchDays(y) - MarchDays(y - 1) == if IsLeapYear(y) then 366 else 365
  {
    EraStepAt(y, y / 400, y % 400);
  }

  lemma EraStepAt(y: int, q: int, o: int)
    requires y == 400 * q + o && 0 <= o < 400
    ensures MarchDays(y) - MarchDays(y - 1) == if IsLeapYear(y) then 366 else 365
  {
    SameLeapYear(y, q, o);
    MarchDaysOf(y, q, o);
    var days := if IsLeapYear(o) then 366 else 365;
    if o == 0 {
      MarchDaysOf(y - 1, q - 1, 399);
      assert DaysOfEra(0) + 146097 == DaysOfEra(399) + days;
    } else {
      MarchDaysOf(y - 1, q, o - 1);
      EraYearStep(o);
      assert DaysOfEra(o) == DaysOfEra(o - 1) + days;
    }
  }

  lemma MarchDaysOf(yy: int, q: int, o: int)
    requires yy == 400 * q + o && 0 <= o < 400
    ensures MarchDays(yy) == q * 146097 + DaysOfEra(o)
  {
    Quotient400(yy, q, o);
  }

  /** Within an era, each year adds 365 days, or 366 for a leap year. */
  lemma EraYearStep(o: int)
    requires 1 <= o < 400
    ensures DaysOfEra(o) == DaysOfEra(o - 1) + if IsLeapYear(o) then 366 else 365
  {
    QuarterStep(o);
    CenturyStep(o);
    if o % 100 == 0 {
      Quotient4(o, 25 * (o / 100), 0);
    }
  }

  /** A year is a leap year exactly when its offset in its 400-year era is. */
  lemma SameLeapYear(y: int, q: int, o: int)
    requires y == 400 * q + o && 0 <= o < 400
    ensures IsLeapYear(y) == IsLeapYear(o)
  {
    Quotient4(y, 100 * q + o / 4, o % 4);
    Quotient100(y, 4 * q + o / 100, o % 100);
    Quotient400(y, q, o);
  }

  lemma QuarterStep(o: int)
    requires 1 <= o
    ensures o / 4 - (o - 1) / 4 == if o % 4 == 0 then 1 else 0
  {
    if o % 4 == 0 {
      Quotient4(o - 1, o / 4 - 1, 3);
    } else {
      Quotient4(o - 1, o / 4, o % 4 - 1);
    }
  }

  lemma CenturyStep(o: int)
    requires 1 <= o
    ensures o / 100 - (o - 1) / 100 == if o % 100 == 0 then 1 else 0
  {
    if o % 100 == 0 {
      Quotient100(o - 1, o / 100 - 1, 99);
    } else {
      Quotient100(o - 1, o / 100, o % 100 - 1);
    }
  }

  /** Euclidean division by 4, 100 and 400 has one quotient and remainder. */
  lemma Quotient4(n: int, q: int, r: int)
    requires n == 4 * q + r && 0 <= r < 4
    ensures n / 4 == q && n % 4 == r
  {
  }

  lemma Quotient100(n: int, q: int, r: int)
    requires n == 100 * q + r && 0 <= r < 100
    ensures n / 100 == q && n % 100 == r
  {
  }

  lemma Quotient400(n: int, q: int, r: int)
    requires n == 400 * q + r && 0 <= r < 400
    ensures n / 400 == q && n % 400 == r
  {
  }

  /** ... a new year follows 31 December, and the count starts at the Unix
      epoch. */
  lemma NextYear(y: int)
    ensures DaysFromCivil(y + 1, 1, 1) == DaysFromCivil(y, 12, 31) + 1
  {
  }

  lemma Epoch()
    ensures DaysFromCivil(1970, 1, 1) == 0
  {
  }
}
