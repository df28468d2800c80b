/**
 * The day-card header conversion
 * `strptime(header, "%A, %B %d, %Y").strftime("%Y-%m-%d")`.
 *
 * `strptime` compiles its format into a pattern, one piece per directive,
 * and matches the whole text against it, ignoring case: a full weekday name,
 * `,`, whitespace (a space in the format stands for `\s+`), a full month
 * name, whitespace, the `%d` day (`[1-9]` or `01`..`31`), `,`, whitespace
 * and four digits. The fields read then have to name a date that exists
 * (year 1 or later, day within the month); the weekday name is read but not
 * checked against the date. Text that does not match, or a date that does
 * not exist, makes `strptime` raise `ValueError`, modelled as None.
 *
 * The pattern is modelled as a list of directives, each matched greedily.
 * Greedy matching reads the same texts as the backtracking pattern here,
 * because every directive is followed by one that cannot start with what
 * the directive itself consumes (a name by `,` or whitespace, a day by `,`,
 * whitespace by a name or a digit).
 */
module Dates {
  import opened Wrappers
  import opened Seqs
  import opened Text

  /** The full names `%A` accepts, lower case, Monday first. */
  const WEEKDAY_NAMES: seq<string> :=
    ["monday", "tuesday", "wednesday", "thursday", "friday", "saturday", "sunday"]

  /** The full names `%B` accepts, lower case; month `m` is at index `m - 1`. */
  const MONTH_NAMES: seq<string> :=
    ["january", "february", "march", "april", "may", "june",
     "july", "august", "september", "october", "november", "december"]

  /** One piece of a compiled `strptime` format. */
  datatype Directive =
    | WeekdayName       // %A
    | MonthName         // %B
    | DayOfMonth        // %d
    | Year4             // %Y
    | Whitespace        // a space in the format
    | Char(c: char)     // any other character of the format, literally

  /** `"%A, %B %d, %Y"`, compiled. */
  const HEADER_FORMAT: seq<Directive> :=
    [WeekdayName, Char(','), Whitespace, MonthName, Whitespace, DayOfMonth, Char(','), Whitespace, Year4]

  /** The fields a match has read so far. */
  datatype Fields = Fields(year: nat, month: nat, day: nat)

  /** What `strptime` assumes for a field its format does not read. */
  const DEFAULT_FIELDS := Fields(1900, 1, 1)

  predicate InRange(f: Fields) {
    f.year <= 9999 && 1 <= f.month <= 12 && 1 <= f.day <= 31
  }

  predicate IsLeapYear(y: int) {
    y % 4 == 0 && (y % 100 != 0 || y % 400 == 0)
  }

  function DaysInMonth(y: int, m: int): (n: int)
    requires 1 <= m <= 12
    ensures 28 <= n <= 31
    ensures n == 29 <==> m == 2 && IsLeapYear(y)
  {
    if m == 2 then (if IsLeapYear(y) then 29 else 28)
    else if m == 4 || m == 6 || m == 9 || m == 11 then 30
    else 31
  }

  /** A date `datetime` accepts. */
  predicate IsDate(y: int, m: int, d: int) {
    1 <= y <= 9999 && 1 <= m <= 12 && 1 <= d <= DaysInMonth(y, m)
  }

  predicate IsLetter(c: char) {
    'a' <= LowerChar(c) <= 'z'
  }

  /** The end of the run of letters that starts at `i`. */
  function LettersEnd(s: string, i: nat): (j: nat)
    requires i <= |s|
    ensures i <= j <= |s|
    ensures forall k :: i <= k < j ==> IsLetter(s[k])
    ensures j < |s| ==> !IsLetter(s[j])
    decreases |s| - i
  {
    if i < |s| && IsLetter(s[i]) then LettersEnd(s, i + 1) else i
  }

  /** The lower-case form of `s[i..j]`. */
  function LowerSpan(s: string, i: nat, j: nat): (r: string)
    requires i <= j <= |s|
    ensures |r| == j - i
    ensures forall k :: 0 <= k < j - i ==> r[k] == LowerChar(s[i + k])
  {
    seq(j - i, k requires 0 <= k < j - i => LowerChar(s[i + k]))
  }

  /** The first position from `n` on where `names` holds `x`, or `|names|`. */
  function NameIndex(names: seq<string>, x: string, n: nat): (r: nat)
    requires n <= |names|
    ensures n <= r <= |names|
    ensures r < |names| ==> names[r] == x
    ensures forall j :: n <= j < r ==> names[j] != x
    decreases |names| - n
  {
    if n == |names| then n
    else if names[n] == x then n
    else NameIndex(names, x, n + 1)
  }

  /** Distinct names are found at their own position. */
  lemma {:induction false} NameIndexAt(names: seq<string>, k: nat, n: nat)
    requires n <= k < |names|
    requires forall i, j :: 0 <= i < j < |names| ==> names[i] != names[j]
    ensures NameIndex(names, names[k], n) == k
    decreases k - n
  {
    if n < k {
      NameIndexAt(names, k, n + 1);
    }
  }

  /** The value of the decimal digits `s[i..j]`. */
  function NumberAt(s: string, i: nat, j: nat): (v: nat)
    requires i <= j <= |s| && forall k :: i <= k < j ==> IsDigit(s[k])
    decreases j
  {
    if j == i then 0
    else
      assert IsDigit(s[j - 1]);
      10 * NumberAt(s, i, j - 1) + (s[j - 1] as int - '0' as int)
  }

  lemma {:induction false} NumberAtBound(s: string, i: nat, j: nat)
    requires i <= j <= |s| && forall k :: i <= k < j ==> IsDigit(s[k])
    ensures NumberAt(s, i, j) < Pow10(j - i)
  {
    if j > i {
      NumberAtBound(s, i, j - 1);
    }
  }

  /** `NumberAt` reads what `DigitsValue` reads from the slice. */
  lemma {:induction false} NumberAtSlice(s: string, i: nat, j: nat)
    requires i <= j <= |s| && AllDigits(s[i..j])
    ensures forall k :: i <= k < j ==> IsDigit(s[k])
    ensures NumberAt(s, i, j) == DigitsValue(s[i..j])
    decreases j
  {
    assert forall k :: i <= k < j ==> s[k] == s[i..j][k - i];
    if j > i {
      assert s[i..j - 1] == s[i..j][..j - 1 - i];
      NumberAtSlice(s, i, j - 1);
    }
  }

  /**
   * Matches `s[i..]` against the directives `fmt[k..]`, reading fields into
   * `f`; the text must be used up exactly when the directives are.
   */
  function Match(fmt: seq<Directive>, s: string, i: nat, k: nat, f: Fields): (r: Option<Fields>)
    requires i <= |s| && k <= |fmt| && InRange(f)
    ensures r.Some? ==> InRange(r.value)
    decreases |fmt| - k
  {
    if k == |fmt| then
      if i == |s| then Some(f) else None
    else
      match fmt[k]
      case Char(c) =>
        if i < |s| && s[i] == c then Match(fmt, s, i + 1, k + 1, f) else None
      case Whitespace =>
        var j := SpacesEnd(s, i);
        if j == i then None else Match(fmt, s, j, k + 1, f)
      case WeekdayName =>
        var j := LettersEnd(s, i);
        if NameIndex(WEEKDAY_NAMES, LowerSpan(s, i, j), 0) == |WEEKDAY_NAMES| then None
        else Match(fmt, s, j, k + 1, f)
      case MonthName =>
        var j := LettersEnd(s, i);
        var n := NameIndex(MONTH_NAMES, LowerSpan(s, i, j), 0);
        if n == |MONTH_NAMES| then None else Match(fmt, s, j, k + 1, f.(month := n + 1))
      case DayOfMonth =>
        // `[1-9]` or `01`..`31`
        var j := DigitsEnd(s, i);
        if 1 <= j - i <= 2 && 1 <= NumberAt(s, i, j) <= 31 then
          Match(fmt, s, j, k + 1, f.(day := NumberAt(s, i, j)))
        else None
      case Year4 =>
        if i + 4 <= |s| && DigitsEnd(s, i) >= i + 4 then
          var y := NumberAt(s, i, i + 4);
          assert y < 10000 by {
            NumberAtBound(s, i, i + 4);
            assert Pow10(4) == 10000;
          }
          Match(fmt, s, i + 4, k + 1, f.(year := y))
        else None
  }

  /** `strftime("%Y-%m-%d")` of a valid date. */
  function IsoDate(y: nat, m: nat, d: nat): (r: string)
    requires 1 <= y <= 9999 && 1 <= m <= 12 && 1 <= d <= 31
    ensures |r| == 10 && r[4] == '-' && r[7] == '-'
    ensures AllDigits(r[..4]) && AllDigits(r[5..7]) && AllDigits(r[8..])
    ensures DigitsValue(r[..4]) == y && DigitsValue(r[5..7]) == m && DigitsValue(r[8..]) == d
  {
    assert Pow10(2) == 100 && Pow10(4) == 10000;
    var r := Padded(y, 4) + "-" + Padded(m, 2) + "-" + Padded(d, 2);
    assert r[..4] == Padded(y, 4) && r[5..7] == Padded(m, 2) && r[8..] == Padded(d, 2);
    r
  }

  /** The date key of a stripped day-card header, or None where `strptime` raises. */
  function ParseDate(s: string): (r: Option<string>)
    ensures r.Some? ==> |r.value| == 10 && r.value[4] == '-' && r.value[7] == '-'
    ensures r.Some? ==> exists y, m, d :: IsDate(y, m, d) && r.value == IsoDate(y, m, d)
  {
    match Match(HEADER_FORMAT, s, 0, 0, DEFAULT_FIELDS)
    case None => None
    case Some(f) =>
      if f.year < 1 || f.day > DaysInMonth(f.year, f.month) then None
      else Some(IsoDate(f.year, f.month, f.day))
  }

  // ---------------------------------------------------------------------
  // One directive at a time

  lemma NamesFacts()
    ensures forall i, j :: 0 <= i < j < |MONTH_NAMES| ==> MONTH_NAMES[i] != MONTH_NAMES[j]
    ensures forall i, k :: 0 <= i < |MONTH_NAMES| && 0 <= k < |MONTH_NAMES[i]| ==> 'a' <= MONTH_NAMES[i][k] <= 'z'
    ensures forall i, k :: 0 <= i < |WEEKDAY_NAMES| && 0 <= k < |WEEKDAY_NAMES[i]| ==> 'a' <= WEEKDAY_NAMES[i][k] <= 'z'
  {
  }

  lemma MatchWeekday(fmt: seq<Directive>, s: string, i: nat, j: nat, k: nat, f: Fields, w: nat)
    requires k < |fmt| && fmt[k] == WeekdayName && InRange(f)
    requires i <= j <= |s| && w < 7 && LowerSpan(s, i, j) == WEEKDAY_NAMES[w] && (j < |s| ==> !IsLetter(s[j]))
    ensures Match(fmt, s, i, k, f) == Match(fmt, s, j, k + 1, f)
  {
    NamesFacts();
    forall t | i <= t < j
      ensures IsLetter(s[t])
    {
      assert LowerSpan(s, i, j)[t - i] == LowerChar(s[t]);
    }
    assert LettersEnd(s, i) == j;
  }

  lemma MatchMonth(fmt: seq<Directive>, s: string, i: nat, j: nat, k: nat, f: Fields, m: nat)
    requires k < |fmt| && fmt[k] == MonthName && InRange(f)
    requires i <= j <= |s| && 1 <= m <= 12 && LowerSpan(s, i, j) == MONTH_NAMES[m - 1] && (j < |s| ==> !IsLetter(s[j]))
    ensures Match(fmt, s, i, k, f) == Match(fmt, s, j, k + 1, f.(month := m))
  {
    NamesFacts();
    forall t | i <= t < j
      ensures IsLetter(s[t])
    {
      assert LowerSpan(s, i, j)[t - i] == LowerChar(s[t]);
    }
    assert LettersEnd(s, i) == j;
    NameIndexAt(MONTH_NAMES, m - 1, 0);
  }

  lemma MatchDay(fmt: seq<Directive>, s: string, i: nat, n: nat, k: nat, f: Fields, d: nat)
    requires k < |fmt| && fmt[k] == DayOfMonth && InRange(f)
    requires 1 <= n <= 2 && i + n <= |s| && forall t :: i <= t < i + n ==> IsDigit(s[t])
    requires i + n < |s| ==> !IsDigit(s[i + n])
    requires NumberAt(s, i, i + n) == d && 1 <= d <= 31
    ensures Match(fmt, s, i, k, f) == Match(fmt, s, i + n, k + 1, f.(day := d))
  {
    if n == 1 {
      assert DigitsEnd(s, i) == i + 1;
    } else {
      assert DigitsEnd(s, i) == i + 2;
    }
  }

  lemma MatchYear(fmt: seq<Directive>, s: string, i: nat, k: nat, f: Fields, y: nat)
    requires k < |fmt| && fmt[k] == Year4 && InRange(f)
    requires i + 4 <= |s| && (forall t :: i <= t < i + 4 ==> IsDigit(s[t])) && NumberAt(s, i, i + 4) == y
    ensures y <= 9999
    ensures Match(fmt, s, i, k, f) == Match(fmt, s, i + 4, k + 1, f.(year := y))
  {
    NumberAtBound(s, i, i + 4);
    assert Pow10(4) == 10000;
  }

  lemma MatchChar(fmt: seq<Directive>, s: string, i: nat, k: nat, f: Fields)
    requires k < |fmt| && fmt[k].Char? && InRange(f)
    requires i < |s| && s[i] == fmt[k].c
    ensures Match(fmt, s, i, k, f) == Match(fmt, s, i + 1, k + 1, f)
  {
  }

  lemma MatchSpaces(fmt: seq<Directive>, s: string, i: nat, j: nat, k: nat, f: Fields)
    requires k < |fmt| && fmt[k] == Whitespace && InRange(f)
    requires i < j <= |s| && (forall t :: i <= t < j ==> IsSpace(s[t])) && (j < |s| ==> !IsSpace(s[j]))
    ensures Match(fmt, s, i, k, f) == Match(fmt, s, j, k + 1, f)
  {
    assert SpacesEnd(s, i) == j;
  }

  /**
   * The text `wd + "," + sp1 + mon + sp2 + D + "," + sp3 + Y` described
   * position by position, where `n1`, `n2`, `n3` are the whitespace lengths.
   */
  ghost predicate LaidOut(s: string, wd: string, n1: nat, mon: string, n2: nat, D: string, n3: nat, Y: string)
  {
    var b := |wd| + 1 + n1;
    var e := b + |mon| + n2;
    var t := e + |D|;
    && 1 <= |D| <= 2 && |Y| == 4 && |s| == t + 5 + n3
    && s[|wd|] == ',' && (forall j :: 0 <= j < |wd| ==> s[j] == wd[j])
    && (forall j :: |wd| + 1 <= j < b ==> IsSpace(s[j]))
    && (forall j :: 0 <= j < |mon| ==> s[b + j] == mon[j])
    && (forall j :: b + |mon| <= j < e ==> IsSpace(s[j]))
    && s[e..t] == D && s[t] == ','
    && (forall j :: t + 1 <= j < |s| - 4 ==> IsSpace(s[j]))
    && s[|s| - 4..] == Y
  }

  lemma HeaderLayout(s: string, wd: string, sp1: string, mon: string, sp2: string, D: string, sp3: string, Y: string)
    requires s == wd + "," + sp1 + mon + sp2 + D + "," + sp3 + Y
    requires 1 <= |D| <= 2 && |Y| == 4 && AllSpace(sp1) && AllSpace(sp2) && AllSpace(sp3)
    ensures LaidOut(s, wd, |sp1|, mon, |sp2|, D, |sp3|, Y)
  {
    var e := |wd| + 1 + |sp1| + |mon| + |sp2|;
    assert forall j :: 0 <= j < |D| ==> s[e + j] == D[j];
    assert forall j :: 0 <= j < 4 ==> s[|s| - 4 + j] == Y[j];
  }

  /** Decimal digits of value `v`, read back in place. */
  lemma DigitsInPlace(s: string, i: nat, n: nat, v: nat)
    requires i + n <= |s| && AllDigits(s[i..i + n]) && DigitsValue(s[i..i + n]) == v
    ensures forall t :: i <= t < i + n ==> IsDigit(s[t])
    ensures NumberAt(s, i, i + n) == v
  {
    NumberAtSlice(s, i, i + n);
  }

  /** The lower-case form of a name, read in place. */
  lemma NameInPlace(s: string, i: nat, t: string)
    requires i + |t| <= |s| && forall j :: 0 <= j < |t| ==> s[i + j] == t[j]
    ensures LowerSpan(s, i, i + |t|) == Lower(t)
  {
  }

  // Where the fields of a header sit, field by field.

  /** Whitespace over `[i, |s| - 4)`, then the four year digits that end `s`. */
  ghost predicate YearAt(s: string, i: nat, y: nat)
  {
    && i < |s| - 4
    && (forall j :: i <= j < |s| - 4 ==> IsSpace(s[j]))
    && (forall j :: |s| - 4 <= j < |s| ==> IsDigit(s[j]))
    && NumberAt(s, |s| - 4, |s|) == y
  }

  /** Whitespace over `[c, e)`, then the `n` (one or two) day digits and `,`. */
  ghost predicate DayAt(s: string, c: nat, e: nat, n: nat, d: nat)
  {
    && c < e && 1 <= n <= 2 && e + n + 1 <= |s| && 1 <= d <= 31
    && (forall j :: c <= j < e ==> IsSpace(s[j]))
    && (forall j :: e <= j < e + n ==> IsDigit(s[j]))
    && s[e + n] == ',' && NumberAt(s, e, e + n) == d
  }

  /** Whitespace over `[a, b)`, then the name of month `m` over `[b, c)`. */
  ghost predicate MonthAt(s: string, a: nat, b: nat, c: nat, m: nat)
  {
    && a < b <= c < |s| && 1 <= m <= 12
    && (forall j :: a <= j < b ==> IsSpace(s[j]))
    && !IsSpace(s[b]) && LowerSpan(s, b, c) == MONTH_NAMES[m - 1] && !IsLetter(s[c])
  }

  /** The name of weekday `w` over `[i, c)`, then `,`. */
  ghost predicate WeekdayAt(s: string, i: nat, c: nat, w: nat)
  {
    i <= c < |s| && w < 7 && LowerSpan(s, i, c) == WEEKDAY_NAMES[w] && s[c] == ','
  }

  /**
   * A whole header: weekday `w` over `[0, c)`, `,`, the month name over
   * `[b, c2)` after whitespace, the `n` day digits at `e` after whitespace,
   * `,`, and the year digits that end the text after whitespace.
   */
  ghost predicate HeaderAt(s: string, w: nat, c: nat, b: nat, c2: nat, e: nat, n: nat, m: nat, d: nat, y: nat)
  {
    WeekdayAt(s, 0, c, w) && MonthAt(s, c + 1, b, c2, m) && DayAt(s, c2, e, n, d) && YearAt(s, e + n + 1, y)
  }

  // The header pattern read from the back: each part adds the directives
  // before it to what the rest of the pattern reads, so that no proof sees
  // more than two positions of the pattern.

  lemma YearPart(fmt: seq<Directive>, k: nat, s: string, i: nat, f: Fields, y: nat)
    requires k + 2 == |fmt| && fmt[k] == Whitespace && fmt[k + 1] == Year4
    requires InRange(f) && YearAt(s, i, y)
    ensures y <= 9999
    ensures Match(fmt, s, i, k, f) == Some(f.(year := y))
  {
    MatchSpaces(fmt, s, i, |s| - 4, k, f);
    MatchYear(fmt, s, |s| - 4, k + 1, f, y);
  }

  lemma DayPart(fmt: seq<Directive>, k: nat, s: string, c: nat, e: nat, n: nat, f: Fields, d: nat, r: Option<Fields>)
    requires k + 3 <= |fmt| && fmt[k] == Whitespace && fmt[k + 1] == DayOfMonth && fmt[k + 2] == Char(',')
    requires InRange(f) && DayAt(s, c, e, n, d)
    requires Match(fmt, s, e + n + 1, k + 3, f.(day := d)) == r
    ensures Match(fmt, s, c, k, f) == r
  {
    MatchSpaces(fmt, s, c, e, k, f);
    MatchDay(fmt, s, e, n, k + 1, f, d);
    MatchChar(fmt, s, e + n, k + 2, f.(day := d));
  }

  lemma MonthPart(fmt: seq<Directive>, k: nat, s: string, a: nat, b: nat, c: nat, f: Fields, m: nat, r: Option<Fields>)
    requires k + 2 <= |fmt| && fmt[k] == Whitespace && fmt[k + 1] == MonthName
    requires InRange(f) && MonthAt(s, a, b, c, m)
    requires Match(fmt, s, c, k + 2, f.(month := m)) == r
    ensures Match(fmt, s, a, k, f) == r
  {
    MatchSpaces(fmt, s, a, b, k, f);
    MatchMonth(fmt, s, b, c, k + 1, f, m);
  }

  lemma WeekdayPart(fmt: seq<Directive>, k: nat, s: string, i: nat, c: nat, f: Fields, w: nat)
    requires k + 2 <= |fmt| && fmt[k] == WeekdayName && fmt[k + 1] == Char(',')
    requires InRange(f) && WeekdayAt(s, i, c, w)
    ensures Match(fmt, s, i, k, f) == Match(fmt, s, c + 1, k + 2, f)
  {
    assert !IsLetter(s[c]);
    MatchWeekday(fmt, s, i, c, k, f, w);
    MatchChar(fmt, s, c, k + 1, f);
  }

  /** Whitespace, the day, `,`, whitespace and the year: the end of the header. */
  lemma BackPart(fmt: seq<Directive>, s: string, c2: nat, e: nat, n: nat, f: Fields, d: nat, y: nat)
    requires |fmt| == 9 && fmt[4] == Whitespace && fmt[5] == DayOfMonth && fmt[6] == Char(',')
    requires fmt[7] == Whitespace && fmt[8] == Year4
    requires InRange(f) && DayAt(s, c2, e, n, d) && YearAt(s, e + n + 1, y)
    ensures y <= 9999
    ensures Match(fmt, s, c2, 4, f) == Some(Fields(y, f.month, d))
  {
    YearPart(fmt, 7, s, e + n + 1, f.(day := d), y);
    DayPart(fmt, 4, s, c2, e, n, f, d, Some(Fields(y, f.month, d)));
  }

  /** The weekday, `,`, whitespace and the month name: the start of the header. */
  lemma FrontPart(fmt: seq<Directive>, s: string, w: nat, c: nat, b: nat, c2: nat, m: nat, f: Fields, r: Option<Fields>)
    requires 4 <= |fmt| && fmt[0] == WeekdayName && fmt[1] == Char(',') && fmt[2] == Whitespace && fmt[3] == MonthName
    requires InRange(f) && WeekdayAt(s, 0, c, w) && MonthAt(s, c + 1, b, c2, m)
    requires Match(fmt, s, c2, 4, f.(month := m)) == r
    ensures Match(fmt, s, 0, 0, f) == r
  {
    WeekdayPart(fmt, 0, s, 0, c, f, w);
    MonthPart(fmt, 2, s, c + 1, b, c2, f, m, r);
  }

  /** The whole header pattern reads the fields where `HeaderAt` puts them. */
  lemma HeaderMatch(s: string, w: nat, c: nat, b: nat, c2: nat, e: nat, n: nat, m: nat, d: nat, y: nat)
    requires HeaderAt(s, w, c, b, c2, e, n, m, d, y)
    ensures y <= 9999
    ensures Match(HEADER_FORMAT, s, 0, 0, DEFAULT_FIELDS) == Some(Fields(y, m, d))
  {
    BackPart(HEADER_FORMAT, s, c2, e, n, DEFAULT_FIELDS.(month := m), d, y);
    FrontPart(HEADER_FORMAT, s, w, c, b, c2, m, DEFAULT_FIELDS, Some(Fields(y, m, d)));
  }

  /** What `ParseDate` makes of the fields the pattern reads. */
  lemma ParseDateOf(s: string, y: nat, m: nat, d: nat)
    requires y <= 9999 && 1 <= m <= 12 && 1 <= d <= 31
    requires Match(HEADER_FORMAT, s, 0, 0, DEFAULT_FIELDS) == Some(Fields(y, m, d))
    ensures ParseDate(s) == if IsDate(y, m, d) then Some(IsoDate(y, m, d)) else None
  {
  }

  /**
   * A header written in the format, in any letter case, with any non-empty
   * runs of whitespace, with the day in one digit or two (`6` or `06`) and
   * the year in four, is read as its date when that date exists, and fails
   * otherwise (year 0, or a day past the end of the month).
   */
  lemma DateRoundTrip(wd: string, sp1: string, mon: string, sp2: string, D: string, sp3: string, Y: string,
                      y: nat, m: nat, d: nat)
    requires Lower(wd) in WEEKDAY_NAMES
    requires 1 <= m <= 12 && Lower(mon) == MONTH_NAMES[m - 1]
    requires |sp1| > 0 && |sp2| > 0 && |sp3| > 0 && AllSpace(sp1) && AllSpace(sp2) && AllSpace(sp3)
    requires 1 <= |D| <= 2 && AllDigits(D) && DigitsValue(D) == d && 1 <= d <= 31
    requires |Y| == 4 && AllDigits(Y) && DigitsValue(Y) == y
    ensures y <= 9999
    ensures ParseDate(wd + "," + sp1 + mon + sp2 + D + "," + sp3 + Y)
         == if IsDate(y, m, d) then Some(IsoDate(y, m, d)) else None
  {
    var s := wd + "," + sp1 + mon + sp2 + D + "," + sp3 + Y;
    HeaderLayout(s, wd, sp1, mon, sp2, D, sp3, Y);
    LaidOutParse(s, wd, |sp1|, mon, |sp2|, D, |sp3|, Y, y, m, d);
  }

  /** `DateRoundTrip` for a text described position by position. */
  lemma LaidOutParse(s: string, wd: string, n1: nat, mon: string, n2: nat, D: string, n3: nat, Y: string,
                     y: nat, m: nat, d: nat)
    requires Lower(wd) in WEEKDAY_NAMES
    requires 1 <= m <= 12 && Lower(mon) == MONTH_NAMES[m - 1] && n1 > 0 && n2 > 0 && n3 > 0
    requires AllDigits(D) && DigitsValue(D) == d && 1 <= d <= 31 && AllDigits(Y) && DigitsValue(Y) == y
    requires LaidOut(s, wd, n1, mon, n2, D, n3, Y)
    ensures y <= 9999
    ensures ParseDate(s) == if IsDate(y, m, d) then Some(IsoDate(y, m, d)) else None
  {
    var w := HeaderAtOf(s, wd, n1, mon, n2, D, n3, Y, y, m, d);
    var b := |wd| + 1 + n1;
    HeaderParse(s, w, |wd|, b, b + |mon|, b + |mon| + n2, |D|, m, d, y);
  }

  /** A laid-out header has its fields where `HeaderAt` expects them. */
  lemma HeaderAtOf(s: string, wd: string, n1: nat, mon: string, n2: nat, D: string, n3: nat, Y: string,
                   y: nat, m: nat, d: nat)
    returns (w: nat)
    requires Lower(wd) in WEEKDAY_NAMES
    requires 1 <= m <= 12 && Lower(mon) == MONTH_NAMES[m - 1] && n1 > 0 && n2 > 0 && n3 > 0
    requires AllDigits(D) && DigitsValue(D) == d && 1 <= d <= 31 && AllDigits(Y) && DigitsValue(Y) == y
    requires LaidOut(s, wd, n1, mon, n2, D, n3, Y)
    ensures HeaderAt(s, w, |wd|, |wd| + 1 + n1, |wd| + 1 + n1 + |mon|, |wd| + 1 + n1 + |mon| + n2, |D|, m, d, y)
  {
    w := FrontAtOf(s, wd, n1, mon, n2, D, n3, Y, m);
    BackAtOf(s, wd, n1, mon, n2, D, n3, Y, y, d);
  }

  /** The weekday and month names of a laid-out header. */
  lemma FrontAtOf(s: string, wd: string, n1: nat, mon: string, n2: nat, D: string, n3: nat, Y: string, m: nat)
    returns (w: nat)
    requires Lower(wd) in WEEKDAY_NAMES
    requires 1 <= m <= 12 && Lower(mon) == MONTH_NAMES[m - 1]
    requires n1 > 0 && n2 > 0
    requires LaidOut(s, wd, n1, mon, n2, D, n3, Y)
    ensures WeekdayAt(s, 0, |wd|, w) && MonthAt(s, |wd| + 1, |wd| + 1 + n1, |wd| + 1 + n1 + |mon|, m)
  {
    w := WeekdayInPlace(s, wd);
    MonthInPlace(s, |wd| + 1, |wd| + 1 + n1, mon, m);
  }

  /** The day and year digits of a laid-out header. */
  lemma BackAtOf(s: string, wd: string, n1: nat, mon: string, n2: nat, D: string, n3: nat, Y: string, y: nat, d: nat)
    requires n2 > 0 && n3 > 0 && 1 <= d <= 31
    requires AllDigits(D) && DigitsValue(D) == d && AllDigits(Y) && DigitsValue(Y) == y
    requires LaidOut(s, wd, n1, mon, n2, D, n3, Y)
    ensures var e := |wd| + 1 + n1 + |mon| + n2;
      DayAt(s, e - n2, e, |D|, d) && YearAt(s, e + |D| + 1, y)
  {
    var e := |wd| + 1 + n1 + |mon| + n2;
    DayOfLaidOut(s, wd, n1, mon, n2, D, n3, Y);
    DayInPlace(s, e - n2, e, |D|, d);
    YearOfLaidOut(s, wd, n1, mon, n2, D, n3, Y);
    YearInPlace(s, e + |D| + 1, y);
  }

  /** Where a laid-out header holds its day. */
  lemma DayOfLaidOut(s: string, wd: string, n1: nat, mon: string, n2: nat, D: string, n3: nat, Y: string)
    requires LaidOut(s, wd, n1, mon, n2, D, n3, Y)
    ensures var e := |wd| + 1 + n1 + |mon| + n2;
      && e + |D| + 1 <= |s| && s[e..e + |D|] == D && s[e + |D|] == ','
      && forall j :: e - n2 <= j < e ==> IsSpace(s[j])
  {
  }

  /** Where a laid-out header holds its year. */
  lemma YearOfLaidOut(s: string, wd: string, n1: nat, mon: string, n2: nat, D: string, n3: nat, Y: string)
    requires LaidOut(s, wd, n1, mon, n2, D, n3, Y)
    ensures var t := |wd| + 1 + n1 + |mon| + n2 + |D|;
      && t + 1 + n3 == |s| - 4 && s[|s| - 4..] == Y
      && forall j :: t + 1 <= j < |s| - 4 ==> IsSpace(s[j])
  {
  }

  /** A weekday name and `,` at the start of the text, in any letter case. */
  lemma WeekdayInPlace(s: string, wd: string) returns (w: nat)
    requires Lower(wd) in WEEKDAY_NAMES && |wd| < |s| && s[|wd|] == ','
    requires forall j :: 0 <= j < |wd| ==> s[j] == wd[j]
    ensures WeekdayAt(s, 0, |wd|, w)
  {
    NameInPlace(s, 0, wd);
    w :| 0 <= w < 7 && WEEKDAY_NAMES[w] == Lower(wd);
  }

  /** Whitespace over `[a, b)`, then a month name in any letter case and whitespace. */
  lemma MonthInPlace(s: string, a: nat, b: nat, mon: string, m: nat)
    requires 1 <= m <= 12 && Lower(mon) == MONTH_NAMES[m - 1] && a < b && b + |mon| < |s|
    requires forall j :: a <= j < b ==> IsSpace(s[j])
    requires forall j :: 0 <= j < |mon| ==> s[b + j] == mon[j]
    requires IsSpace(s[b + |mon|])
    ensures MonthAt(s, a, b, b + |mon|, m)
  {
    NameInPlace(s, b, mon);
    NamesFacts();
    assert 'a' <= Lower(mon)[0] <= 'z';
  }

  /** Whitespace over `[c, e)`, then `n` digits of value `d` and `,`. */
  lemma DayInPlace(s: string, c: nat, e: nat, n: nat, d: nat)
    requires 1 <= d <= 31 && 1 <= n <= 2 && c < e && e + n + 1 <= |s|
    requires forall j :: c <= j < e ==> IsSpace(s[j])
    requires AllDigits(s[e..e + n]) && DigitsValue(s[e..e + n]) == d && s[e + n] == ','
    ensures DayAt(s, c, e, n, d)
  {
    DigitsInPlace(s, e, n, d);
  }

  /** Whitespace from `i`, then four digits of value `y` that end the text. */
  lemma YearInPlace(s: string, i: nat, y: nat)
    requires i < |s| - 4
    requires forall j :: i <= j < |s| - 4 ==> IsSpace(s[j])
    requires AllDigits(s[|s| - 4..]) && DigitsValue(s[|s| - 4..]) == y
    ensures YearAt(s, i, y)
  {
    assert s[|s| - 4..|s| - 4 + 4] == s[|s| - 4..];
    DigitsInPlace(s, |s| - 4, 4, y);
  }

  // ---------------------------------------------------------------------
  // The converse: what a successful match says about the text

  lemma WeekdayStep(fmt: seq<Directive>, s: string, i: nat, k: nat, f: Fields) returns (j: nat, w: nat)
    requires k < |fmt| && fmt[k] == WeekdayName && InRange(f) && i <= |s|
    requires Match(fmt, s, i, k, f).Some?
    ensures i <= j <= |s| && w < 7 && LowerSpan(s, i, j) == WEEKDAY_NAMES[w]
    ensures Match(fmt, s, i, k, f) == Match(fmt, s, j, k + 1, f)
  {
    j := LettersEnd(s, i);
    w := NameIndex(WEEKDAY_NAMES, LowerSpan(s, i, j), 0);
  }

  lemma MonthStep(fmt: seq<Directive>, s: string, i: nat, k: nat, f: Fields) returns (j: nat, m: nat)
    requires k < |fmt| && fmt[k] == MonthName && InRange(f) && i <= |s|
    requires Match(fmt, s, i, k, f).Some?
    ensures i < j <= |s| && 1 <= m <= 12 && LowerSpan(s, i, j) == MONTH_NAMES[m - 1]
    ensures j < |s| ==> !IsLetter(s[j])
    ensures Match(fmt, s, i, k, f) == Match(fmt, s, j, k + 1, f.(month := m))
  {
    j := LettersEnd(s, i);
    m := NameIndex(MONTH_NAMES, LowerSpan(s, i, j), 0) + 1;
    assert |MONTH_NAMES[m - 1]| > 0;
  }

  lemma CharStep(fmt: seq<Directive>, s: string, i: nat, k: nat, f: Fields)
    requires k < |fmt| && fmt[k].Char? && InRange(f) && i <= |s|
    requires Match(fmt, s, i, k, f).Some?
    ensures i < |s| && s[i] == fmt[k].c
    ensures Match(fmt, s, i, k, f) == Match(fmt, s, i + 1, k + 1, f)
  {
  }

  lemma SpacesStep(fmt: seq<Directive>, s: string, i: nat, k: nat, f: Fields) returns (j: nat)
    requires k < |fmt| && fmt[k] == Whitespace && InRange(f) && i <= |s|
    requires Match(fmt, s, i, k, f).Some?
    ensures i < j <= |s| && (forall t :: i <= t < j ==> IsSpace(s[t])) && (j < |s| ==> !IsSpace(s[j]))
    ensures Match(fmt, s, i, k, f) == Match(fmt, s, j, k + 1, f)
  {
    j := SpacesEnd(s, i);
  }

  lemma DayStep(fmt: seq<Directive>, s: string, i: nat, k: nat, f: Fields) returns (n: nat, d: nat)
    requires k < |fmt| && fmt[k] == DayOfMonth && InRange(f) && i <= |s|
    requires Match(fmt, s, i, k, f).Some?
    ensures 1 <= n <= 2 && i + n <= |s| && 1 <= d <= 31
    ensures (forall t :: i <= t < i + n ==> IsDigit(s[t])) && NumberAt(s, i, i + n) == d
    ensures Match(fmt, s, i, k, f) == Match(fmt, s, i + n, k + 1, f.(day := d))
  {
    n := DigitsEnd(s, i) - i;
    d := NumberAt(s, i, i + n);
  }

  lemma YearStep(fmt: seq<Directive>, s: string, i: nat, k: nat, f: Fields) returns (y: nat)
    requires k < |fmt| && fmt[k] == Year4 && InRange(f) && i <= |s|
    requires Match(fmt, s, i, k, f).Some?
    ensures i + 4 <= |s| && (forall t :: i <= t < i + 4 ==> IsDigit(s[t])) && NumberAt(s, i, i + 4) == y
    ensures y <= 9999
    ensures Match(fmt, s, i, k, f) == Match(fmt, s, i + 4, k + 1, f.(year := y))
  {
    y := NumberAt(s, i, i + 4);
    NumberAtBound(s, i, i + 4);
    assert Pow10(4) == 10000;
  }

  /** The weekday and `,` a match has read. */
  lemma WeekdayOfMatch(fmt: seq<Directive>, s: string, f: Fields) returns (w: nat, c: nat)
    requires 2 <= |fmt| && fmt[0] == WeekdayName && fmt[1] == Char(',')
    requires InRange(f) && Match(fmt, s, 0, 0, f).Some?
    ensures WeekdayAt(s, 0, c, w)
    ensures Match(fmt, s, 0, 0, f) == Match(fmt, s, c + 1, 2, f)
  {
    c, w := WeekdayStep(fmt, s, 0, 0, f);
    CharStep(fmt, s, c, 1, f);
  }

  /** Whitespace and the month name a match has read, before more whitespace. */
  lemma MonthOfMatch(fmt: seq<Directive>, k: nat, s: string, a: nat, f: Fields) returns (b: nat, c: nat, m: nat)
    requires k + 3 <= |fmt| && fmt[k] == Whitespace && fmt[k + 1] == MonthName && fmt[k + 2] == Whitespace
    requires a <= |s| && InRange(f) && Match(fmt, s, a, k, f).Some?
    ensures MonthAt(s, a, b, c, m)
    ensures Match(fmt, s, a, k, f) == Match(fmt, s, c, k + 2, f.(month := m))
  {
    b := SpacesStep(fmt, s, a, k, f);
    c, m := MonthStep(fmt, s, b, k + 1, f);
    var e := SpacesStep(fmt, s, c, k + 2, f.(month := m));
  }

  /** Whitespace, the day, `,`, whitespace and the year a match has read. */
  lemma BackOfMatch(fmt: seq<Directive>, s: string, c2: nat, f: Fields) returns (e: nat, n: nat, d: nat, y: nat)
    requires |fmt| == 9 && fmt[4] == Whitespace && fmt[5] == DayOfMonth && fmt[6] == Char(',')
    requires fmt[7] == Whitespace && fmt[8] == Year4
    requires c2 <= |s| && InRange(f) && Match(fmt, s, c2, 4, f).Some?
    ensures DayAt(s, c2, e, n, d) && YearAt(s, e + n + 1, y)
    ensures Match(fmt, s, c2, 4, f) == Some(Fields(y, f.month, d))
  {
    e := SpacesStep(fmt, s, c2, 4, f);
    n, d := DayStep(fmt, s, e, 5, f);
    CharStep(fmt, s, e + n, 6, f.(day := d));
    var g := SpacesStep(fmt, s, e + n + 1, 7, f.(day := d));
    y := YearStep(fmt, s, g, 8, f.(day := d));
    assert g + 4 == |s|;
  }

  /** A text the header pattern matches is laid out as `HeaderAt` says, with the fields read. */
  lemma HeaderOfMatch(fmt: seq<Directive>, s: string, f: Fields)
    returns (w: nat, c: nat, b: nat, c2: nat, e: nat, n: nat, m: nat, d: nat, y: nat)
    requires |fmt| == 9 && fmt[0] == WeekdayName && fmt[1] == Char(',') && fmt[2] == Whitespace && fmt[3] == MonthName
    requires fmt[4] == Whitespace && fmt[5] == DayOfMonth && fmt[6] == Char(',') && fmt[7] == Whitespace && fmt[8] == Year4
    requires InRange(f) && Match(fmt, s, 0, 0, f).Some?
    ensures HeaderAt(s, w, c, b, c2, e, n, m, d, y)
    ensures Match(fmt, s, 0, 0, f) == Some(Fields(y, m, d))
  {
    w, c := WeekdayOfMatch(fmt, s, f);
    b, c2, m := MonthOfMatch(fmt, 2, s, c + 1, f);
    e, n, d, y := BackOfMatch(fmt, s, c2, f.(month := m));
  }

  /** A date key `ParseDate` returns comes from a header laid out as `HeaderAt` says. */
  lemma ParseDateShape(s: string) returns (w: nat, c: nat, b: nat, c2: nat, e: nat, n: nat, m: nat, d: nat, y: nat)
    requires ParseDate(s).Some?
    ensures HeaderAt(s, w, c, b, c2, e, n, m, d, y) && IsDate(y, m, d)
    ensures ParseDate(s).value == IsoDate(y, m, d)
  {
    w, c, b, c2, e, n, m, d, y := HeaderOfMatch(HEADER_FORMAT, s, DEFAULT_FIELDS);
  }

  /**
   * A header laid out as `HeaderAt` says gives the key of its date when the
   * date exists, and fails otherwise.
   */
  lemma HeaderParse(s: string, w: nat, c: nat, b: nat, c2: nat, e: nat, n: nat, m: nat, d: nat, y: nat)
    requires HeaderAt(s, w, c, b, c2, e, n, m, d, y)
    ensures y <= 9999
    ensures ParseDate(s) == if IsDate(y, m, d) then Some(IsoDate(y, m, d)) else None
  {
    HeaderMatch(s, w, c, b, c2, e, n, m, d, y);
    ParseDateOf(s, y, m, d);
  }

  /**
   * `ParseDate` returns `k` exactly when the text is a header laid out as
   * the format says whose fields name an existing date with ISO text `k`:
   * a text of any other shape, or naming no date, makes it fail.
   */
  lemma ParseDateHeader(s: string, k: string)
    ensures ParseDate(s) == Some(k) <==>
      exists w: nat, c: nat, b: nat, c2: nat, e: nat, n: nat, m: nat, d: nat, y: nat ::
        HeaderAt(s, w, c, b, c2, e, n, m, d, y) && IsDate(y, m, d) && k == IsoDate(y, m, d)
  {
    if ParseDate(s) == Some(k) {
      var w, c, b, c2, e, n, m, d, y := ParseDateShape(s);
    }
    forall w: nat, c: nat, b: nat, c2: nat, e: nat, n: nat, m: nat, d: nat, y: nat |
      HeaderAt(s, w, c, b, c2, e, n, m, d, y) && IsDate(y, m, d)
      ensures ParseDate(s) == Some(IsoDate(y, m, d))
    {
      HeaderParse(s, w, c, b, c2, e, n, m, d, y);
    }
  }

  /** A day printed in one digit is read like one printed in two. */
  lemma OneDigitDay()
    ensures ParseDate("Monday, January 6, 2025") == Some(IsoDate(2025, 1, 6))
  {
    ExampleNames();
    ExampleDigits();
    assert "Monday" + "," + " " + "January" + " " + "6" + "," + " " + "2025" == "Monday, January 6, 2025";
    DateRoundTrip("Monday", " ", "January", " ", "6", " ", "2025", 2025, 1, 6);
  }

  lemma ExampleNames()
    ensures Lower("Monday") in WEEKDAY_NAMES && Lower("January") == MONTH_NAMES[0]
    ensures AllSpace(" ") && AllDigits("6") && AllDigits("2025")
  {
    assert Lower("Monday") == WEEKDAY_NAMES[0];
  }

  lemma ExampleDigits()
    ensures DigitsValue("6") == 6 && DigitsValue("2025") == 2025
  {
    assert "6"[..0] == "";
    assert DigitsValue("6") == 6;
    assert "2025"[..3] == "202" && "202"[..2] == "20" && "20"[..1] == "2" && "2"[..0] == "";
    assert DigitsValue("2") == 2;
    assert DigitsValue("20") == 20;
    assert DigitsValue("202") == 202;
  }
}
