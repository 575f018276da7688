/**
 * The three field validators of the client registry (`validar_email`,
 * `validar_cpf`, `validar_data`). Each is total: an empty string is accepted
 * (the field is optional), anything else is accepted or rejected, never an
 * exception.
 */
module Validators {
  import opened Wrappers
  import opened Text

  // ---------------------------------------------------------------------------
  // validar_email: re.match(r"^[\w\.-]+@[\w\.-]+\.\w+$", email)
  // ---------------------------------------------------------------------------

  /** `[\w\.-]`: the class the local part and the domain are drawn from. */
  predicate IsAddressChar(c: char) {
    IsWordChar(c) || c == '.' || c == '-'
  }

  predicate AllAddressChars(s: string) {
    forall i :: 0 <= i < |s| ==> IsAddressChar(s[i])
  }

  /**
   * `s` is `local @ domain . suffix` with the `@` at `at` and the last dot at
   * `dot`: local and domain non-empty over `[\w\.-]`, suffix non-empty over `\w`.
   */
  ghost predicate EmailSplitAt(s: string, at: int, dot: int) {
    && 0 < at && at + 1 < dot && dot + 1 < |s|
    && s[at] == '@' && s[dot] == '.'
    && AllAddressChars(s[..at]) && AllAddressChars(s[at + 1..dot]) && AllWordChars(s[dot + 1..])
  }

  /** The whole of `s` matches `[\w\.-]+@[\w\.-]+\.\w+`. */
  ghost predicate MatchesEmailPattern(s: string) {
    exists at, dot :: EmailSplitAt(s, at, dot)
  }

  /** A deterministic reading of the pattern: split at the first `@` and at the last `.` after it. */
  function EmailShape(s: string): (ok: bool)
    ensures ok ==> |s| >= 5 && s[0] != '@' && s[|s| - 1] != '.'
  {
    var at := IndexOf(s, '@');
    && 0 < at < |s| && AllAddressChars(s[..at])
    && var domain := s[at + 1..];
       var dot := LastIndexOf(domain, '.');
       AllAddressChars(domain) && 1 <= dot && dot + 1 < |domain| && AllWordChars(domain[dot + 1..])
  }

  lemma EmailShapeIsPattern(s: string)
    ensures EmailShape(s) <==> MatchesEmailPattern(s)
  {
    if EmailShape(s) {
      EmailShapeSound(s);
    }
    if MatchesEmailPattern(s) {
      var a, d :| EmailSplitAt(s, a, d);
      EmailShapeComplete(s, a, d);
    }
  }

  /** The deterministic split is one of the pattern's splits. */
  lemma EmailShapeSound(s: string)
    requires EmailShape(s)
    ensures EmailSplitAt(s, IndexOf(s, '@'), IndexOf(s, '@') + 1 + LastIndexOf(s[IndexOf(s, '@') + 1..], '.'))
  {
    var at := IndexOf(s, '@');
    var dot := LastIndexOf(s[at + 1..], '.');
    DomainSplitChars(s, at + 1, dot);
  }

  /** Both sides of a dot inside an address-character tail keep their character classes. */
  lemma DomainSplitChars(s: string, from: nat, dot: nat)
    requires from <= |s| && dot < |s| - from
    requires AllAddressChars(s[from..]) && AllWordChars(s[from..][dot + 1..])
    ensures AllAddressChars(s[from..from + dot]) && AllWordChars(s[from + dot + 1..])
  {
    var domain, host, suffix := s[from..], s[from..from + dot], s[from + dot + 1..];
    forall k | 0 <= k < |host|
      ensures IsAddressChar(host[k])
    {
      assert host[k] == domain[k];
    }
    forall k | 0 <= k < |suffix|
      ensures IsWordChar(suffix[k])
    {
      assert suffix[k] == domain[dot + 1..][k];
    }
  }

  /** Any split of the pattern is found by the deterministic reading. */
  lemma EmailShapeComplete(s: string, a: int, d: int)
    requires EmailSplitAt(s, a, d)
    ensures EmailShape(s)
  {
    assert forall k :: 0 <= k < a ==> s[k] == s[..a][k];
    assert IndexOf(s, '@') == a;
    var domain := s[a + 1..];
    forall k | 0 <= k < |domain|
      ensures IsAddressChar(domain[k])
      ensures a + 1 + k > d ==> IsWordChar(domain[k])
    {
      if a + 1 + k < d {
        assert domain[k] == s[a + 1..d][k];
      } else if a + 1 + k > d {
        assert domain[k] == s[d + 1..][a + k - d];
      }
    }
    var dot := LastIndexOf(domain, '.');
    assert domain[d - a - 1] == '.';
    assert dot == d - a - 1;
    assert domain[dot + 1..] == s[d + 1..];
    assert AllAddressChars(domain) && AllWordChars(domain[dot + 1..]);
  }

  /**
   * `validar_email`: the empty string, or `re.match` of the pattern succeeds
   * (see ValidEmailIsPatternMatch).
   */
  function ValidEmail(email: string): (ok: bool)
    ensures email == [] ==> ok
  {
    email == []
    || EmailShape(email)
    || (email[|email| - 1] == '\n' && EmailShape(email[..|email| - 1]))
  }

  /**
   * A non-empty address is accepted exactly when it matches the whole pattern;
   * Python's `$` also matches just before one final newline, so a matching
   * address followed by a single `\n` is accepted too.
   */
  lemma ValidEmailIsPatternMatch(email: string)
    ensures ValidEmail(email) <==>
              || email == []
              || MatchesEmailPattern(email)
              || (email[|email| - 1] == '\n' && MatchesEmailPattern(email[..|email| - 1]))
  {
    if email != [] {
      EmailShapeIsPattern(email);
      EmailShapeIsPattern(email[..|email| - 1]);
    }
  }

  /** An accepted non-empty address holds exactly one `@`. */
  lemma AcceptedEmailHasOneAt(s: string)
    requires s != [] && s[|s| - 1] != '\n' && ValidEmail(s)
    ensures exists at :: 0 < at < |s| - 1 && s[at] == '@'
    ensures forall i, j :: 0 <= i < |s| && 0 <= j < |s| && s[i] == '@' && s[j] == '@' ==> i == j
  {
    ValidEmailIsPatternMatch(s);
    var a, d :| EmailSplitAt(s, a, d);
    forall i | 0 <= i < |s| && i != a
      ensures s[i] != '@'
    {
      if i < a {
        assert s[i] == s[..a][i];
      } else if i < d {
        assert s[i] == s[a + 1..d][i - a - 1];
      } else if i > d {
        assert s[i] == s[d + 1..][i - d - 1];
      }
    }
  }

  lemma EmailExamples()
    ensures ValidEmail("a@b.co")
    ensures ValidEmail("a@b.co\n")
  {
    assert EmailSplitAt("a@b.co", 1, 3);
    assert "a@b.co\n"[..6] == "a@b.co";
    ValidEmailIsPatternMatch("a@b.co");
    ValidEmailIsPatternMatch("a@b.co\n");
  }

  lemma EmailRejectExamples()
    ensures !ValidEmail("not-an-email")
    ensures !ValidEmail("bad")
  {
    var bad, other := "bad", "not-an-email";
    assert forall i :: 0 <= i < |bad| ==> bad[i] != '@';
    assert forall i :: 0 <= i < |other| ==> other[i] != '@';
  }

  // ---------------------------------------------------------------------------
  // validar_cpf: len(re.sub(r"\D", "", cpf)) == 11
  // ---------------------------------------------------------------------------

  /** `re.sub(r"\D", "", s)`: the digits of `s`, in their order. */
  function DigitsOf(s: string): (d: string)
    ensures AllDigits(d) && |d| <= |s|
  {
    if s == [] then [] else (if IsDigit(s[0]) then [s[0]] else []) + DigitsOf(s[1..])
  }

  lemma {:induction false} DigitsOfAppend(a: string, b: string)
    ensures DigitsOf(a + b) == DigitsOf(a) + DigitsOf(b)
  {
    if a == [] {
      assert a + b == b;
    } else {
      assert (a + b)[1..] == a[1..] + b;
      DigitsOfAppend(a[1..], b);
    }
  }

  /** The positions of `s` that hold a digit. */
  ghost function DigitPositions(s: string): set<int> {
    set i | 0 <= i < |s| && IsDigit(s[i])
  }

  /** Stripping the non-digits keeps exactly one character per digit position. */
  lemma {:induction false} DigitsOfCountsDigits(s: string)
    ensures |DigitsOf(s)| == |DigitPositions(s)|
  {
    if s != [] {
      var n := |s| - 1;
      var init := s[..n];
      DigitsOfCountsDigits(init);
      assert s == init + [s[n]];
      DigitsOfAppend(init, [s[n]]);
      assert DigitsOf([s[n]]) == if IsDigit(s[n]) then [s[n]] else [];
      assert DigitPositions(s) == DigitPositions(init) + (if IsDigit(s[n]) then {n} else {});
    }
  }

  /** `validar_cpf`: empty, or eleven characters left once the non-digits are removed. */
  function ValidCpf(cpf: string): (ok: bool)
    ensures cpf == [] ==> ok
  {
    cpf == [] || |DigitsOf(cpf)| == 11
  }

  /** A non-empty CPF is accepted exactly when eleven of its characters are digits; no check digit is computed. */
  lemma ValidCpfCountsDigits(cpf: string)
    ensures ValidCpf(cpf) <==> cpf == [] || |DigitPositions(cpf)| == 11
  {
    DigitsOfCountsDigits(cpf);
  }

  /** Inserting or removing non-digit characters does not change the verdict on a non-empty CPF. */
  lemma CpfIgnoresNonDigits(a: string, junk: string, b: string)
    requires forall i :: 0 <= i < |junk| ==> !IsDigit(junk[i])
    requires a + b != []
    ensures ValidCpf(a + junk + b) == ValidCpf(a + b)
  {
    assert DigitPositions(junk) == {};
    DigitsOfCountsDigits(junk);
    DigitsOfAppend(a, junk);
    DigitsOfAppend(a + junk, b);
    DigitsOfAppend(a, b);
  }

  /** A masked CPF counts its eleven digits and ignores the mask. */
  lemma CpfMaskedExample()
    ensures ValidCpf("111.222.333-44")
  {
    ValidCpfCountsDigits("111.222.333-44");
  }

  lemma CpfPlainExample()
    ensures ValidCpf("12345678901")
  {
    ValidCpfCountsDigits("12345678901");
  }

  lemma CpfShortRejected()
    ensures !ValidCpf("123")
  {
    ValidCpfCountsDigits("123");
  }

  // ---------------------------------------------------------------------------
  // validar_data: datetime.strptime(data_str, "%d/%m/%Y") raises no ValueError
  // ---------------------------------------------------------------------------

  datatype Date = Date(day: int, month: int, year: int)

  /** The value of a string of decimal digits (`int(t)`). */
  function DecimalValue(t: string): (n: nat)
    requires AllDigits(t)
  {
    if t == [] then 0 else 10 * DecimalValue(t[..|t| - 1]) + (t[|t| - 1] as int - '0' as int)
  }

  /** The value of a one- or two-digit text, digit by digit. */
  lemma ShortDecimalValue(t: string)
    requires 1 <= |t| <= 2 && AllDigits(t)
    ensures |t| == 1 ==> DecimalValue(t) == t[0] as int - '0' as int
    ensures |t| == 2 ==> DecimalValue(t) == 10 * (t[0] as int - '0' as int) + (t[1] as int - '0' as int)
  {
    assert t[..|t| - 1][..0] == [];
    if |t| == 2 {
      assert t[..1] == [t[0]];
      assert DecimalValue(t[..1]) == t[0] as int - '0' as int;
    }
  }

  /** What the `%d` directive matches: `3[01]|[12]\d|0[1-9]|[1-9]| [1-9]`. */
  predicate DayText(t: string) {
    || (|t| == 1 && '1' <= t[0] <= '9')
    || (|t| == 2 && t[0] == '3' && '0' <= t[1] <= '1')
    || (|t| == 2 && '1' <= t[0] <= '2' && IsDigit(t[1]))
    || (|t| == 2 && t[0] == '0' && '1' <= t[1] <= '9')
    || (|t| == 2 && t[0] == ' ' && '1' <= t[1] <= '9')
  }

  /** What the `%m` directive matches: `1[0-2]|0[1-9]|[1-9]`. */
  predicate MonthText(t: string) {
    || (|t| == 1 && '1' <= t[0] <= '9')
    || (|t| == 2 && t[0] == '1' && '0' <= t[1] <= '2')
    || (|t| == 2 && t[0] == '0' && '1' <= t[1] <= '9')
  }

  /** What the `%Y` directive matches: `\d\d\d\d`. */
  predicate YearText(t: string) {
    |t| == 4 && AllDigits(t)
  }

  /** `int()` of a matched day; `int(" 5")` ignores the leading blank. */
  function DayValue(t: string): (n: nat)
    requires DayText(t)
    ensures 1 <= n <= 31
  {
    if t[0] == ' ' then
      ShortDecimalValue(t[1..]);
      DecimalValue(t[1..])
    else
      ShortDecimalValue(t);
      DecimalValue(t)
  }

  function MonthValue(t: string): (n: nat)
    requires MonthText(t)
    ensures 1 <= n <= 12
  {
    ShortDecimalValue(t);
    DecimalValue(t)
  }

  /**
   * The matching half of `strptime`: the day runs up to the first `/`, the
   * month up to the second, and the year is the whole rest (a longer rest is
   * "unconverted data remains").
   */
  function ParseDate(s: string): (r: Option<Date>)
    ensures r.Some? ==> 1 <= r.value.day <= 31 && 1 <= r.value.month <= 12
  {
    var i := IndexOf(s, '/');
    if i == |s| then None
    else
      var rest := s[i + 1..];
      var j := IndexOf(rest, '/');
      if j == |rest| then None
      else if DayText(s[..i]) && MonthText(rest[..j]) && YearText(rest[j + 1..]) then
        Some(Date(DayValue(s[..i]), MonthValue(rest[..j]), DecimalValue(rest[j + 1..])))
      else None
  }

  predicate IsLeapYear(y: int) {
    y % 4 == 0 && (y % 100 != 0 || y % 400 == 0)
  }

  function DaysInMonth(month: int, year: int): (n: int)
    requires 1 <= month <= 12
    ensures 28 <= n <= 31
    ensures month == 2 ==> (n == 29 <==> IsLeapYear(year))
  {
    if month == 2 then (if IsLeapYear(year) then 29 else 28)
    else if month == 4 || month == 6 || month == 9 || month == 11 then 30
    else 31
  }

  /** What `datetime(year, month, day)` accepts: proleptic Gregorian, year at least 1. */
  predicate IsCalendarDate(d: Date)
    ensures IsCalendarDate(d) ==> d.day <= 31
    ensures IsCalendarDate(d) && d.month == 2 && d.day == 29 ==> IsLeapYear(d.year)
    ensures IsCalendarDate(d) && d.day == 31 ==> d.month !in {2, 4, 6, 9, 11}
  {
    1 <= d.year && 1 <= d.month <= 12 && 1 <= d.day <= DaysInMonth(d.month, d.year)
  }

  /** `s` is day text, `/`, month text, `/`, four year digits, with the slashes at `i` and `j`. */
  ghost predicate DateLayoutAt(s: string, i: int, j: int) {
    && 0 <= i < j < |s| && s[i] == '/' && s[j] == '/'
    && DayText(s[..i]) && MonthText(s[i + 1..j]) && YearText(s[j + 1..])
  }

  /** The whole of `s` matches `%d/%m/%Y` and the fields read as `d`. */
  ghost predicate MatchesDateFormat(s: string, d: Date) {
    exists i, j :: DateLayoutAt(s, i, j)
                   && d == Date(DayValue(s[..i]), MonthValue(s[i + 1..j]), DecimalValue(s[j + 1..]))
  }

  /** In a matching text the two slashes are the first two of the text. */
  lemma LayoutSlashesComeFirst(s: string, i: int, j: int)
    requires DateLayoutAt(s, i, j)
    ensures IndexOf(s, '/') == i
    ensures IndexOf(s[i + 1..], '/') == j - i - 1
  {
    assert forall k :: 0 <= k < i ==> s[k] == s[..i][k];
    var rest := s[i + 1..];
    assert forall k :: 0 <= k < j - i - 1 ==> rest[k] == s[i + 1..j][k];
  }

  lemma ParseDateSound(s: string)
    ensures ParseDate(s).Some? ==> MatchesDateFormat(s, ParseDate(s).value)
  {
    var i := IndexOf(s, '/');
    if ParseDate(s).Some? {
      var rest := s[i + 1..];
      var j := IndexOf(rest, '/');
      assert s[i + 1..i + 1 + j] == rest[..j];
      assert s[i + 1 + j + 1..] == rest[j + 1..];
      assert DateLayoutAt(s, i, i + 1 + j);
    }
  }

  lemma ParseDateComplete(s: string, d: Date)
    requires MatchesDateFormat(s, d)
    ensures ParseDate(s) == Some(d)
  {
    var a, b :| DateLayoutAt(s, a, b)
                && d == Date(DayValue(s[..a]), MonthValue(s[a + 1..b]), DecimalValue(s[b + 1..]));
    ParseDateAt(s, a, b);
  }

  /** A text laid out with its slashes at `a` and `b` parses to the fields between them. */
  lemma ParseDateAt(s: string, a: int, b: int)
    requires DateLayoutAt(s, a, b)
    ensures ParseDate(s) == Some(Date(DayValue(s[..a]), MonthValue(s[a + 1..b]), DecimalValue(s[b + 1..])))
  {
    LayoutSlashesComeFirst(s, a, b);
    assert s[a + 1..][..b - a - 1] == s[a + 1..b];
    assert s[a + 1..][b - a..] == s[b + 1..];
  }

  lemma ParseDateIsFormat(s: string)
    ensures forall d :: ParseDate(s) == Some(d) <==> MatchesDateFormat(s, d)
  {
    ParseDateSound(s);
    forall d | MatchesDateFormat(s, d)
      ensures ParseDate(s) == Some(d)
    {
      ParseDateComplete(s, d);
    }
  }

  /** `validar_data`: empty, or `strptime(s, "%d/%m/%Y")` succeeds (see ValidDateIsCalendarDate). */
  function ValidDate(s: string): (ok: bool)
    ensures s == [] ==> ok
  {
    s == [] || (ParseDate(s).Some? && IsCalendarDate(ParseDate(s).value))
  }

  /**
   * A non-empty text is accepted exactly when the whole of it matches
   * `%d/%m/%Y` (one- or two-digit day and month, four-digit year, nothing
   * after it) and the fields name a real Gregorian date with year at least 1.
   */
  lemma ValidDateIsCalendarDate(s: string)
    ensures ValidDate(s) <==> s == [] || exists d :: MatchesDateFormat(s, d) && IsCalendarDate(d)
  {
    ParseDateIsFormat(s);
  }

  /** Any text after the four year digits makes an accepted date rejected. */
  lemma DateRejectsTrailingText(s: string, t: string)
    requires s != [] && ValidDate(s) && t != []
    ensures !ValidDate(s + t)
  {
    var i := IndexOf(s, '/');
    var rest := s[i + 1..];
    var j := IndexOf(rest, '/');
    IndexOfAppend(s, t, '/');
    assert (s + t)[i + 1..] == rest + t;
    IndexOfAppend(rest, t, '/');
    assert (rest + t)[j + 1..] == rest[j + 1..] + t;
    assert ParseDate(s + t) == None;
  }

  /** The two-digit rendering of `n` (zero-padded). */
  function Digit(n: int): (c: char)
    requires 0 <= n <= 9
    ensures IsDigit(c) && c as int - '0' as int == n
  {
    ('0' as int + n) as char
  }

  /** `d` written as `dd/mm/yyyy`, the form the web form and the prompt ask for. */
  function FormatDate(d: Date): string
    requires 1 <= d.day <= 31 && 1 <= d.month <= 12 && 0 <= d.year <= 9999
  {
    [Digit(d.day / 10), Digit(d.day % 10), '/', Digit(d.month / 10), Digit(d.month % 10), '/',
     Digit(d.year / 1000), Digit(d.year / 100 % 10), Digit(d.year / 10 % 10), Digit(d.year % 10)]
  }

  lemma YearDigits(y: int)
    requires 0 <= y <= 9999
    ensures var t := [Digit(y / 1000), Digit(y / 100 % 10), Digit(y / 10 % 10), Digit(y % 10)];
            AllDigits(t) && DecimalValue(t) == y
  {
    var t := [Digit(y / 1000), Digit(y / 100 % 10), Digit(y / 10 % 10), Digit(y % 10)];
    var a, b, c := y / 1000, y / 100, y / 10;
    assert b / 10 == a && c / 10 == b;
    assert b == 10 * a + b % 10 && c == 10 * b + c % 10 && y == 10 * c + y % 10;
    ShortDecimalValue(t[..2]);
    assert t[..3][..2] == t[..2] && t[..2] == [t[0], t[1]];
    assert DecimalValue(t[..2]) == b;
    assert DecimalValue(t[..3]) == c;
  }

  /** Round trip: a `dd/mm/yyyy` rendering parses back to the same fields, and is accepted exactly when the date is real. */
  lemma {:induction false} FormatDateParses(d: Date)
    requires 1 <= d.day <= 31 && 1 <= d.month <= 12 && 0 <= d.year <= 9999
    ensures ParseDate(FormatDate(d)) == Some(d)
    ensures ValidDate(FormatDate(d)) <==> IsCalendarDate(d)
  {
    var s := FormatDate(d);
    var dd, mm, yy := s[..2], s[3..5], s[6..];
    ShortDecimalValue(dd);
    ShortDecimalValue(mm);
    YearDigits(d.year);
    assert yy == [Digit(d.year / 1000), Digit(d.year / 100 % 10), Digit(d.year / 10 % 10), Digit(d.year % 10)];
    assert DateLayoutAt(s, 2, 5);
    assert MatchesDateFormat(s, d);
    ParseDateIsFormat(s);
  }

  lemma FormatDateExamples()
    ensures FormatDate(Date(29, 2, 2020)) == "29/02/2020"
    ensures FormatDate(Date(29, 2, 2021)) == "29/02/2021"
    ensures FormatDate(Date(31, 4, 2024)) == "31/04/2024"
  {
  }

  /** 29/02/2020 is a leap day and is accepted. */
  lemma LeapDayAccepted()
    ensures ValidDate(FormatDate(Date(29, 2, 2020)))
  {
    FormatDateParses(Date(29, 2, 2020));
  }

  /** 29/02/2021 is not a date and is rejected. */
  lemma NonLeapDayRejected()
    ensures !ValidDate(FormatDate(Date(29, 2, 2021)))
  {
    FormatDateParses(Date(29, 2, 2021));
  }

  /** April has 30 days; year 0000 is below `datetime`'s first year. */
  lemma OutOfCalendarExamples()
    ensures !ValidDate(FormatDate(Date(31, 4, 2024)))
    ensures !ValidDate(FormatDate(Date(1, 1, 0)))
  {
    FormatDateParses(Date(31, 4, 2024));
    FormatDateParses(Date(1, 1, 0));
  }

  /** `strptime` also takes a one-digit day and a one-digit month, as in `5/3/1999`. */
  lemma OneDigitDayAndMonthAccepted(dc: char, mc: char, y: string)
    requires '1' <= dc <= '9' && '1' <= mc <= '9' && YearText(y) && DecimalValue(y) >= 1
    ensures ValidDate([dc, '/', mc, '/'] + y)
  {
    var s := [dc, '/', mc, '/'] + y;
    assert s[..1] == [dc] && s[2..3] == [mc] && s[4..] == y;
    ShortDecimalValue([dc]);
    ShortDecimalValue([mc]);
    assert DateLayoutAt(s, 1, 3);
    var d := Date(dc as int - '0' as int, mc as int - '0' as int, DecimalValue(y));
    assert MatchesDateFormat(s, d);
    assert IsCalendarDate(d);
    ValidDateIsCalendarDate(s);
  }
}
