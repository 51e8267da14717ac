/**
 * `get_publication_date`: the publication date of an item is the earlier of
 * its issue date and its online date, each written `YYYY`, `YYYY-MM` or
 * `YYYY-MM-DD` and read with `datetime.strptime`.
 */
module PublicationDates {
  import opened Wrappers
  import opened Text

  /** A calendar date; a partial date is read as the first day of its period. */
  datatype Date = Date(year: int, month: int, day: int)

  /** `datetime` ordering: by year, then month, then day. */
  predicate Before(a: Date, b: Date)
  {
    a.year < b.year
    || (a.year == b.year && a.month < b.month)
    || (a.year == b.year && a.month == b.month && a.day < b.day)
  }

  predicate IsLeapYear(y: int)
  {
    y % 4 == 0 && (y % 100 != 0 || y % 400 == 0)
  }

  function DaysInMonth(y: int, m: int): (n: int)
    requires 1 <= m <= 12
    ensures 28 <= n <= 31
    ensures n == 29 <==> m == 2 && IsLeapYear(y)
  {
    if m == 2 then (if IsLeapYear(y) then 29 else 28)
    else if m == 4 || m == 6 || m == 9 || m == 11 then 30
    else 31
  }

  /** The dates `datetime` accepts. */
  predicate ValidDate(d: Date)
  {
    1 <= d.year <= 9999 && 1 <= d.month <= 12 && 1 <= d.day <= DaysInMonth(d.year, d.month)
  }

  predicate IsDigit(c: char) { '0' <= c <= '9' }

  function DigitValue(c: char): (v: int)
    requires IsDigit(c)
    ensures 0 <= v <= 9
  {
    c as int - '0' as int
  }

  function Pow10(n: nat): nat
  {
    if n == 0 then 1 else 10 * Pow10(n - 1)
  }

  /** The value of a run of decimal digits. */
  function DecimalValue(t: string): (v: int)
    requires forall i :: 0 <= i < |t| ==> IsDigit(t[i])
    ensures 0 <= v
    ensures v < Pow10(|t|)
  {
    if |t| == 0 then 0
    else DecimalValue(t[..|t| - 1]) * 10 + DigitValue(t[|t| - 1])
  }

  /** `%Y`: exactly four digits, and `datetime` refuses year 0. */
  function ParseYear(t: string): (r: Option<int>)
    ensures r.Some? ==> 1 <= r.value <= 9999
    ensures r.Some? ==> |t| == 4
  {
    if |t| == 4 && (forall i :: 0 <= i < 4 ==> IsDigit(t[i])) && DecimalValue(t) >= 1
    then
      assert Pow10(4) == 10000;
      Some(DecimalValue(t))
    else None
  }

  /** `%m`: one of `10`-`12`, `01`-`09` or `1`-`9`, and nothing else. */
  function ParseMonth(t: string): (r: Option<int>)
    ensures r.Some? ==> 1 <= r.value <= 12
    ensures r.Some? ==> 1 <= |t| <= 2
  {
    if |t| == 1 && '1' <= t[0] <= '9' then Some(DigitValue(t[0]))
    else if |t| == 2 && t[0] == '0' && '1' <= t[1] <= '9' then Some(DigitValue(t[1]))
    else if |t| == 2 && t[0] == '1' && '0' <= t[1] <= '2' then Some(10 + DigitValue(t[1]))
    else None
  }

  /** `%d`: one of `30`-`31`, `10`-`29`, `01`-`09`, `1`-`9` or a space and `1`-`9`. */
  function ParseDay(t: string): (r: Option<int>)
    ensures r.Some? ==> 1 <= r.value <= 31
  {
    if |t| == 2 && t[0] == '3' && '0' <= t[1] <= '1' then Some(30 + DigitValue(t[1]))
    else if |t| == 2 && '1' <= t[0] <= '2' && IsDigit(t[1]) then Some(DigitValue(t[0]) * 10 + DigitValue(t[1]))
    else if |t| == 2 && (t[0] == '0' || t[0] == ' ') && '1' <= t[1] <= '9' then Some(DigitValue(t[1]))
    else if |t| == 1 && '1' <= t[0] <= '9' then Some(DigitValue(t[0]))
    else None
  }

  /** The date of year, month and day texts, or `None` when `datetime` would refuse it. */
  function ParseYmd(y: string, m: string, d: string): (r: Option<Date>)
    ensures r.Some? ==> ValidDate(r.value)
  {
    match (ParseYear(y), ParseMonth(m), ParseDay(d))
    case (Some(yv), Some(mv), Some(dv)) =>
      if dv <= DaysInMonth(yv, mv) then Some(Date(yv, mv, dv)) else None
    case _ => None
  }

  /**
   * The date read from a text by the branch of `get_publication_date` that
   * its number of `-`-separated parts selects: `Returns(None)` when no branch
   * applies (four parts or more, so the date stays unset), `Raises` when
   * `strptime` refuses the text.
   */
  function ParseDate(s: string): (r: Outcome<Option<Date>>)
    ensures r == Returns(None) <==> |Split(s, "-")| > 3
    ensures r.Returns? && r.value.Some? ==> ValidDate(r.value.value)
    ensures r.Returns? && r.value.Some? && |Split(s, "-")| < 3 ==> r.value.value.day == 1
    ensures r.Returns? && r.value.Some? && |Split(s, "-")| < 2 ==> r.value.value.month == 1
  {
    var parts := Split(s, "-");
    var parsed :=
      if |parts| == 1 then ParseYmd(parts[0], "1", "1")
      else if |parts| == 2 then ParseYmd(parts[0], parts[1], "1")
      else if |parts| == 3 then ParseYmd(parts[0], parts[1], parts[2])
      else None;
    if |parts| > 3 then Returns(None)
    else if parsed.None? then Raises
    else Returns(parsed)
  }

  /** A date column value as the function reads it: absent, unparsed, or a date. */
  function ReadDate(value: Option<string>): Outcome<Option<Date>>
  {
    match value
    case None => Returns(None)
    case Some(s) => ParseDate(s)
  }

  /**
   * `get_publication_date` on the issue and online date columns: the earlier
   * date wins, a tie goes to the online date, an online date in 2011 yields
   * to the issue date; with only one usable date that one is taken, with none
   * the function fails.
   */
  function GetPublicationDate(issue: Option<string>, online: Option<string>): (r: Outcome<string>)
    ensures r.Returns? ==> (issue.Some? && r.value == issue.value) || (online.Some? && r.value == online.value)
  {
    match (ReadDate(issue), ReadDate(online))
    case (Raises, _) => Raises
    case (_, Raises) => Raises
    case (Returns(Some(i)), Returns(Some(o))) =>
      if Before(i, o) then Returns(issue.value)
      else if StartsWith(online.value, "2011") then Returns(issue.value)
      else Returns(online.value)
    case (Returns(Some(_)), Returns(None)) => Returns(issue.value)
    case (Returns(None), Returns(Some(_))) => Returns(online.value)
    case (Returns(None), Returns(None)) => Raises
  }

  // ---------------------------------------------------------------- properties

  /** The function fails exactly when a date is refused or no date is usable. */
  lemma PublicationDateFails(issue: Option<string>, online: Option<string>)
    ensures GetPublicationDate(issue, online).Raises?
        <==> ReadDate(issue).Raises? || ReadDate(online).Raises?
             || (ReadDate(issue) == Returns(None) && ReadDate(online) == Returns(None))
  {
  }

  /** Of two usable dates the strictly earlier one wins. */
  lemma EarlierDateWins(issue: string, online: string, i: Date, o: Date)
    requires ParseDate(issue) == Returns(Some(i)) && ParseDate(online) == Returns(Some(o))
    ensures Before(i, o) ==> GetPublicationDate(Some(issue), Some(online)) == Returns(issue)
    ensures Before(o, i) && !StartsWith(online, "2011")
            ==> GetPublicationDate(Some(issue), Some(online)) == Returns(online)
  {
    if Before(o, i) {
      BeforeAsymmetric(o, i);
    }
  }

  lemma BeforeAsymmetric(a: Date, b: Date)
    requires Before(a, b)
    ensures !Before(b, a) && a != b
  {
  }

  /** Two equal dates give the online one, unless it starts with `2011`. */
  lemma TieGoesToOnline(issue: string, online: string, d: Date)
    requires ParseDate(issue) == Returns(Some(d)) && ParseDate(online) == Returns(Some(d))
    ensures GetPublicationDate(Some(issue), Some(online))
         == if StartsWith(online, "2011") then Returns(issue) else Returns(online)
  {
  }

  /** An online date in 2011 never wins over a usable issue date. */
  lemma OnlineIn2011YieldsToIssue(issue: string, online: string)
    requires ParseDate(issue).Returns? && ParseDate(issue).value.Some?
    requires ParseDate(online).Returns? && ParseDate(online).value.Some?
    requires StartsWith(online, "2011")
    ensures GetPublicationDate(Some(issue), Some(online)) == Returns(issue)
  {
  }

  /** With one usable date and the other absent or unread, the usable one is taken. */
  lemma SingleDateTaken(date: string, other: Option<string>)
    requires ParseDate(date).Returns? && ParseDate(date).value.Some?
    requires ReadDate(other) == Returns(None)
    ensures GetPublicationDate(Some(date), other) == Returns(date)
    ensures GetPublicationDate(other, Some(date)) == Returns(date)
  {
  }

  lemma {:induction false} DigitsHaveNoDash(t: string)
    requires forall i :: 0 <= i < |t| ==> IsDigit(t[i])
    ensures '-' !in t
  {
    assert forall i :: 0 <= i < |t| ==> t[i] != '-';
  }

  /** A year alone reads as the first of January of that year. */
  lemma YearIsFirstOfJanuary(y: string)
    requires ParseYear(y).Some?
    ensures ParseDate(y) == Returns(Some(Date(ParseYear(y).value, 1, 1)))
  {
    DigitsHaveNoDash(y);
    NotContainsByChar(y, "-", 0);
    SplitNoSeparator(y, "-");
    assert ParseMonth("1") == Some(1) && ParseDay("1") == Some(1);
  }

  /** A year and a month read as the first day of that month. */
  lemma MonthIsFirstDay(y: string, m: string)
    requires ParseYear(y).Some? && ParseMonth(m).Some?
    ensures ParseDate(y + "-" + m) == Returns(Some(Date(ParseYear(y).value, ParseMonth(m).value, 1)))
  {
    DigitsHaveNoDash(y);
    NotContainsByChar(y, "-", 0);
    SplitNoSeparator(y, "-");
    assert '-' !in m;
    SplitLastPiece(y, '-', m);
    assert ParseDay("1") == Some(1);
  }

  /** A year, a month and a day read as that day, whenever `datetime` accepts them. */
  lemma DayIsRead(y: string, m: string, d: string)
    requires ParseYmd(y, m, d).Some?
    ensures ParseDate(y + "-" + m + "-" + d)
         == Returns(Some(Date(ParseYear(y).value, ParseMonth(m).value, ParseDay(d).value)))
  {
    DigitsHaveNoDash(y);
    NotContainsByChar(y, "-", 0);
    SplitNoSeparator(y, "-");
    assert '-' !in m && '-' !in d;
    SplitLastPiece(y, '-', m);
    SplitLastPiece(y + "-" + m, '-', d);
  }

  /**
   * A text of one, two or three `-`-separated parts raises exactly when
   * `strptime` refuses it in the format its number of parts selects.
   */
  lemma RefusedDateRaises(s: string)
    requires |Split(s, "-")| <= 3
    ensures var parts := Split(s, "-");
            ParseDate(s).Raises? <==>
              || (|parts| == 1 && ParseYmd(parts[0], "1", "1").None?)
              || (|parts| == 2 && ParseYmd(parts[0], parts[1], "1").None?)
              || (|parts| == 3 && ParseYmd(parts[0], parts[1], parts[2]).None?)
  {
  }
}
