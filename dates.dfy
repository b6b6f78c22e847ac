/** The `when` attribute of the publication date in the TEI header: the
    normalised year, month and day (each -1 when unknown) printed as
    `YYYY`, `YYYY-MM` or `YYYY-MM-DD`, the calendar-date forms of section
    4.1.2 of ISO 8601:2004. */
module HeaderDate {
  import opened Strings

  /** The year, left-padded with zeros up to four characters. */
  function PadYear(year: int): string
  {
    if year <= 9 then "000" + IntToString(year)
    else if year <= 99 then "00" + IntToString(year)
    else if year <= 999 then "0" + IntToString(year)
    else IntToString(year)
  }

  /** A month or day, printed after a dash with one leading zero below 10. */
  function PadPart(v: int): string
  {
    if v <= 9 then "-0" + IntToString(v) else "-" + IntToString(v)
  }

  /** The `when` value; empty when the year is unknown, and a month is
      printed only with a year, a day only with a month. */
  function When(year: int, month: int, day: int): string
  {
    if year == -1 then ""
    else PadYear(year) + (if month == -1 then "" else PadPart(month) + (if day == -1 then "" else PadPart(day)))
  }

  /** The `<date>` line of the header: with a `when` attribute when the
      year is known; its content is the raw date string passed through
      the HTML encoder when there is one, else the `when` value. */
  function DateElement(year: int, month: int, day: int, rawDate: Option<string>, htmlEncode: string -> string): (r: string)
    ensures EndsWith(r, "</date>\n")
    ensures rawDate.None? && year != -1 ==>
      r == "\t\t\t\t<date type=\"published\" when=\"" + When(year, month, day) + "\">" + When(year, month, day) + "</date>\n"
    ensures year == -1 ==> StartsWith(r, "\t\t\t\t<date>")
  {
    var w := When(year, month, day);
    var open := if year != -1 then "\t\t\t\t<date type=\"published\" when=\"" + w + "\">" else "\t\t\t\t<date>";
    var r := open + (if rawDate.Some? then htmlEncode(rawDate.value) else w) + "</date>\n";
    assert r[..|open|] == open;
    r
  }

  /** A parsed `when` value: year, month and day, -1 where absent. */
  datatype Ymd = Ymd(year: int, month: int, day: int)

  /** Reads back `YYYY`, `YYYY-MM` or `YYYY-MM-DD`. */
  function ParseWhen(w: string): Option<Ymd>
  {
    if |w| == 4 && AllDigits(w) then Some(Ymd(DigitsValue(w), -1, -1))
    else if |w| == 7 && AllDigits(w[..4]) && w[4] == '-' && AllDigits(w[5..]) then
      Some(Ymd(DigitsValue(w[..4]), DigitsValue(w[5..]), -1))
    else if |w| == 10 && AllDigits(w[..4]) && w[4] == '-' && AllDigits(w[5..7]) && w[7] == '-' && AllDigits(w[8..]) then
      Some(Ymd(DigitsValue(w[..4]), DigitsValue(w[5..7]), DigitsValue(w[8..])))
    else None
  }

  /** A leading zero does not change the value of a digit string. */
  lemma {:induction false} LeadingZero(s: string)
    requires AllDigits(s)
    ensures AllDigits("0" + s) && DigitsValue("0" + s) == DigitsValue(s)
    decreases |s|
  {
    if s != [] {
      var t := "0" + s;
      assert t[..|t| - 1] == "0" + s[..|s| - 1];
      LeadingZero(s[..|s| - 1]);
    }
  }

  /** A year in 0..9999 is printed as exactly four digits that read back as the year. */
  lemma PadYearDigits(year: int)
    requires 0 <= year <= 9999
    ensures |PadYear(year)| == 4 && AllDigits(PadYear(year)) && DigitsValue(PadYear(year)) == year
  {
    var s := NatToString(year);
    NatToStringLength(year);
    NatToStringRoundTrip(year);
    assert IntToString(year) == s;
    if year <= 9 {
      LeadingZero(s); LeadingZero("0" + s); LeadingZero("0" + ("0" + s));
      assert PadYear(year) == "0" + ("0" + ("0" + s));
    } else if year <= 99 {
      LeadingZero(s); LeadingZero("0" + s);
      assert PadYear(year) == "0" + ("0" + s);
    } else if year <= 999 {
      LeadingZero(s);
      assert PadYear(year) == "0" + s;
    } else {
      assert PadYear(year) == s;
    }
  }

  /** A month or day in 0..99 is printed as a dash and two digits that read back as the value. */
  lemma PadPartDigits(v: int)
    requires 0 <= v <= 99
    ensures |PadPart(v)| == 3 && PadPart(v)[0] == '-'
    ensures AllDigits(PadPart(v)[1..]) && DigitsValue(PadPart(v)[1..]) == v
  {
    var s := NatToString(v);
    NatToStringLength(v);
    NatToStringRoundTrip(v);
    if v <= 9 {
      assert PadPart(v)[1..] == "0" + s;
      LeadingZero(s);
    } else {
      assert PadPart(v)[1..] == s;
    }
  }

  /** For a year of at most four digits and a month and day of at most two,
      `When` produces an ISO 8601 calendar date of the matching precision
      that reads back as the same year, month and day. */
  lemma WhenRoundTrip(year: int, month: int, day: int)
    requires 0 <= year <= 9999
    requires month == -1 || 0 <= month <= 99
    requires month == -1 || day == -1 || 0 <= day <= 99
    ensures month == -1 ==> |When(year, month, day)| == 4 && ParseWhen(When(year, month, day)) == Some(Ymd(year, -1, -1))
    ensures month != -1 && day == -1 ==> |When(year, month, day)| == 7 && ParseWhen(When(year, month, day)) == Some(Ymd(year, month, -1))
    ensures month != -1 && day != -1 ==> |When(year, month, day)| == 10 && ParseWhen(When(year, month, day)) == Some(Ymd(year, month, day))
  {
    PadYearDigits(year);
    var y := PadYear(year);
    var w := When(year, month, day);
    if month == -1 {
      assert w == y;
    } else {
      PadPartDigits(month);
      var m := PadPart(month);
      if day == -1 {
        assert w == y + m;
        assert w[..4] == y && w[4] == '-' && w[5..] == m[1..];
      } else {
        PadPartDigits(day);
        var d := PadPart(day);
        assert w == y + m + d;
        assert w[..4] == y && w[4] == '-' && w[5..7] == m[1..] && w[7] == '-' && w[8..] == d[1..];
      }
    }
  }
}
