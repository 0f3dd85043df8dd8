/**
 * `formatDate`: render the calendar fields of a publication time as
 * `YYYY.MM.DD`. Parsing the timestamp into fields (`new Date(...)` and the
 * host-timezone getters) is outside the model; a date is given by the values
 * `getFullYear`, `getMonth` (0-based) and `getDate` return.
 */
module Dates {
  import opened Wrappers
  import opened Text

  /** What `new Date(s)` yields: calendar fields, or an Invalid Date whose getters are NaN. */
  datatype CalendarDate = Fields(year: int, month0: int, day: int) | InvalidDate

  /** `${year}.${month}.${day}` with month and day padded to two characters. */
  function FormatDate(d: CalendarDate): string
  {
    match d
    case InvalidDate => "NaN.NaN.NaN"
    case Fields(year, month0, day) =>
      IntToString(year) + "." + PadStart2(IntToString(month0 + 1)) + "." + PadStart2(IntToString(day))
  }

  /** `yyyy.mm.dd` with four, two and two decimal digits. */
  predicate MatchesDatePattern(r: string)
  {
    |r| == 10 && AllDigits(r[..4]) && r[4] == '.' && AllDigits(r[5..7]) && r[7] == '.' && AllDigits(r[8..])
  }

  /** padStart(2, '0') on a rendered number adds a zero exactly when the number has one digit. */
  lemma PadNatToString(n: nat)
    ensures PadStart2(NatToString(n)) == if n < 10 then "0" + NatToString(n) else NatToString(n)
  {
    var s := NatToString(n);
    if n < 10 {
      assert PadStart2(s) == PadStart2("0" + s);
    }
  }

  /** A month or day number 1..99 renders as exactly two digits denoting it. */
  lemma TwoDigitPart(n: int)
    requires 1 <= n <= 99
    ensures |PadStart2(IntToString(n))| == 2 && Denotes(PadStart2(IntToString(n)), n)
  {
    assert IntToString(n) == NatToString(n);
    PadNatToString(n);
    if n < 10 {
      var p := ['0', DigitChar(n)];
      assert NatToString(n) == [DigitChar(n)];
      assert PadStart2(IntToString(n)) == p;
      assert p[..1] == ['0'] && ['0'][..0] == [];
      assert DecimalValue(p) == n;
    } else {
      NatToStringRoundTrip(n);
    }
  }

  /** Four-digit years render with four characters. */
  lemma FourDigitYear(y: int)
    requires 1000 <= y <= 9999
    ensures |IntToString(y)| == 4
  {
    assert |NatToString(y / 1000)| == 1;
    assert |NatToString(y / 100)| == |NatToString(y / 1000)| + 1;
    assert |NatToString(y / 10)| == |NatToString(y / 100)| + 1;
  }

  /**
   * For the field ranges the Date getters produce and a non-negative year,
   * the result is the year's digits, a dot, two digits for the 1-based
   * month, a dot and two digits for the day, and each part reads back as
   * the field it came from.
   */
  lemma FormatDateFields(year: int, month0: int, day: int)
    requires year >= 0 && 0 <= month0 <= 11 && 1 <= day <= 31
    ensures LaidOut(FormatDate(Fields(year, month0, day)), |NatToString(year)|, year, month0 + 1, day)
  {
    var y := NatToString(year);
    var m := PadStart2(IntToString(month0 + 1));
    var d := PadStart2(IntToString(day));
    FormatDateJoins(year, month0, day);
    TwoDigitPart(month0 + 1);
    TwoDigitPart(day);
    NatToStringRoundTrip(year);
    LaidOutParts(y, m, d, year, month0 + 1, day);
  }

  lemma FormatDateJoins(year: int, month0: int, day: int)
    requires year >= 0
    ensures FormatDate(Fields(year, month0, day))
            == NatToString(year) + "." + PadStart2(IntToString(month0 + 1)) + "." + PadStart2(IntToString(day))
  {
  }

  /**
   * `r` is laid out as a rendered date: `k` digits denoting the year, a dot,
   * two digits denoting the month, a dot and two digits denoting the day.
   */
  predicate LaidOut(r: string, k: nat, year: nat, month: nat, day: nat)
  {
    && |r| == k + 6 && k > 0
    && Denotes(r[..k], year) && r[k] == '.'
    && Denotes(r[k + 1..k + 3], month) && r[k + 3] == '.'
    && Denotes(r[k + 4..], day)
  }

  /** Joining the three parts with dots lays them out as a date. */
  lemma LaidOutParts(y: string, m: string, d: string, year: nat, month: nat, day: nat)
    requires |y| > 0 && Denotes(y, year)
    requires |m| == 2 && Denotes(m, month)
    requires |d| == 2 && Denotes(d, day)
    ensures LaidOut(y + "." + m + "." + d, |y|, year, month, day)
  {
    var r := y + "." + m + "." + d;
    assert r[..|y|] == y;
    assert r[|y| + 1..|y| + 3] == m;
    assert r[|y| + 4..] == d;
  }

  /** With a four-digit year the result matches `\d{4}\.\d{2}\.\d{2}` and encodes the fields. */
  lemma FormatDatePattern(year: int, month0: int, day: int)
    requires 1000 <= year <= 9999 && 0 <= month0 <= 11 && 1 <= day <= 31
    ensures var r := FormatDate(Fields(year, month0, day));
            && MatchesDatePattern(r)
            && DecimalValue(r[..4]) == year
            && DecimalValue(r[5..7]) == month0 + 1
            && DecimalValue(r[8..]) == day
  {
    FourDigitYear(year);
    FormatDateFields(year, month0, day);
  }

  /**
   * Reads a rendered date back: the digits before the first dot are the
   * year, then two digits of 1-based month, a dot and two digits of day.
   */
  function ParseDate(r: string): Option<CalendarDate>
  {
    match IndexOf(r, ".")
    case None => None
    case Some(k) =>
      var y, rest := r[..k], r[k + 1..];
      if |y| > 0 && AllDigits(y) && |rest| == 5 && rest[2] == '.'
         && AllDigits(rest[..2]) && AllDigits(rest[3..])
      then Some(Fields(DecimalValue(y), DecimalValue(rest[..2]) - 1, DecimalValue(rest[3..])))
      else None
  }

  /** A dot cannot occur inside a run of digits. */
  lemma NoDotInDigits(r: string, k: nat)
    requires k <= |r| && AllDigits(r[..k])
    ensures forall j :: 0 <= j < k ==> !OccursAt(r, ".", j)
  {
    forall j | 0 <= j < k ensures !OccursAt(r, ".", j) {
      assert r[..k][j] == r[j];
      assert r[j..j + 1][0] == r[j];
    }
  }

  /** A string laid out as `digits.dd.dd` reads back as the fields those digits denote. */
  lemma ParseLaidOut(r: string, k: nat, year: nat, month: nat, day: nat)
    requires LaidOut(r, k, year, month, day)
    ensures ParseDate(r) == Some(Fields(year, month - 1, day))
  {
    NoDotInDigits(r, k);
    assert OccursAt(r, ".", k) by { assert r[k..k + 1] == [r[k]]; }
    assert IndexOf(r, ".") == Some(k);
    var rest := r[k + 1..];
    assert rest[..2] == r[k + 1..k + 3];
    assert rest[3..] == r[k + 4..];
  }

  /** Rendering a valid date with a non-negative year and reading it back gives the date. */
  lemma ParseFormatDate(year: int, month0: int, day: int)
    requires year >= 0 && 0 <= month0 <= 11 && 1 <= day <= 31
    ensures ParseDate(FormatDate(Fields(year, month0, day))) == Some(Fields(year, month0, day))
  {
    FormatDateFields(year, month0, day);
    ParseLaidOut(FormatDate(Fields(year, month0, day)), |NatToString(year)|, year, month0 + 1, day);
  }

  /** Distinct valid dates with non-negative years render differently. */
  lemma FormatDateInjective(y1: int, m1: int, d1: int, y2: int, m2: int, d2: int)
    requires y1 >= 0 && 0 <= m1 <= 11 && 1 <= d1 <= 31
    requires y2 >= 0 && 0 <= m2 <= 11 && 1 <= d2 <= 31
    requires FormatDate(Fields(y1, m1, d1)) == FormatDate(Fields(y2, m2, d2))
    ensures y1 == y2 && m1 == m2 && d1 == d2
  {
    ParseFormatDate(y1, m1, d1);
    ParseFormatDate(y2, m2, d2);
  }

  /** 5 March 2024 renders as `2024.03.05`. */
  lemma FormatDateExample()
    ensures FormatDate(Fields(2024, 2, 5)) == "2024.03.05"
  {
    assert NatToString(2024) == "2024" by {
      assert NatToString(2) == "2";
      assert NatToString(20) == "20";
      assert NatToString(202) == "202";
    }
    PadNatToString(3);
    PadNatToString(5);
  }
}
