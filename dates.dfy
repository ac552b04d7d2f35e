/**
 * The two date texts of the batch, built from the clock's year, month (1 to 12) and day:
 * `YYYY-MM-DD` for the shipping date of every output record and `YYYYMMDD` for the
 * name of an archived order file.
 */
module Dates {
  import JsText

  predicate IsDigit(c: char) { '0' <= c <= '9' }

  function DigitChar(d: nat): (c: char)
    requires d < 10
    ensures IsDigit(c)
  {
    (48 + d) as char
  }

  /** `n.toString()` for a natural number: its decimal digits, without leading zeros. */
  function DecimalDigits(n: nat): (s: string)
    ensures |s| >= 1 && forall i :: 0 <= i < |s| ==> IsDigit(s[i])
  {
    if n < 10 then [DigitChar(n)] else DecimalDigits(n / 10) + [DigitChar(n % 10)]
  }

  /** `padStart(2, '0')`: zeros in front up to a length of two. */
  function PadTwo(s: string): (r: string)
    ensures |r| == if |s| >= 2 then |s| else 2
    ensures r[|r| - |s|..] == s
    ensures forall i :: 0 <= i < |r| - |s| ==> r[i] == '0'
  {
    if |s| >= 2 then s else seq(2 - |s|, _ => '0') + s
  }

  /**
   * The `YYYYMMDD` stamp of an archived name: the year, then the month (1 to 12) and the
   * day, each padded to two digits.
   */
  function DateStamp(year: nat, month: nat, day: nat): (r: string)
    ensures forall i :: 0 <= i < |r| ==> IsDigit(r[i])
  {
    var y, m, d := DecimalDigits(year), PadTwo(DecimalDigits(month)), PadTwo(DecimalDigits(day));
    PadTwoValue(DecimalDigits(month));
    PadTwoValue(DecimalDigits(day));
    DigitsAppend(y, m);
    DigitsAppend(y + m, d);
    y + m + d
  }

  predicate IsDash(c: char) { c == '-' }

  /**
   * The `YYYY-MM-DD` shipping date of the output records: the archive stamp of the same
   * day with a `-` after the year and after the month.
   */
  function ShippingDate(year: nat, month: nat, day: nat): (r: string)
    ensures JsText.RemoveWhere(IsDash, r) == DateStamp(year, month, day)
  {
    var y, m, d := DecimalDigits(year), PadTwo(DecimalDigits(month)), PadTwo(DecimalDigits(day));
    PadTwoValue(DecimalDigits(month));
    PadTwoValue(DecimalDigits(day));
    DashesDropped(y, m, d);
    y + "-" + m + "-" + d
  }

  /** Dropping the two dashes between three digit strings joins them. */
  lemma DashesDropped(y: string, m: string, d: string)
    requires forall i :: 0 <= i < |y| ==> IsDigit(y[i])
    requires forall i :: 0 <= i < |m| ==> IsDigit(m[i])
    requires forall i :: 0 <= i < |d| ==> IsDigit(d[i])
    ensures JsText.RemoveWhere(IsDash, y + "-" + m + "-" + d) == y + m + d
  {
    NoDash(y);
    NoDash(m);
    NoDash(d);
    var dash := "-";
    assert JsText.RemoveWhere(IsDash, dash) == [] by {
      assert dash[1..] == [];
    }
    var s1 := y + dash;
    DashDropped(y, dash, y, []);
    var s2 := s1 + m;
    DashDropped(s1, m, y, m);
    var s3 := s2 + dash;
    DashDropped(s2, dash, y + m, []);
    DashDropped(s3, d, y + m, d);
  }

  lemma DashDropped(a: string, b: string, ra: string, rb: string)
    requires JsText.RemoveWhere(IsDash, a) == ra && JsText.RemoveWhere(IsDash, b) == rb
    ensures JsText.RemoveWhere(IsDash, a + b) == ra + rb
  {
    JsText.RemoveWhereAppend(IsDash, a, b);
  }

  lemma DigitsAppend(a: string, b: string)
    requires forall i :: 0 <= i < |a| ==> IsDigit(a[i])
    requires forall i :: 0 <= i < |b| ==> IsDigit(b[i])
    ensures forall i :: 0 <= i < |a + b| ==> IsDigit((a + b)[i])
  {
  }

  lemma NoDash(s: string)
    requires forall i :: 0 <= i < |s| ==> IsDigit(s[i])
    ensures JsText.RemoveWhere(IsDash, s) == s
  {
    JsText.RemoveWhereNone(IsDash, s);
  }

  /** The number a string of decimal digits stands for. */
  function DigitsValue(s: string): nat
    requires forall i :: 0 <= i < |s| ==> IsDigit(s[i])
  {
    if s == [] then 0
    else
      var c := s[|s| - 1];
      assert IsDigit(c);
      10 * DigitsValue(s[..|s| - 1]) + (c as int - '0' as int)
  }

  /** Reading the digits back gives the number. */
  lemma {:induction false} DecimalDigitsValue(n: nat)
    ensures DigitsValue(DecimalDigits(n)) == n
  {
    if n >= 10 {
      var s := DecimalDigits(n);
      assert s[..|s| - 1] == DecimalDigits(n / 10);
      DecimalDigitsValue(n / 10);
    }
  }

  lemma {:induction false} DecimalDigitsLength(n: nat, k: nat)
    requires k >= 1
    ensures n < Power10(k) ==> |DecimalDigits(n)| <= k
    ensures Power10(k - 1) <= n ==> |DecimalDigits(n)| >= k
  {
    if k > 1 {
      DecimalDigitsLength(n / 10, k - 1);
    }
  }

  function Power10(k: nat): (r: nat)
    ensures r >= 1
  {
    if k == 0 then 1 else 10 * Power10(k - 1)
  }

  /** A leading zero does not change the value. */
  lemma {:induction false} LeadingZero(s: string)
    requires forall i :: 0 <= i < |s| ==> IsDigit(s[i])
    ensures DigitsValue("0" + s) == DigitsValue(s)
  {
    if s != [] {
      assert ("0" + s)[..|s|] == "0" + s[..|s| - 1];
      LeadingZero(s[..|s| - 1]);
    }
  }

  lemma PadTwoValue(s: string)
    requires forall i :: 0 <= i < |s| ==> IsDigit(s[i])
    ensures forall i :: 0 <= i < |PadTwo(s)| ==> IsDigit(PadTwo(s)[i])
    ensures DigitsValue(PadTwo(s)) == DigitsValue(s)
  {
    if |s| == 1 {
      assert PadTwo(s) == "0" + s;
      LeadingZero(s);
    } else if s == [] {
      assert PadTwo(s) == "0" + "0";
      LeadingZero("0");
      LeadingZero(s);
    }
  }

  /**
   * For a four-digit year and a calendar month and day the stamp is eight digits, from
   * which the year, the month and the day read back; it holds no `.` or `/`, the two
   * characters that would move the extension of an archived name.
   */
  lemma DateStampFields(year: nat, month: nat, day: nat)
    requires 1000 <= year <= 9999 && 1 <= month <= 12 && 1 <= day <= 31
    ensures var r := DateStamp(year, month, day);
            && |r| == 8
            && (forall i :: 0 <= i < 8 ==> IsDigit(r[i]))
            && DigitsValue(r[..4]) == year && DigitsValue(r[4..6]) == month && DigitsValue(r[6..]) == day
            && '.' !in r && '/' !in r
  {
    var y, m, d := DecimalDigits(year), PadTwo(DecimalDigits(month)), PadTwo(DecimalDigits(day));
    YearField(year);
    TwoDigitField(month);
    TwoDigitField(day);
    var r := DateStamp(year, month, day);
    assert r == y + m + d;
    assert r[..4] == y && r[4..6] == m && r[6..] == d;
    forall i | 0 <= i < 8 ensures IsDigit(r[i]) {
      if i < 4 {
        assert r[i] == y[i];
      } else if i < 6 {
        assert r[i] == m[i - 4];
      } else {
        assert r[i] == d[i - 6];
      }
    }
  }

  /** A four-digit year is written with four digits. */
  lemma YearField(year: nat)
    requires 1000 <= year <= 9999
    ensures |DecimalDigits(year)| == 4 && DigitsValue(DecimalDigits(year)) == year
  {
    assert Power10(4) == 10000 && Power10(3) == 1000;
    DecimalDigitsLength(year, 4);
    DecimalDigitsValue(year);
  }

  /** A month or a day is written with two digits once padded. */
  lemma TwoDigitField(n: nat)
    requires 1 <= n <= 99
    ensures var p := PadTwo(DecimalDigits(n));
            |p| == 2 && (forall i :: 0 <= i < 2 ==> IsDigit(p[i])) && DigitsValue(p) == n
  {
    assert Power10(2) == 100;
    DecimalDigitsLength(n, 2);
    DecimalDigitsValue(n);
    PadTwoValue(DecimalDigits(n));
  }

  /**
   * For a four-digit year and a calendar month and day the shipping date is ten
   * characters: the year, the month and the day read back from the digits at 0-3, 5-6
   * and 8-9, with `-` at 4 and 7.
   */
  lemma ShippingDateFields(year: nat, month: nat, day: nat)
    requires 1000 <= year <= 9999 && 1 <= month <= 12 && 1 <= day <= 31
    ensures var r := ShippingDate(year, month, day);
            && |r| == 10 && r[4] == '-' && r[7] == '-'
            && (forall i :: 0 <= i < 10 && i != 4 && i != 7 ==> IsDigit(r[i]))
            && DigitsValue(r[..4]) == year && DigitsValue(r[5..7]) == month && DigitsValue(r[8..]) == day
  {
    var y, m, d := DecimalDigits(year), PadTwo(DecimalDigits(month)), PadTwo(DecimalDigits(day));
    YearField(year);
    TwoDigitField(month);
    TwoDigitField(day);
    var r := ShippingDate(year, month, day);
    assert r == y + "-" + m + "-" + d;
    assert r[..4] == y && r[5..7] == m && r[8..] == d;
    forall i | 0 <= i < 10 && i != 4 && i != 7 ensures IsDigit(r[i]) {
      if i < 4 {
        assert r[i] == y[i];
      } else if i < 7 {
        assert r[i] == m[i - 5];
      } else {
        assert r[i] == d[i - 8];
      }
    }
  }
}
