/**
 * The full-date form of section 5.6 of RFC 3339, "YYYY-MM-DD": the format the
 * daily tracker parses with strptime("%Y-%m-%d") and the form str(date) takes
 * in the redirect after a tracker update.
 */
module IsoDate {
  import opened Dates
  import opened Wrappers

  predicate IsDigit(c: char) {
    '0' <= c <= '9'
  }

  predicate AllDigits(s: seq<char>) {
    forall i :: 0 <= i < |s| ==> IsDigit(s[i])
  }

  function Pow10(n: nat): (p: nat)
    ensures p >= 1
  {
    if n == 0 then 1 else 10 * Pow10(n - 1)
  }

  /** The value of a string of decimal digits. */
  function Number(s: seq<char>): nat
    requires AllDigits(s)
  {
    if s == [] then 0
    else Number(s[..|s| - 1]) * 10 + (s[|s| - 1] as int - '0' as int)
  }

  /** n written with exactly `width` decimal digits, zero-padded on the left. */
  function Digits(n: nat, width: nat): (s: seq<char>)
    ensures |s| == width && AllDigits(s)
  {
    if width == 0 then []
    else Digits(n / 10, width - 1) + [('0' as int + n % 10) as char]
  }

  /** Reading back a padded number that fits in its width gives the number. */
  lemma {:induction false} NumberOfDigits(n: nat, width: nat)
    requires n < Pow10(width)
    ensures Number(Digits(n, width)) == n
  {
    if width > 0 {
      var s := Digits(n, width);
      assert s[..|s| - 1] == Digits(n / 10, width - 1);
      NumberOfDigits(n / 10, width - 1);
    }
  }

  /** Padding the value of a digit string to its own length gives the string back. */
  lemma {:induction false} DigitsOfNumber(s: seq<char>)
    requires AllDigits(s)
    ensures Digits(Number(s), |s|) == s
    ensures Number(s) < Pow10(|s|)
  {
    if s != [] {
      var init := s[..|s| - 1];
      DigitsOfNumber(init);
      var n := Number(s);
      var c := s[|s| - 1] as int - '0' as int;
      assert n == Number(init) * 10 + c;
      assert n / 10 == Number(init) && n % 10 == c;
      assert s == init + [s[|s| - 1]];
    }
  }

  /**
   * strptime(s, "%Y-%m-%d").date() in its strict 4-2-2 digit form: None
   * where Python raises ValueError (wrong shape, year 0, month outside 1..12,
   * day outside the month).
   */
  function Parse(s: seq<char>): (r: Option<Date>)
    ensures r.Some? ==> IsValid(r.value) && 1 <= r.value.year <= 9999
  {
    if |s| == 10 && s[4] == '-' && s[7] == '-'
       && AllDigits(s[0..4]) && AllDigits(s[5..7]) && AllDigits(s[8..10])
    then
      var y, m, d := Number(s[0..4]), Number(s[5..7]), Number(s[8..10]);
      DigitsOfNumber(s[0..4]);
      if 1 <= y && 1 <= m <= 12 && 1 <= d <= DaysInMonth(y, m) then Some(Date(y, m, d))
      else None
    else None
  }

  /** The printed form of a date: four-digit year, two-digit month, two-digit day, joined by hyphens. */
  function Format(d: Date): (s: seq<char>)
    requires IsValid(d) && 1 <= d.year <= 9999
    ensures |s| == 10
  {
    Digits(d.year, 4) + "-" + Digits(d.month, 2) + "-" + Digits(d.day, 2)
  }

  /** Every date Python can represent survives formatting and parsing. */
  lemma ParseFormat(d: Date)
    requires IsValid(d) && 1 <= d.year <= 9999
    ensures Parse(Format(d)) == Some(d)
  {
    var s := Format(d);
    assert s[0..4] == Digits(d.year, 4);
    assert s[5..7] == Digits(d.month, 2);
    assert s[8..10] == Digits(d.day, 2);
    NumberOfDigits(d.year, 4);
    NumberOfDigits(d.month, 2);
    NumberOfDigits(d.day, 2);
  }

  /** The parser accepts only canonical strings: what it accepts is the format of what it returns. */
  lemma FormatParse(s: seq<char>)
    requires Parse(s).Some?
    ensures Format(Parse(s).value) == s
  {
    DigitsOfNumber(s[0..4]);
    DigitsOfNumber(s[5..7]);
    DigitsOfNumber(s[8..10]);
    assert s == s[0..4] + "-" + s[5..7] + "-" + s[8..10];
  }
}
