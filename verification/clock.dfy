/**
 * Times of day. The source parses "HH:mm" strings with
 * `timeStr.split(":").map(Number)` and compares `h + m/60`; this model uses
 * minutes `h*60 + m`, which is 60 times that value and so orders every pair of
 * times the same way.
 */
module Clock {
  import opened Wrappers
  import Text

  predicate IsDigit(c: char)
  {
    '0' <= c <= '9'
  }

  function DigitChar(d: nat): (c: char)
    requires d < 10
    ensures IsDigit(c) && c as int - '0' as int == d
  {
    (('0' as int) + d) as char
  }

  function DigitValue(c: char): (d: nat)
    requires IsDigit(c)
    ensures d < 10 && DigitChar(d) == c
  {
    (c as int) - ('0' as int)
  }

  predicate AllDigits(s: string)
  {
    forall i :: 0 <= i < |s| ==> IsDigit(s[i])
  }

  /** Value of a string of decimal digits; the empty string is 0, as `Number("")` is. */
  function DigitsValue(s: string): nat
    requires AllDigits(s)
  {
    if s == [] then 0 else 10 * DigitsValue(s[..|s| - 1]) + DigitValue(s[|s| - 1])
  }

  /** `Number(piece)` for a piece of a time string; `None` stands for `NaN`. */
  function Number(s: string): Option<nat>
  {
    if AllDigits(s) then Some(DigitsValue(s)) else None
  }

  /**
   * `parseTimeToDecimal` (TimeTableGenerator.js and InputModal.jsx), in
   * minutes. Pieces after the second are ignored; a string without ':' has no
   * minute piece, so the source computes `h + undefined/60`, which is `NaN`.
   */
  function ParseTime(s: string): Option<int>
  {
    var pieces := Text.Split(s, ':');
    if |pieces| < 2 then None
    else
      match (Number(pieces[0]), Number(pieces[1]))
      case (Some(h), Some(m)) => Some(h * 60 + m)
      case _ => None
  }

  /** `parseTimeToDecimal` as TimeTable.jsx has it: an empty string is 0. */
  function ParseTimeOrZero(s: string): Option<int>
  {
    if s == "" then Some(0) else ParseTime(s)
  }

  /** The zero-padded "HH:mm" text that a time input produces. */
  function Format(h: nat, m: nat): (r: string)
    requires h < 100 && m < 100
    ensures |r| == 5 && r[2] == ':' && AllDigits(r[..2]) && AllDigits(r[3..])
  {
    [DigitChar(h / 10), DigitChar(h % 10), ':', DigitChar(m / 10), DigitChar(m % 10)]
  }

  lemma TwoDigits(n: nat)
    requires n < 100
    ensures DigitsValue([DigitChar(n / 10), DigitChar(n % 10)]) == n
  {
    var s := [DigitChar(n / 10), DigitChar(n % 10)];
    assert s[..1] == [DigitChar(n / 10)];
    assert [DigitChar(n / 10)][..0] == [];
    assert DigitsValue(s[..1]) == n / 10;
  }

  /** Both parsers read a formatted time back as its minute count. */
  lemma FormatRoundTrip(h: nat, m: nat)
    requires h < 100 && m < 100
    ensures ParseTime(Format(h, m)) == Some(h * 60 + m)
    ensures ParseTimeOrZero(Format(h, m)) == Some(h * 60 + m)
  {
    var a := [DigitChar(h / 10), DigitChar(h % 10)];
    var b := [DigitChar(m / 10), DigitChar(m % 10)];
    assert Format(h, m) == a + [':'] + b;
    Text.SplitAround(a, b, ':');
    Text.SplitNone(b, ':');
    TwoDigits(h);
    TwoDigits(m);
  }

  /** The two parsers differ only on the empty string: `NaN` against 0. */
  lemma EmptyTime()
    ensures ParseTime("") == None
    ensures ParseTimeOrZero("") == Some(0)
  {
    assert Text.Split("", ':') == [[]];
  }
}
