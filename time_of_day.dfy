/**
 * Times of day as the attendance handlers see them: the text `HH:MM:SS`
 * that `toTimeString().split(" ")[0]` produces and that the `in_time` and
 * `out_time` columns give back, and the number of seconds since midnight
 * that `new Date("1970-01-01T" + text)` stands for.
 */
module TimeOfDay {
  import opened Wrappers

  const SecondsPerDay: nat := 86400

  predicate IsDigit(c: char) {
    '0' <= c <= '9'
  }

  function DigitValue(c: char): (n: nat)
    requires IsDigit(c)
    ensures n < 10
  {
    c as int - '0' as int
  }

  function DigitChar(n: nat): (c: char)
    requires n < 10
    ensures IsDigit(c) && DigitValue(c) == n
  {
    ('0' as int + n) as char
  }

  /** A number below 100 written with two digits, zero-padded on the left. */
  function Pad2(n: nat): (s: string)
    requires n < 100
    ensures |s| == 2 && IsDigit(s[0]) && IsDigit(s[1])
    ensures 10 * DigitValue(s[0]) + DigitValue(s[1]) == n
  {
    [DigitChar(n / 10), DigitChar(n % 10)]
  }

  /** The value of a two-digit field, if both characters are digits. */
  function Field(hi: char, lo: char): (r: Option<nat>)
    ensures r.Some? <==> IsDigit(hi) && IsDigit(lo)
    ensures r.Some? ==> r.value < 100 && DigitChar(r.value / 10) == hi && DigitChar(r.value % 10) == lo
  {
    if IsDigit(hi) && IsDigit(lo) then Some(10 * DigitValue(hi) + DigitValue(lo)) else None
  }

  /** The `HH:MM:SS` text of a time of day given in seconds since midnight. */
  function Format(t: nat): (s: string)
    requires t < SecondsPerDay
    ensures |s| == 8 && s[2] == ':' && s[5] == ':'
  {
    var h, m, sec := t / 3600, t / 60 % 60, t % 60;
    [DigitChar(h / 10), DigitChar(h % 10), ':', DigitChar(m / 10), DigitChar(m % 10), ':',
     DigitChar(sec / 10), DigitChar(sec % 10)]
  }

  /**
   * Seconds since midnight of an `HH:MM:SS` text with hours below 24 and
   * minutes and seconds below 60; None for any other text (where the
   * JavaScript date is invalid).
   */
  function Parse(s: string): (r: Option<nat>)
    ensures r.Some? ==> r.value < SecondsPerDay
  {
    if |s| != 8 || s[2] != ':' || s[5] != ':' then None
    else
      var h, m, sec := Field(s[0], s[1]), Field(s[3], s[4]), Field(s[6], s[7]);
      if h.Some? && m.Some? && sec.Some? && h.value < 24 && m.value < 60 && sec.value < 60
      then Some(3600 * h.value + 60 * m.value + sec.value)
      else None
  }

  /** Hours, minutes and seconds are the digits of a second count in bases 3600 and 60. */
  lemma TimeFields(h: nat, m: nat, sec: nat)
    requires h < 24 && m < 60 && sec < 60
    ensures var t := 3600 * h + 60 * m + sec;
      t < SecondsPerDay && t / 3600 == h && t / 60 % 60 == m && t % 60 == sec
  {
    var t := 3600 * h + 60 * m + sec;
    assert t / 60 == 60 * h + m;
    assert (60 * h + m) / 60 == h && (60 * h + m) % 60 == m;
  }

  lemma TimeSplit(t: nat)
    requires t < SecondsPerDay
    ensures t / 3600 < 24 && t / 60 % 60 < 60 && 3600 * (t / 3600) + 60 * (t / 60 % 60) + t % 60 == t
  {
    var q := t / 60;
    assert t == 60 * q + t % 60;
    assert q == 60 * (q / 60) + q % 60;
    assert q / 60 == t / 3600;
  }

  /** Every time of day the clock can give reads back as itself. */
  lemma ParseFormat(t: nat)
    requires t < SecondsPerDay
    ensures Parse(Format(t)) == Some(t)
  {
    var s := Format(t);
    var h, m, sec := t / 3600, t / 60 % 60, t % 60;
    TimeSplit(t);
    assert Field(s[0], s[1]) == Some(h);
    assert Field(s[3], s[4]) == Some(m);
    assert Field(s[6], s[7]) == Some(sec);
  }

  /** Every text that reads as a time of day is the one the clock writes for it. */
  lemma FormatParse(s: string)
    requires Parse(s).Some?
    ensures Format(Parse(s).value) == s
  {
    var h := Field(s[0], s[1]).value;
    var m := Field(s[3], s[4]).value;
    var sec := Field(s[6], s[7]).value;
    TimeFields(h, m, sec);
    var f := Format(3600 * h + 60 * m + sec);
    assert forall i | 0 <= i < 8 :: f[i] == s[i];
  }
}
