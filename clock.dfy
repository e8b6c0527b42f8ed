/** The game clock's display (app.js, `formatMMSS`): elapsed milliseconds as
    minutes and seconds, each padded to two digits, separated by a colon. */
module Clock {

  datatype Option<T> = None | Some(value: T)

  predicate IsDigit(c: char)
  {
    '0' <= c <= '9'
  }

  predicate AllDigits(s: string)
  {
    forall k :: 0 <= k < |s| ==> IsDigit(s[k])
  }

  function DigitChar(d: nat): (c: char)
    requires d < 10
    ensures IsDigit(c) && c as int - '0' as int == d
  {
    ('0' as int + d) as char
  }

  /** `String(n)` for a non-negative integer: its decimal digits, with no leading zero. */
  function DigitsOf(n: nat): (s: string)
    ensures |s| >= 1 && AllDigits(s)
    ensures |s| > 1 ==> s[0] != '0'
    ensures n < 10 <==> |s| == 1
  {
    if n < 10 then [DigitChar(n)]
    else
      var prefix := DigitsOf(n / 10);
      assert forall k :: 0 <= k < |prefix| ==> IsDigit(prefix[k]);
      prefix + [DigitChar(n % 10)]
  }

  /** The value of a string of decimal digits. */
  function ParseDigits(s: string): nat
    requires AllDigits(s)
  {
    if |s| == 0 then 0
    else ParseDigits(s[..|s| - 1]) * 10 + (s[|s| - 1] as int - '0' as int)
  }

  /** `s.padStart(n, c)`: `c` prepended until the string is at least `n` long. */
  function PadStart(s: string, n: nat, c: char): (r: string)
    decreases n - |s|
    ensures |r| >= n && |r| >= |s|
  {
    if |s| >= n then s else PadStart([c] + s, n, c)
  }

  /** `formatMMSS`: whole seconds elapsed, as minutes (not wrapped at an hour) and seconds,
      each written in decimal and padded to two digits with `'0'`. */
  function FormatMMSS(ms: nat): (r: string)
    ensures |r| >= 5
  {
    var totalSec := ms / 1000;
    PadStart(DigitsOf(totalSec / 60), 2, '0') + ":" + PadStart(DigitsOf(totalSec % 60), 2, '0')
  }

  /** Reads a clock display back: digits, a colon, and exactly two digits for the seconds,
      giving the whole seconds it shows; None for anything else. */
  function ParseMMSS(r: string): Option<nat>
  {
    if |r| < 4 || r[|r| - 3] != ':' then None
    else
      var mm, ss := r[..|r| - 3], r[|r| - 2..];
      if AllDigits(mm) && AllDigits(ss) && |mm| > 0 then Some(ParseDigits(mm) * 60 + ParseDigits(ss))
      else None
  }

  // ---------------------------------------------------------------------------
  // Properties

  /** Reading the digits of `n` back gives `n`. */
  lemma {:induction false} DigitsRoundTrip(n: nat)
    decreases n
    ensures ParseDigits(DigitsOf(n)) == n
  {
    if n >= 10 {
      DigitsRoundTrip(n / 10);
      var s := DigitsOf(n);
      assert s[..|s| - 1] == DigitsOf(n / 10);
    }
  }

  /** A leading zero does not change the value of a digit string. */
  lemma {:induction false} LeadingZero(s: string)
    requires AllDigits(s)
    decreases |s|
    ensures AllDigits("0" + s) && ParseDigits("0" + s) == ParseDigits(s)
  {
    var z := "0" + s;
    assert forall k :: 0 <= k < |z| ==> IsDigit(z[k]) by {
      forall k | 0 <= k < |z|
        ensures IsDigit(z[k])
      {
        if k > 0 {
          assert z[k] == s[k - 1];
        }
      }
    }
    if |s| > 0 {
      var init := s[..|s| - 1];
      assert z[..|z| - 1] == "0" + init;
      assert AllDigits(init) by {
        forall k | 0 <= k < |init|
          ensures IsDigit(init[k])
        {
          assert init[k] == s[k];
        }
      }
      LeadingZero(init);
    }
  }

  /** Padding with `'0'` keeps a digit string a digit string of the same value, reaches the
      requested length and never shortens the string. */
  lemma {:induction false} PadStartZeros(s: string, n: nat)
    requires AllDigits(s)
    decreases n - |s|
    ensures var r := PadStart(s, n, '0');
      AllDigits(r) && ParseDigits(r) == ParseDigits(s) &&
      |r| == (if |s| >= n then |s| else n) && r[|r| - |s|..] == s
  {
    if |s| < n {
      LeadingZero(s);
      PadStartZeros("0" + s, n);
      var r := PadStart(s, n, '0');
      assert r == PadStart("0" + s, n, '0');
      assert r[|r| - |s|..] == (r[|r| - |s| - 1..])[1..];
    }
  }

  /** A padded field is a digit string of at least two digits showing `n`, and of exactly
      two when `n` is below 100. */
  lemma PaddedField(n: nat)
    ensures var p := PadStart(DigitsOf(n), 2, '0');
      |p| >= 2 && AllDigits(p) && ParseDigits(p) == n && (n < 100 ==> |p| == 2)
  {
    var d := DigitsOf(n);
    DigitsRoundTrip(n);
    PadStartZeros(d, 2);
    if 10 <= n < 100 {
      assert n / 10 < 10;
      assert |DigitsOf(n / 10)| == 1;
    }
  }

  /** The display is `mm:ss`: the seconds field has exactly two digits and is below 60,
      the minutes field has at least two, and together they show the whole seconds of
      `ms`. */
  lemma FormatMMSSShape(ms: nat)
    ensures var r := FormatMMSS(ms);
      var mm, ss := r[..|r| - 3], r[|r| - 2..];
      r[|r| - 3] == ':' && |ss| == 2 && |mm| >= 2 && AllDigits(mm) && AllDigits(ss) &&
      ParseDigits(mm) == ms / 1000 / 60 && ParseDigits(ss) == ms / 1000 % 60 &&
      ParseDigits(ss) < 60 && ParseDigits(mm) * 60 + ParseDigits(ss) == ms / 1000
  {
    var totalSec := ms / 1000;
    PaddedField(totalSec / 60);
    PaddedField(totalSec % 60);
    var mm, ss := PadStart(DigitsOf(totalSec / 60), 2, '0'), PadStart(DigitsOf(totalSec % 60), 2, '0');
    var r := mm + ":" + ss;
    assert FormatMMSS(ms) == r;
    assert r[..|r| - 3] == mm;
    assert r[|r| - 2..] == ss;
  }

  /** Reading the display back gives the whole seconds elapsed. */
  lemma FormatMMSSRoundTrip(ms: nat)
    ensures ParseMMSS(FormatMMSS(ms)) == Some(ms / 1000)
  {
    FormatMMSSShape(ms);
  }

  /** One minute and five seconds show as `01:05`; an hour shows as sixty minutes. */
  lemma FormatMMSSExamples()
    ensures FormatMMSS(65000) == "01:05"
    ensures FormatMMSS(3600999) == "60:00"
  {
    assert DigitsOf(1) == "1" && DigitsOf(5) == "5";
    assert DigitsOf(60) == "60" && DigitsOf(0) == "0";
  }
}
