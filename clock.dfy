/**
 * The countdown text of the update scheduler (backend/update_all_data.py):
 * a whole number of seconds written as `HH:MM:SS` with Python's floor
 * division and modulo and the `02d` format.
 */
module Clock {

  function DigitChar(d: nat): char
    requires d < 10
  {
    ('0' as int + d) as char
  }

  /** `str(n)` for a natural number. */
  function Digits(n: nat): string
    decreases n
  {
    if n < 10 then [DigitChar(n)] else Digits(n / 10) + [DigitChar(n % 10)]
  }

  /**
   * `f"{n:02d}"`: zero-padded to two characters; a negative number keeps
   * its sign and is not padded further.
   */
  function Pad2(n: int): string {
    if n < 0 then "-" + Digits(-n)
    else if n < 10 then "0" + Digits(n)
    else Digits(n)
  }

  /** `format_time(seconds)` */
  function FormatTime(seconds: int): string {
    var hours := seconds / 3600;
    var minutes := (seconds % 3600) / 60;
    var secs := seconds % 60;
    Pad2(hours) + ":" + Pad2(minutes) + ":" + Pad2(secs)
  }

  /** The value of a string of decimal digits. */
  function DigitsValue(s: string): int
    decreases |s|
  {
    if |s| == 0 then 0 else DigitsValue(s[..|s| - 1]) * 10 + (s[|s| - 1] as int - '0' as int)
  }

  /** The value of a possibly signed decimal number. */
  function SignedValue(s: string): int {
    if |s| > 0 && s[0] == '-' then -DigitsValue(s[1..]) else DigitsValue(s)
  }

  /** Reading `HH:MM:SS` back as seconds: the two last fields are two characters each. */
  function ParseClock(t: string): int {
    if |t| < 6 then 0
    else SignedValue(t[..|t| - 6]) * 3600 + DigitsValue(t[|t| - 5..|t| - 3]) * 60 + DigitsValue(t[|t| - 2..])
  }

  lemma {:induction false} DigitsRoundTrip(n: nat)
    ensures DigitsValue(Digits(n)) == n
    ensures |Digits(n)| > 0 && Digits(n)[0] != '-'
    ensures n < 10 ==> |Digits(n)| == 1
    decreases n
  {
    if n >= 10 {
      DigitsRoundTrip(n / 10);
      var d := Digits(n);
      assert d[..|d| - 1] == Digits(n / 10);
    }
  }

  lemma Pad2RoundTrip(n: int)
    ensures SignedValue(Pad2(n)) == n
    ensures 0 <= n < 100 ==> |Pad2(n)| == 2
    ensures |Pad2(n)| > 0 && (n >= 0 ==> Pad2(n)[0] != '-')
  {
    if n < 0 {
      DigitsRoundTrip(-n);
      assert Pad2(n)[1..] == Digits(-n);
    } else if n < 10 {
      DigitsRoundTrip(n);
      var p := Pad2(n);
      assert p[..|p| - 1] == "0";
      assert DigitsValue("0") == 0 by { assert "0"[..0] == ""; }
    } else {
      DigitsRoundTrip(n);
      if n >= 10 {
        DigitsRoundTrip(n / 10);
        assert Digits(n)[0] == Digits(n / 10)[0];
        if n < 100 {
          assert |Digits(n / 10)| == 1;
        }
      }
    }
  }

  /**
   * The three fields are the floor of the hours, and minutes and seconds in
   * 0..59, and together make up the input: `hours*3600 + minutes*60 + secs`.
   */
  lemma FormatTimeFields(seconds: int)
    ensures var hours, minutes, secs := seconds / 3600, (seconds % 3600) / 60, seconds % 60;
      && 0 <= minutes < 60 && 0 <= secs < 60
      && hours * 3600 + minutes * 60 + secs == seconds
      && (seconds >= 0 ==> hours >= 0)
  {
    var r := seconds % 3600;
    assert r == (r / 60) * 60 + r % 60;
    assert r % 60 == seconds % 60 by {
      assert seconds == (seconds / 3600) * 3600 + r;
      assert seconds == ((seconds / 3600) * 60 + r / 60) * 60 + r % 60;
    }
  }

  /** The countdown text can be read back as the number of seconds it shows, negative ones included. */
  lemma FormatTimeRoundTrip(seconds: int)
    ensures ParseClock(FormatTime(seconds)) == seconds
  {
    var hours, minutes, secs := seconds / 3600, (seconds % 3600) / 60, seconds % 60;
    FormatTimeFields(seconds);
    Pad2RoundTrip(hours);
    Pad2RoundTrip(minutes);
    Pad2RoundTrip(secs);
    var h, m, s := Pad2(hours), Pad2(minutes), Pad2(secs);
    var t := FormatTime(seconds);
    assert t == h + ":" + m + ":" + s;
    assert t[..|t| - 6] == h;
    assert t[|t| - 5..|t| - 3] == m;
    assert t[|t| - 2..] == s;
    assert m[0] != '-' && s[0] != '-';
  }

  /** Under a hundred hours the text has the fixed `HH:MM:SS` shape. */
  lemma FormatTimeWidth(seconds: int)
    requires 0 <= seconds < 100 * 3600
    ensures |FormatTime(seconds)| == 8
    ensures FormatTime(seconds)[2] == ':' && FormatTime(seconds)[5] == ':'
  {
    FormatTimeFields(seconds);
    Pad2RoundTrip(seconds / 3600);
    Pad2RoundTrip((seconds % 3600) / 60);
    Pad2RoundTrip(seconds % 60);
  }

  /** The scheduler's two-hour interval reads `02:00:00`; a hundred hours need three digits. */
  lemma FormatTimeExamples()
    ensures FormatTime(2 * 60 * 60) == "02:00:00"
    ensures FormatTime(100 * 3600) == "100:00:00"
  {
    assert Pad2(0) == "00" && Pad2(2) == "02";
    assert FormatTime(7200) == Pad2(2) + ":" + Pad2(0) + ":" + Pad2(0);
    assert Pad2(100) == "100" by {
      assert Digits(1) == "1" && Digits(0) == "0";
      assert Digits(10) == Digits(1) + ['0'];
      assert Digits(100) == Digits(10) + ['0'];
    }
    assert FormatTime(360000) == Pad2(100) + ":" + Pad2(0) + ":" + Pad2(0);
  }
}
