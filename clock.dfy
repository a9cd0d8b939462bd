/**
 * The study timer's text (app.js:92-96): whole minutes and the remaining seconds,
 * each written in decimal and left-padded with `0` to two characters, joined by `:`.
 */
module Clock {
  import opened Wrappers

  /** A decimal digit character. */
  predicate IsDigit(c: char)
  {
    '0' <= c <= '9'
  }

  /** The character of a digit value. */
  function DigitChar(d: nat): (c: char)
    requires d < 10
    ensures IsDigit(c) && c as int - '0' as int == d
  {
    ('0' as int + d) as char
  }

  /** `n.toString()` for a non-negative integer: its decimal digits, no leading zero. */
  function Decimal(n: nat): (ds: string)
    ensures 1 <= |ds|
  {
    if n < 10 then [DigitChar(n)] else Decimal(n / 10) + [DigitChar(n % 10)]
  }

  /** Every character of a string is a digit. */
  predicate AllDigits(s: string)
  {
    forall i :: 0 <= i < |s| ==> IsDigit(s[i])
  }

  /** The number a string of digits stands for, most significant first. */
  function Value(s: string): nat
    requires AllDigits(s)
  {
    if s == [] then 0 else Value(s[..|s| - 1]) * 10 + (s[|s| - 1] as int - '0' as int)
  }

  /** `s.padStart(2, '0')`: zeros in front until the text is two characters long. */
  function Pad2(s: string): (r: string)
    ensures |r| == if |s| < 2 then 2 else |s|
    decreases 2 - |s|
  {
    if |s| < 2 then Pad2(['0'] + s) else s
  }

  /** The text of `updateTimerDisplay` for `seconds` seconds of study. */
  function TimerText(seconds: nat): string
  {
    Pad2(Decimal(seconds / 60)) + [':'] + Pad2(Decimal(seconds % 60))
  }

  /** `Decimal` writes digits only, and they stand for the number. */
  lemma {:induction false} DecimalValue(n: nat)
    ensures AllDigits(Decimal(n))
    ensures Value(Decimal(n)) == n
  {
    if n >= 10 {
      DecimalValue(n / 10);
      var ds := Decimal(n);
      assert ds[..|ds| - 1] == Decimal(n / 10);
    }
  }

  /** `Decimal` writes no leading zero, and it is as short as the number allows: a
      single digit below ten, more digits from ten on. */
  lemma {:induction false} DecimalNoLeadingZero(n: nat)
    ensures Decimal(n)[0] != '0' || n == 0
    ensures |Decimal(n)| == 1 <==> n < 10
  {
    if n >= 10 {
      DecimalNoLeadingZero(n / 10);
      assert Decimal(n)[0] == Decimal(n / 10)[0];
    }
  }

  /** A value of a leading zero is the value without it. */
  lemma {:induction false} ValueLeadingZero(s: string)
    requires AllDigits(s)
    ensures AllDigits(['0'] + s) && Value(['0'] + s) == Value(s)
  {
    if s != [] {
      var z := ['0'] + s;
      assert z[..|z| - 1] == ['0'] + s[..|s| - 1];
      ValueLeadingZero(s[..|s| - 1]);
    }
  }

  /** Padding keeps the digits and their value. */
  lemma {:induction false} Pad2Value(s: string)
    requires AllDigits(s)
    ensures AllDigits(Pad2(s)) && Value(Pad2(s)) == Value(s)
    decreases 2 - |s|
  {
    if |s| < 2 {
      ValueLeadingZero(s);
      Pad2Value(['0'] + s);
    }
  }

  /** Reads back the minutes and seconds of a timer text: the digits before the
      last `:` and the two digits after it. */
  function ParseTimerText(text: string): (r: Option<(nat, nat)>)
    ensures r.Some? ==> r.value.1 < 100
  {
    if |text| >= 5 && text[|text| - 3] == ':' then
      var mm := text[..|text| - 3];
      var ss := text[|text| - 2..];
      if AllDigits(mm) && AllDigits(ss) then
        assert Value(ss) == Value(ss[..1]) * 10 + Value(ss[1..]) by {
          assert ss[..1][..0] == [] && ss[..|ss| - 1] == ss[..1];
        }
        Some((Value(mm), Value(ss)))
      else None
    else None
  }

  /** The timer text reads back as the whole minutes and the remaining seconds. */
  lemma TimerTextRoundTrip(seconds: nat)
    ensures ParseTimerText(TimerText(seconds)) == Some((seconds / 60, seconds % 60))
  {
    var m := Pad2(Decimal(seconds / 60));
    var s := Pad2(Decimal(seconds % 60));
    var text := m + [':'] + s;
    assert |s| == 2 by {
      DecimalNoLeadingZero(seconds % 60);
    }
    DecimalValue(seconds / 60);
    DecimalValue(seconds % 60);
    Pad2Value(Decimal(seconds / 60));
    Pad2Value(Decimal(seconds % 60));
    assert text[..|text| - 3] == m;
    assert text[|text| - 2..] == s;
  }

  /** The seconds part is always two digits from `00` to `59`, after a `:`. */
  lemma TimerTextSeconds(seconds: nat)
    ensures var text := TimerText(seconds);
      |text| >= 5 && text[|text| - 3] == ':' &&
      AllDigits(text[|text| - 2..]) && Value(text[|text| - 2..]) < 60
  {
    TimerTextRoundTrip(seconds);
  }

  /** Different second counts give different texts. */
  lemma TimerTextInjective(a: nat, b: nat)
    requires TimerText(a) == TimerText(b)
    ensures a == b
  {
    TimerTextRoundTrip(a);
    TimerTextRoundTrip(b);
  }

}
