/**
  The two counters shown in the header: the bombs-minus-flags counter and
  the remaining time, as zero-padded decimal strings. `DigitsValue` and
  `SignedValue` read such strings back and serve as the reference the
  display functions are checked against.
 */
module Display {

  predicate IsDigit(c: char)
  {
    '0' <= c <= '9'
  }

  function Digit(d: int): (c: char)
    requires 0 <= d < 10
  {
    ('0' as int + d) as char
  }

  /** Decimal text of a non-negative number, as `Number.prototype.toString` writes it. */
  function NatToString(n: nat): (s: string)
    ensures |s| >= 1
    ensures AllDigits(s)
    ensures |s| > 1 ==> s[0] != '0'
    ensures n < 10 ==> |s| == 1
    ensures 10 <= n ==> |s| == |NatToString(n / 10)| + 1
    decreases n
  {
    if n < 10 then [Digit(n)] else NatToString(n / 10) + [Digit(n % 10)]
  }

  /** Decimal text of any integer: a '-' before the digits of a negative number. */
  function IntToString(n: int): string
  {
    if n < 0 then "-" + NatToString(-n) else NatToString(n)
  }

  /** `String.prototype.padStart` with a one-character fill. */
  function PadStart(s: string, width: nat, fill: char): (r: string)
    ensures |r| == if |s| < width then width else |s|
    ensures r[|r| - |s|..] == s
    ensures forall k :: 0 <= k < |r| - |s| ==> r[k] == fill
  {
    if |s| < width then seq(width - |s|, _ => fill) + s else s
  }

  /** The bombs-minus-flags counter: "-" and two digits when negative, three digits otherwise. */
  function DiffBombsFlags(bombs: int, flags: int): (r: string)
    ensures |r| >= 3
  {
    var diff := bombs - flags;
    if diff < 0 then "-" + PadStart(NatToString(-diff), 2, '0')
    else PadStart(NatToString(diff), 3, '0')
  }

  /** The remaining time, padded to three characters. */
  function GameTime(time: int): (r: string)
    ensures |r| >= 3
  {
    PadStart(IntToString(time), 3, '0')
  }

  /** The number a string of decimal digits denotes, leading zeros allowed. */
  function DigitsValue(s: string): nat
  {
    if s == [] then 0
    else DigitsValue(s[..|s| - 1]) * 10 + (if IsDigit(s[|s| - 1]) then s[|s| - 1] as int - '0' as int else 0)
  }

  /** Reads a counter back: an optional leading '-' followed by decimal digits. */
  function SignedValue(s: string): int
  {
    if |s| > 0 && s[0] == '-' then -(DigitsValue(s[1..]) as int) else DigitsValue(s)
  }

  lemma {:induction false} DigitsRoundTrip(n: nat)
    ensures DigitsValue(NatToString(n)) == n
    decreases n
  {
    if n >= 10 {
      DigitsRoundTrip(n / 10);
      var s := NatToString(n);
      assert s[..|s| - 1] == NatToString(n / 10);
    }
  }

  lemma {:induction false} ZerosValue(z: nat)
    ensures DigitsValue(seq(z, _ => '0')) == 0
  {
    if z > 0 {
      ZerosValue(z - 1);
      assert seq(z, _ => '0')[..z - 1] == seq(z - 1, _ => '0');
    }
  }

  /** Zeros put in front of a digit string do not change the number it denotes. */
  lemma {:induction false} LeadingZerosValue(z: nat, s: string)
    ensures DigitsValue(seq(z, _ => '0') + s) == DigitsValue(s)
    decreases |s|
  {
    var zs := seq(z, _ => '0');
    if s == [] {
      assert zs + s == zs;
      ZerosValue(z);
    } else {
      LeadingZerosValue(z, s[..|s| - 1]);
      assert (zs + s)[..|zs + s| - 1] == zs + s[..|s| - 1];
    }
  }

  lemma PaddedValue(s: string, width: nat)
    ensures DigitsValue(PadStart(s, width, '0')) == DigitsValue(s)
  {
    if |s| < width {
      LeadingZerosValue(width - |s|, s);
    }
  }

  lemma PaddedDigits(s: string, width: nat)
    requires AllDigits(s)
    ensures AllDigits(PadStart(s, width, '0'))
  {
    var r := PadStart(s, width, '0');
    forall k | 0 <= k < |r|
      ensures IsDigit(r[k])
    {
      if k >= |r| - |s| {
        assert r[k] == r[|r| - |s|..][k - (|r| - |s|)];
      }
    }
  }

  lemma {:induction false} ShortNumbers(n: nat)
    ensures n < 100 ==> |NatToString(n)| <= 2
    ensures n < 1000 ==> |NatToString(n)| <= 3
  {
    if n >= 10 {
      ShortNumbers(n / 10);
    }
  }

  /** Every character of `s` is a decimal digit. */
  predicate AllDigits(s: string)
  {
    forall k :: 0 <= k < |s| ==> IsDigit(s[k])
  }

  /** A negative counter is '-' followed by its magnitude, zero-padded to two digits. */
  lemma NegativeCounter(bombs: int, flags: int)
    requires bombs < flags
    ensures DiffBombsFlags(bombs, flags)[0] == '-' && AllDigits(DiffBombsFlags(bombs, flags)[1..])
    ensures SignedValue(DiffBombsFlags(bombs, flags)) == bombs - flags
    ensures bombs - flags >= -99 ==> |DiffBombsFlags(bombs, flags)| == 3
  {
    var magnitude: nat := flags - bombs;
    var digits := PadStart(NatToString(magnitude), 2, '0');
    var text := "-" + digits;
    assert DiffBombsFlags(bombs, flags) == text;
    assert text[1..] == digits;
    assert AllDigits(digits) by {
      PaddedDigits(NatToString(magnitude), 2);
    }
    assert DigitsValue(digits) == magnitude by {
      DigitsRoundTrip(magnitude);
      PaddedValue(NatToString(magnitude), 2);
    }
    assert magnitude <= 99 ==> |digits| == 2 by {
      ShortNumbers(magnitude);
    }
  }

  /** A counter that is not negative is its value zero-padded to three digits. */
  lemma NonNegativeCounter(bombs: int, flags: int)
    requires bombs >= flags
    ensures AllDigits(DiffBombsFlags(bombs, flags))
    ensures SignedValue(DiffBombsFlags(bombs, flags)) == bombs - flags
    ensures bombs - flags <= 999 ==> |DiffBombsFlags(bombs, flags)| == 3
  {
    var n: nat := bombs - flags;
    var text := PadStart(NatToString(n), 3, '0');
    assert DiffBombsFlags(bombs, flags) == text;
    assert AllDigits(text) by {
      PaddedDigits(NatToString(n), 3);
    }
    assert DigitsValue(text) == n by {
      DigitsRoundTrip(n);
      PaddedValue(NatToString(n), 3);
    }
    assert IsDigit(text[0]);
    assert n <= 999 ==> |text| == 3 by {
      ShortNumbers(n);
    }
  }

  /**
    The counter reads back as `bombs - flags`: a '-' and digits when flags
    outnumber bombs, digits only otherwise, and exactly three characters
    for every difference from -99 to 999.
   */
  lemma DiffBombsFlagsRoundTrip(bombs: int, flags: int)
    ensures SignedValue(DiffBombsFlags(bombs, flags)) == bombs - flags
    ensures bombs < flags ==> DiffBombsFlags(bombs, flags)[0] == '-' && AllDigits(DiffBombsFlags(bombs, flags)[1..])
    ensures bombs >= flags ==> AllDigits(DiffBombsFlags(bombs, flags))
    ensures -99 <= bombs - flags <= 999 ==> |DiffBombsFlags(bombs, flags)| == 3
  {
    if bombs < flags {
      NegativeCounter(bombs, flags);
    } else {
      NonNegativeCounter(bombs, flags);
    }
  }

  /** The time display is all digits, reads back as the time and is three characters wide up to 999. */
  lemma GameTimeRoundTrip(time: int)
    requires time >= 0
    ensures DigitsValue(GameTime(time)) == time
    ensures AllDigits(GameTime(time))
    ensures time <= 999 ==> |GameTime(time)| == 3
  {
    DigitsRoundTrip(time);
    PaddedValue(NatToString(time), 3);
    PaddedDigits(NatToString(time), 3);
    ShortNumbers(time);
  }
}
