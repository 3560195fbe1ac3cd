/** Decimal rendering of integers as Python's f-strings produce it
    (`f"{n}"` and `f"{n:0w}"`), and reading such text back. */
module Decimal {
  import opened Wrappers

  predicate IsDigit(c: char) {
    '0' <= c <= '9'
  }

  predicate AllDigits(s: string) {
    forall k :: 0 <= k < |s| ==> IsDigit(s[k])
  }

  function DigitChar(d: nat): (c: char)
    requires d < 10
    ensures IsDigit(c) && (c as int) - ('0' as int) == d
  {
    (('0' as int) + d) as char
  }

  /** The number a string of decimal digits denotes, most significant first. */
  function DigitsValue(s: string): nat
    requires AllDigits(s)
  {
    if |s| == 0 then 0
    else DigitsValue(s[..|s| - 1]) * 10 + ((s[|s| - 1] as int) - ('0' as int))
  }

  /** `f"{n}"` for a non-negative integer: its shortest decimal digits. */
  function NatToString(n: nat): (r: string)
    ensures |r| >= 1
  {
    if n < 10 then [DigitChar(n)] else NatToString(n / 10) + [DigitChar(n % 10)]
  }

  /** `f"{n}"` is all digits, has no leading zero unless `n` is zero, and
      denotes `n`. */
  lemma {:induction false} NatToStringDigits(n: nat)
    ensures var r := NatToString(n);
            && AllDigits(r) && DigitsValue(r) == n
            && (r[0] == '0' ==> n == 0)
  {
    if n >= 10 {
      NatToStringDigits(n / 10);
      var r := NatToString(n);
      assert r[..|r| - 1] == NatToString(n / 10);
    }
  }

  /** `10^k`. */
  function Pow10(k: nat): (p: nat)
    ensures p >= 1
  {
    if k == 0 then 1 else 10 * Pow10(k - 1)
  }

  /** A number below `10^k` needs at most `k` digits. */
  lemma {:induction false} NatToStringLength(n: nat, k: nat)
    requires 1 <= k && n < Pow10(k)
    ensures |NatToString(n)| <= k
  {
    if n >= 10 {
      assert k > 1;
      NatToStringLength(n / 10, k - 1);
    }
  }

  /** A number of at least `10^k` needs more than `k` digits. */
  lemma {:induction false} NatToStringLengthAtLeast(n: nat, k: nat)
    requires Pow10(k) <= n
    ensures |NatToString(n)| > k
  {
    if k > 0 {
      assert Pow10(k - 1) <= n / 10;
      NatToStringLengthAtLeast(n / 10, k - 1);
    }
  }

  /** `c` repeated `n` times. */
  function Repeat(c: char, n: nat): (r: string)
    ensures |r| == n
  {
    if n == 0 then "" else [c] + Repeat(c, n - 1)
  }

  lemma {:induction false} RepeatAt(c: char, n: nat, k: nat)
    requires k < n
    ensures Repeat(c, n)[k] == c
  {
    if k > 0 {
      RepeatAt(c, n - 1, k - 1);
    }
  }

  /** Left-pads `s` with zeros up to `width` characters; longer strings are
      left alone. */
  function ZeroPad(s: string, width: nat): (r: string)
    ensures |r| == if |s| < width then width else |s|
  {
    if |s| < width then Repeat('0', width - |s|) + s else s
  }

  /** The padded string ends with `s` and begins with zeros only. */
  lemma ZeroPadParts(s: string, width: nat)
    ensures var r := ZeroPad(s, width);
            && r[|r| - |s|..] == s
            && forall k :: 0 <= k < |r| - |s| ==> r[k] == '0'
  {
    var r := ZeroPad(s, width);
    if |s| < width {
      var z := Repeat('0', width - |s|);
      assert r[|r| - |s|..] == s;
      forall k | 0 <= k < |r| - |s| ensures r[k] == '0' {
        RepeatAt('0', width - |s|, k);
      }
    }
  }

  /** Python's `format(n, "0" + str(width))`: the digits of `|n|`, zero-padded
      after the sign so that sign and digits together take at least `width`
      characters; `format(-5, "03")` is `"-05"` and `format(-5, "02")` is
      `"-5"`. */
  function FormatInt(n: int, width: nat): (r: string)
    ensures |r| >= width && |r| >= 1
  {
    if n < 0 then "-" + PadDigits(-n, if width > 0 then width - 1 else 0) else PadDigits(n, width)
  }

  /** What `FormatInt` writes: the digits of `n`, after a minus sign when
      `n` is negative. */
  lemma FormatIntDigits(n: int, width: nat)
    ensures var r := FormatInt(n, width);
            && (n >= 0 ==> AllDigits(r) && DigitsValue(r) == n)
            && (n < 0 ==> |r| >= 2 && r[0] == '-' && AllDigits(r[1..]) && DigitsValue(r[1..]) == -n)
  {
    if n < 0 {
      var w := if width > 0 then width - 1 else 0;
      var digits := PadDigits(-n, w);
      PadDigitsValue(-n, w);
      assert FormatInt(n, width)[1..] == digits;
    } else {
      PadDigitsValue(n, width);
    }
  }

  /** The digits of `n`, zero-padded on the left to at least `width`. */
  function PadDigits(n: nat, width: nat): (r: string)
    ensures |r| >= width && |r| >= 1
  {
    ZeroPad(NatToString(n), width)
  }

  /** Padding keeps the value. */
  lemma PadDigitsValue(n: nat, width: nat)
    ensures AllDigits(PadDigits(n, width)) && DigitsValue(PadDigits(n, width)) == n
  {
    var d := NatToString(n);
    var r := ZeroPad(d, width);
    NatToStringDigits(n);
    ZeroPadParts(d, width);
    LeadingZeros(r, |r| - |d|);
  }

  /** Leading zeros do not change the value of a digit string. */
  lemma {:induction false} LeadingZeros(s: string, z: nat)
    requires z <= |s| && AllDigits(s[z..])
    requires forall k :: 0 <= k < z ==> s[k] == '0'
    ensures AllDigits(s) && DigitsValue(s) == DigitsValue(s[z..])
  {
    assert AllDigits(s) by {
      forall k | 0 <= k < |s| ensures IsDigit(s[k]) {
        if k >= z { assert s[k] == s[z..][k - z]; }
      }
    }
    if |s| == z {
      AllZeros(s);
    } else {
      var t := s[..|s| - 1];
      assert t[z..] == s[z..][..|s[z..]| - 1];
      LeadingZeros(t, z);
      assert s[z..][|s[z..]| - 1] == s[|s| - 1];
    }
  }

  /** A string of zeros denotes zero. */
  lemma {:induction false} AllZeros(s: string)
    requires forall k :: 0 <= k < |s| ==> s[k] == '0'
    ensures AllDigits(s) && DigitsValue(s) == 0
  {
    if |s| > 0 {
      AllZeros(s[..|s| - 1]);
    }
  }

  /** Reads a digit string; anything else, including "", is rejected. */
  function ParseNat(s: string): (r: Option<nat>)
    ensures r.Some? <==> |s| > 0 && AllDigits(s)
  {
    if |s| > 0 && AllDigits(s) then Some(DigitsValue(s)) else None
  }

  /** Reads an optionally signed digit string, the inverse of `FormatInt`. */
  function ParseInt(s: string): (r: Option<int>)
    ensures r.Some? ==> |s| > 0
  {
    if |s| > 0 && s[0] == '-' then
      match ParseNat(s[1..])
      case Some(v) => Some(-(v as int))
      case None => None
    else
      match ParseNat(s)
      case Some(v) => Some(v)
      case None => None
  }

  /** Reading back what `FormatInt` wrote gives the same integer, whatever
      the width. */
  lemma FormatIntRoundTrip(n: int, width: nat)
    ensures ParseInt(FormatInt(n, width)) == Some(n)
  {
    if n >= 0 {
      FormatIntDigits(n, width);
      ParseDigits(FormatInt(n, width));
    } else {
      NegativeRoundTrip(n, width);
    }
  }

  lemma NegativeRoundTrip(n: int, width: nat)
    requires n < 0
    ensures ParseInt(FormatInt(n, width)) == Some(n)
  {
    FormatIntDigits(n, width);
    ParseNegative(FormatInt(n, width));
  }

  lemma ParseDigits(s: string)
    requires |s| >= 1 && AllDigits(s)
    ensures ParseInt(s) == Some(DigitsValue(s) as int)
  {
    assert IsDigit(s[0]);
  }

  lemma ParseNegative(s: string)
    requires |s| >= 2 && s[0] == '-' && AllDigits(s[1..])
    ensures ParseInt(s) == Some(-(DigitsValue(s[1..]) as int))
  {
  }

  /** Zero padding is exact when the digits fit the width. */
  lemma FormatIntWidth(n: nat, width: nat)
    requires |NatToString(n)| <= width
    ensures |FormatInt(n, width)| == width
  {
    assert FormatInt(n, width) == PadDigits(n, width);
  }

  /** Digits that already fill the width are written without padding. */
  lemma FormatIntUnpadded(n: nat, width: nat)
    requires |NatToString(n)| >= width
    ensures FormatInt(n, width) == NatToString(n)
  {
    assert FormatInt(n, width) == PadDigits(n, width);
  }

  /** `f"{n}"` holds only digits. */
  lemma NatToStringChars(n: nat, c: char)
    requires !IsDigit(c)
    ensures c !in NatToString(n)
  {
    var r := NatToString(n);
    NatToStringDigits(n);
    assert forall k :: 0 <= k < |r| ==> r[k] != c;
  }

  /** The rendered integer holds only digits and possibly a leading sign,
      so it never contains a separator character. */
  lemma FormatIntChars(n: int, width: nat, c: char)
    requires !IsDigit(c) && c != '-'
    ensures c !in FormatInt(n, width)
  {
    var r := FormatInt(n, width);
    FormatIntDigits(n, width);
    if n < 0 {
      assert r == [r[0]] + r[1..];
    }
  }
}
