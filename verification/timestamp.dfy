/** `format_timestamp` (transcribe/transcribe_japanese.py:31-36): elapsed
    seconds rendered as `HH:MM:SS,mmm`, the time format of SRT subtitles.
    Seconds are exact reals here; the program computes with IEEE-754
    doubles, whose rounding in `//`, `%`, `-` and `* 1000` this model does
    not reproduce. */
module Timestamp {
  import opened Wrappers
  import opened Strings
  import opened Decimal

  /** Python's `x // d` for a positive divisor: the floor of the quotient. */
  function FloorDiv(x: real, d: real): (q: int)
    requires d > 0.0
    ensures (q as real) <= x / d < (q as real) + 1.0
  {
    (x / d).Floor
  }

  /** Python's `x % d` for a positive divisor: the remainder takes the sign
      of the divisor, so it is never negative. */
  function Mod(x: real, d: real): (r: real)
    requires d > 0.0
    ensures 0.0 <= r < d
    ensures x - r == (FloorDiv(x, d) as real) * d
  {
    var q := FloorDiv(x, d);
    ScaleFloor(q as real, x, d);
    x - (q as real) * d
  }

  /** Multiplying `q <= x / d < q + 1` through by the positive `d`. */
  lemma ScaleFloor(q: real, x: real, d: real)
    requires d > 0.0 && q <= x / d < q + 1.0
    ensures q * d <= x < q * d + d
  {
    var y := x / d;
    assert y * d == x;
    var e := y - q;
    assert 0.0 <= e < 1.0;
    assert e * d >= 0.0;
    assert e * d < d;
    assert y * d == q * d + e * d;
    var qd, ed := q * d, e * d;
    assert x == qd + ed;
  }

  /** Python's `int(x)` on a float: truncation toward zero. */
  function Trunc(x: real): (r: int)
    ensures 0.0 <= x ==> 0 <= r && (r as real) <= x < (r as real) + 1.0
    ensures x < 0.0 ==> r <= 0 && (r as real) - 1.0 < x <= (r as real)
  {
    if x >= 0.0 then x.Floor else -((-x).Floor)
  }

  /** Python 3's one-argument `round`: the nearest integer, ties going to
      the even neighbour. Applied to the exact value, which approximates
      what `round` does with the double it is given. */
  function RoundHalfEven(y: real): (r: int)
    ensures (r as real) - 0.5 <= y <= (r as real) + 0.5
    ensures (y - (r as real) == 0.5 || (r as real) - y == 0.5) ==> r % 2 == 0
  {
    var f := y.Floor;
    var frac := y - (f as real);
    if frac < 0.5 then f
    else if frac > 0.5 then f + 1
    else if f % 2 == 0 then f
    else f + 1
  }

  /** No integer is nearer to `y` than its rounding. */
  lemma RoundIsNearest(y: real, k: int)
    ensures Abs(y - (RoundHalfEven(y) as real)) <= Abs(y - (k as real))
  {
    var r := RoundHalfEven(y);
    if k < r {
      assert (k as real) <= (r as real) - 1.0;
    } else if k > r {
      assert (k as real) >= (r as real) + 1.0;
    }
  }

  function Abs(x: real): real {
    if x < 0.0 then -x else x
  }

  /** The four numbers a timestamp shows. */
  datatype Fields = Fields(h: int, m: int, s: int, ms: int)

  /** Line 32: whole hours, the floor of x / 3600. */
  function Hours(x: real): (h: int)
    ensures 0.0 <= x ==> 0 <= h
  {
    FloorDiv(x, 3600.0)
  }

  /** Line 33: whole minutes into the hour, the floor of a sixtieth of what
      is left of x after whole hours. */
  function Minutes(x: real): (m: int)
    ensures 0 <= m < 60
  {
    FloorDiv(Mod(x, 3600.0), 60.0)
  }

  /** Line 34: whole seconds into the minute, what is left of x after whole
      minutes, truncated. */
  function Seconds(x: real): (s: int)
    ensures 0 <= s < 60
  {
    Trunc(Mod(x, 60.0))
  }

  /** Line 35: the fractional part of x in milliseconds, rounded half to
      even on its own. */
  function Millis(x: real): (ms: int)
    ensures -1000 <= ms <= 1000
    ensures 0.0 <= x ==> 0 <= ms
  {
    RoundHalfEven((x - (Trunc(x) as real)) * 1000.0)
  }

  /** Lines 32-35: the four fields. Nothing carries from milliseconds into
      seconds. */
  function FieldsOf(x: real): (f: Fields)
    ensures 0 <= f.m < 60 && 0 <= f.s < 60 && -1000 <= f.ms <= 1000
    ensures 0.0 <= x ==> 0 <= f.h && 0 <= f.ms
  {
    Fields(Hours(x), Minutes(x), Seconds(x), Millis(x))
  }

  /** Line 36: hours, minutes and seconds zero-padded to two digits and
      joined by ':', then ',' and milliseconds zero-padded to three. */
  function FormatTimestamp(x: real): (r: string)
    ensures |r| >= 12
  {
    Render(FieldsOf(x))
  }

  function Render(f: Fields): (r: string)
    ensures |r| >= 12
  {
    FormatInt(f.h, 2) + ":" + FormatInt(f.m, 2) + ":" + FormatInt(f.s, 2) + "," + FormatInt(f.ms, 3)
  }

  /** The timestamp text determines the four numbers it was made from. */
  lemma FormatTimestampRoundTrip(x: real)
    ensures ParseTimestamp(FormatTimestamp(x)) == Some(FieldsOf(x))
  {
    ParseBack(FieldsOf(x));
  }

  /** A timestamp holds only digits, minus signs and the separators `:`
      and `,`; any other character, a line break for one, is absent. */
  lemma TimestampChars(x: real, c: char)
    requires !IsDigit(c) && c != '-' && c != ':' && c != ','
    ensures c !in FormatTimestamp(x)
  {
    var f := FieldsOf(x);
    var a, b, d, e := FormatInt(f.h, 2), FormatInt(f.m, 2), FormatInt(f.s, 2), FormatInt(f.ms, 3);
    FormatIntChars(f.h, 2, c);
    FormatIntChars(f.m, 2, c);
    FormatIntChars(f.s, 2, c);
    FormatIntChars(f.ms, 3, c);
    NotInConcat(a, ":", c);
    NotInConcat(a + ":", b, c);
    NotInConcat(a + ":" + b, ":", c);
    NotInConcat(a + ":" + b + ":", d, c);
    NotInConcat(a + ":" + b + ":" + d, ",", c);
    NotInConcat(a + ":" + b + ":" + d + ",", e, c);
  }

  /** Reads `H:M:S,ms` back into its four fields; each field is an
      optionally signed run of digits. */
  function ParseTimestamp(t: string): Option<Fields>
  {
    var parts := SplitOn(t, ':');
    if |parts| != 3 then None
    else
      var tail := SplitOn(parts[2], ',');
      if |tail| != 2 then None
      else
        match (ParseInt(parts[0]), ParseInt(parts[1]), ParseInt(tail[0]), ParseInt(tail[1]))
        case (Some(h), Some(m), Some(s), Some(ms)) => Some(Fields(h, m, s, ms))
        case _ => None
  }

  lemma ParseBack(f: Fields)
    ensures ParseTimestamp(Render(f)) == Some(f)
  {
    var a, b, c, d := FormatInt(f.h, 2), FormatInt(f.m, 2), FormatInt(f.s, 2), FormatInt(f.ms, 3);
    FormatIntChars(f.h, 2, ':');
    FormatIntChars(f.m, 2, ':');
    FormatIntChars(f.s, 2, ':');
    FormatIntChars(f.s, 2, ',');
    FormatIntChars(f.ms, 3, ':');
    FormatIntChars(f.ms, 3, ',');
    SplitFields(a, b, c, d);
    FormatIntRoundTrip(f.h, 2);
    FormatIntRoundTrip(f.m, 2);
    FormatIntRoundTrip(f.s, 2);
    FormatIntRoundTrip(f.ms, 3);
  }

  lemma SplitFields(a: string, b: string, c: string, d: string)
    requires ':' !in a && ':' !in b && ':' !in c && ':' !in d
    requires ',' !in c && ',' !in d
    ensures SplitOn(a + ":" + b + ":" + c + "," + d, ':') == [a, b, c + "," + d]
    ensures SplitOn(c + "," + d, ',') == [c, d]
  {
    var rest := c + "," + d;
    NotInConcat(c, ",", ':');
    NotInConcat(c + ",", d, ':');
    SplitColons(a, b, rest);
    var ab := a + ":" + b + ":";
    AppendAssoc(ab, c, ",");
    AppendAssoc(ab, c + ",", d);
    assert ab + c + "," + d == ab + rest;
    SplitNoSep(d, ',');
    SplitAfter(c, d, ',');
  }

  lemma SplitColons(a: string, b: string, rest: string)
    requires ':' !in a && ':' !in b && ':' !in rest
    ensures SplitOn(a + ":" + b + ":" + rest, ':') == [a, b, rest]
  {
    var brest := b + ":" + rest;
    assert SplitOn(brest, ':') == [b, rest] by {
      SplitNoSep(rest, ':');
      SplitAfter(b, rest, ':');
    }
    var a' := a + ":";
    AppendAssoc(a', b + ":", rest);
    AppendAssoc(a', b, ":");
    assert a' + b + ":" + rest == a' + brest;
    SplitAfter(a, brest, ':');
  }

  /** Hours, minutes and seconds together are the whole seconds of the
      input, for every input, negative ones included. */
  lemma WholeSecondsDecompose(x: real)
    ensures var f := FieldsOf(x); 3600 * f.h + 60 * f.m + f.s == x.Floor
  {
    var f := FieldsOf(x);
    var r := Mod(x, 3600.0);
    assert r == x - (f.h as real) * 3600.0;
    assert FloorDiv(x, 60.0) == 60 * f.h + f.m;
    assert Mod(x, 60.0) == r - (f.m as real) * 60.0;
  }

  /** The timestamp a reader takes from the four fields. */
  function Shown(f: Fields): real {
    (3600 * f.h + 60 * f.m + f.s) as real + (f.ms as real) / 1000.0
  }

  /** For non-negative input the timestamp is within half a millisecond of
      the exact time, including when the millisecond field reads 1000. */
  lemma HalfMillisecondAccurate(x: real)
    requires 0.0 <= x
    ensures Abs(Shown(FieldsOf(x)) - x) <= 0.0005
  {
    WholeSecondsDecompose(x);
  }

  /** An input with no fractional part shows zero milliseconds. */
  lemma WholeInputZeroMillis(x: real)
    requires x == (x.Floor as real)
    ensures FieldsOf(x).ms == 0
  {
    assert Trunc(x) == x.Floor;
    assert (x - (Trunc(x) as real)) * 1000.0 == 0.0;
    assert RoundHalfEven(0.0) == 0;
  }

  /** For non-negative input the millisecond field lies in 0..1000 and is
      1000 exactly when the fractional part is at least 0.9995: the
      rounding then reaches a full second that is not carried into the
      seconds field. */
  lemma MillisOverflow(x: real)
    requires 0.0 <= x
    ensures 0 <= FieldsOf(x).ms <= 1000
    ensures FieldsOf(x).ms == 1000 <==> x - (x.Floor as real) >= 0.9995
  {
  }

  /** Below 100 hours and without the 1000 overflow the timestamp has the
      fixed SRT width `HH:MM:SS,mmm`; with the overflow it is one longer. */
  lemma TimestampWidth(x: real)
    requires 0.0 <= x < 360000.0
    ensures FieldsOf(x).ms < 1000 ==> |FormatTimestamp(x)| == 12
    ensures FieldsOf(x).ms == 1000 ==> |FormatTimestamp(x)| == 13
  {
    var f := FieldsOf(x);
    assert f.h < 100;
    MillisOverflow(x);
    RenderWidth(f);
  }

  lemma RenderWidth(f: Fields)
    requires 0 <= f.h < 100 && 0 <= f.m < 60 && 0 <= f.s < 60 && 0 <= f.ms <= 1000
    ensures f.ms < 1000 ==> |Render(f)| == 12
    ensures f.ms == 1000 ==> |Render(f)| == 13
  {
    assert Pow10(2) == 100 && Pow10(3) == 1000 && Pow10(4) == 10000;
    NatToStringLength(f.h, 2);
    FormatIntWidth(f.h, 2);
    NatToStringLength(f.m, 2);
    FormatIntWidth(f.m, 2);
    NatToStringLength(f.s, 2);
    FormatIntWidth(f.s, 2);
    if f.ms < 1000 {
      NatToStringLength(f.ms, 3);
      FormatIntWidth(f.ms, 3);
    } else {
      NatToStringLength(f.ms, 4);
      NatToStringLengthAtLeast(f.ms, 3);
      FormatIntUnpadded(f.ms, 3);
    }
  }

  /** 3661.5 s is one hour, one minute, one second and 500 ms. */
  lemma FieldsOneHourOneMinute(x: real)
    requires x == 3661.5
    ensures FieldsOf(x) == Fields(1, 1, 1, 500)
  {
    assert Hours(x) == 1;
    assert Mod(x, 3600.0) == 61.5;
    assert Minutes(x) == 1;
    assert Mod(x, 60.0) == 1.5;
    assert Seconds(x) == 1;
    assert Trunc(x) == 3661;
    assert RoundHalfEven(500.0) == 500;
  }

  /** With exact arithmetic 59.999 s keeps its 999 milliseconds. */
  lemma FieldsJustUnderAMinute(x: real)
    requires x == 59.999
    ensures FieldsOf(x) == Fields(0, 0, 59, 999)
  {
    assert Hours(x) == 0;
    assert Mod(x, 3600.0) == 59.999;
    assert Minutes(x) == 0;
    assert Mod(x, 60.0) == 59.999;
    assert Seconds(x) == 59;
    assert Trunc(x) == 59;
    assert RoundHalfEven(999.0) == 999;
  }

  /** 0.9996 s shows 0 seconds and a millisecond field of 1000: the text
      is 13 characters, one more than `00:00:01,000` would take. */
  lemma FormatMillisOverflow(x: real)
    requires x == 0.9996
    ensures FieldsOf(x) == Fields(0, 0, 0, 1000)
    ensures |FormatTimestamp(x)| == 13
    ensures ParseTimestamp(FormatTimestamp(x)) == Some(Fields(0, 0, 0, 1000))
  {
    assert Trunc(x) == 0;
    assert RoundHalfEven(999.6) == 1000;
    assert FieldsOf(x) == Fields(0, 0, 0, 1000);
    TimestampWidth(x);
    FormatTimestampRoundTrip(x);
  }

  /** Hence `format_timestamp(3661.5)` is `01:01:01,500`. */
  lemma FormatOneHourOneMinute(x: real)
    requires x == 3661.5
    ensures FormatTimestamp(x) == "01:01:01,500"
  {
    FieldsOneHourOneMinute(x);
    RenderOneHourOneMinute();
  }

  lemma RenderOneHourOneMinute()
    ensures Render(Fields(1, 1, 1, 500)) == "01:01:01,500"
  {
    assert FormatInt(1, 2) == "01" by {
      assert NatToString(1) == "1";
      assert Repeat('0', 1) == "0";
    }
    assert FormatInt(500, 3) == "500" by {
      assert NatToString(500) == "500";
    }
  }

  /** Hence `format_timestamp(59.999)` is `00:00:59,999`. */
  lemma FormatJustUnderAMinute(x: real)
    requires x == 59.999
    ensures FormatTimestamp(x) == "00:00:59,999"
  {
    FieldsJustUnderAMinute(x);
    RenderJustUnderAMinute();
  }

  lemma RenderJustUnderAMinute()
    ensures Render(Fields(0, 0, 59, 999)) == "00:00:59,999"
  {
    assert FormatInt(0, 2) == "00" by {
      assert NatToString(0) == "0";
      assert Repeat('0', 1) == "0";
    }
    assert FormatInt(59, 2) == "59" by {
      assert NatToString(59) == "59";
    }
    assert FormatInt(999, 3) == "999" by {
      assert NatToString(999) == "999";
    }
  }

  /** Hence `format_timestamp(0.9996)` is `00:00:00,1000`. */
  lemma FormatMillisOverflowText(x: real)
    requires x == 0.9996
    ensures FormatTimestamp(x) == "00:00:00,1000"
  {
    FormatMillisOverflow(x);
    RenderMillisOverflow();
  }

  lemma RenderMillisOverflow()
    ensures Render(Fields(0, 0, 0, 1000)) == "00:00:00,1000"
  {
    assert FormatInt(0, 2) == "00" by {
      assert NatToString(0) == "0";
      assert Repeat('0', 1) == "0";
    }
    assert FormatInt(1000, 3) == "1000" by {
      assert NatToString(10) == "10";
      assert NatToString(100) == NatToString(10) + "0";
      assert NatToString(1000) == NatToString(100) + "0";
    }
  }
}
