/**
 * `ProcessVideo._format_timestamp`: a time offset rendered as an SRT
 * timestamp `HH:MM:SS,mmm`. The recogniser reports times in seconds; here
 * they are whole milliseconds, so the `06.3f` rendering of the seconds
 * field is exact (see README).
 */
module Timestamp {
  import opened Optional
  import opened Strings

  const MillisPerHour: nat := 3_600_000
  const MillisPerMinute: nat := 60_000
  const MillisPerSecond: nat := 1_000

  /** `int(seconds // 3600)` */
  function Hours(ms: nat): nat { ms / MillisPerHour }

  /** `int((seconds % 3600) // 60)` */
  function Minutes(ms: nat): nat { ms % MillisPerHour / MillisPerMinute }

  /** The integer part of `seconds % 60`. */
  function WholeSeconds(ms: nat): nat { ms % MillisPerMinute / MillisPerSecond }

  /** The three decimals of `seconds % 60`. */
  function Millis(ms: nat): nat { ms % MillisPerSecond }

  // A remainder is determined by any decomposition with a small enough rest.
  lemma RemainderOfMinute(a: nat, q: nat, r: nat)
    requires r < 60_000 && a == q * 60_000 + r
    ensures a % 60_000 == r
  {
  }

  lemma RemainderOfSecond(a: nat, q: nat, r: nat)
    requires r < 1000 && a == q * 1000 + r
    ensures a % 1000 == r
  {
  }

  /** The four fields are in range and add back up to the time they came from. */
  lemma {:induction false} FieldsRecompose(ms: nat)
    ensures Minutes(ms) < 60 && WholeSeconds(ms) < 60 && Millis(ms) < 1000
    ensures Hours(ms) * MillisPerHour + Minutes(ms) * MillisPerMinute
            + WholeSeconds(ms) * MillisPerSecond + Millis(ms) == ms
  {
    var h, rh := ms / 3_600_000, ms % 3_600_000;
    var m, rm := rh / 60_000, rh % 60_000;
    var s, rs := rm / 1000, rm % 1000;
    assert ms == h * 3_600_000 + rh && rh == m * 60_000 + rm && rm == s * 1000 + rs;
    RemainderOfMinute(ms, h * 60 + m, rm);
    RemainderOfSecond(ms, (h * 60 + m) * 60 + s, rs);
  }

  /** `f"{secs:06.3f}"`: two integer digits, a point, three decimals. */
  function SecondsField(ms: nat): string
  {
    PadLeft(Decimal(WholeSeconds(ms)), 2) + "." + PadLeft(Decimal(Millis(ms)), 3)
  }

  /** `f"{hours:02d}:{minutes:02d}:{secs:06.3f}".replace('.', ',')` */
  function Format(ms: nat): string
  {
    var python := PadLeft(Decimal(Hours(ms)), 2) + ":" + PadLeft(Decimal(Minutes(ms)), 2) + ":" + SecondsField(ms);
    ReplaceChar(python, '.', ',')
  }

  // The fields of a string laid out as H..H:MM:SS,mmm, counted from its end.
  function HourDigits(s: string): string requires |s| >= 10 { s[..|s| - 10] }
  function MinuteDigits(s: string): string requires |s| >= 10 { s[|s| - 9..|s| - 7] }
  function SecondDigits(s: string): string requires |s| >= 10 { s[|s| - 6..|s| - 4] }
  function MilliDigits(s: string): string requires |s| >= 10 { s[|s| - 3..] }

  /** The SRT timestamp layout: at least two hour digits, then `:MM:SS,mmm`. */
  predicate IsSrtTimestamp(s: string)
  {
    |s| >= 12 &&
    AllDigits(HourDigits(s)) && s[|s| - 10] == ':' &&
    AllDigits(MinuteDigits(s)) && s[|s| - 7] == ':' &&
    AllDigits(SecondDigits(s)) && s[|s| - 4] == ',' &&
    AllDigits(MilliDigits(s))
  }

  /** Reads an SRT timestamp back into milliseconds; the inverse of Format. */
  function Parse(s: string): Option<nat>
  {
    if IsSrtTimestamp(s) && Value(MinuteDigits(s)) < 60 && Value(SecondDigits(s)) < 60 then
      Some(Value(HourDigits(s)) * MillisPerHour + Value(MinuteDigits(s)) * MillisPerMinute
           + Value(SecondDigits(s)) * MillisPerSecond + Value(MilliDigits(s)))
    else
      None
  }

  lemma ReplaceCharOfDigits(x: string)
    requires AllDigits(x)
    ensures ReplaceChar(x, '.', ',') == x
  {
    assert '.' !in x by {
      assert forall i :: 0 <= i < |x| ==> IsDigit(x[i]);
    }
    ReplaceCharAbsent(x, '.', ',');
  }

  /** Where the fields sit in `h:m:s,f` when m and s have two digits and f three. */
  lemma FieldsAt(h: string, m: string, s: string, f: string)
    requires |h| >= 2 && |m| == 2 && |s| == 2 && |f| == 3
    requires AllDigits(h) && AllDigits(m) && AllDigits(s) && AllDigits(f)
    ensures var t := h + ":" + m + ":" + (s + "," + f);
      |t| == |h| + 10 && IsSrtTimestamp(t) &&
      HourDigits(t) == h && MinuteDigits(t) == m && SecondDigits(t) == s && MilliDigits(t) == f &&
      '.' !in t && ' ' !in t && '\n' !in t
  {
    var t := h + ":" + m + ":" + (s + "," + f);
    var n := |t|;
    assert t[..n - 10] == h;
    assert t[n - 9..n - 7] == m;
    assert t[n - 6..n - 4] == s;
    assert t[n - 3..] == f;
    assert forall i :: 0 <= i < n ==> IsDigit(t[i]) || t[i] == ':' || t[i] == ',';
  }

  /** Replacing the point in `h:m:s.f` by a comma touches nothing else. */
  lemma ReplacePoint(h: string, m: string, s: string, f: string)
    requires AllDigits(h) && AllDigits(m) && AllDigits(s) && AllDigits(f)
    ensures ReplaceChar(h + ":" + m + ":" + (s + "." + f), '.', ',') == h + ":" + m + ":" + (s + "," + f)
  {
    var hm, sf := h + ":" + m + ":", s + "." + f;
    assert ReplaceChar(hm, '.', ',') == hm by {
      ReplaceCharOfDigits(h);
      ReplaceCharOfDigits(m);
      ReplaceCharAbsent(":", '.', ',');
      ReplaceCharAppend(h, ":", '.', ',');
      ReplaceCharAppend(h + ":", m, '.', ',');
      ReplaceCharAppend(h + ":" + m, ":", '.', ',');
    }
    assert ReplaceChar(sf, '.', ',') == s + "," + f by {
      ReplaceCharOfDigits(s);
      ReplaceCharOfDigits(f);
      ReplaceCharAppend(s, ".", '.', ',');
      ReplaceCharAppend(s + ".", f, '.', ',');
    }
    ReplaceCharAppend(hm, sf, '.', ',');
  }

  /** Format is the four padded fields with colons and a comma between them. */
  lemma FormatIsFields(ms: nat)
    ensures Format(ms) == PadLeft(Decimal(Hours(ms)), 2) + ":" + PadLeft(Decimal(Minutes(ms)), 2) + ":"
                          + (PadLeft(Decimal(WholeSeconds(ms)), 2) + "," + PadLeft(Decimal(Millis(ms)), 3))
  {
    PadLeftDigits(Decimal(Hours(ms)), 2);
    PadLeftDigits(Decimal(Minutes(ms)), 2);
    PadLeftDigits(Decimal(WholeSeconds(ms)), 2);
    PadLeftDigits(Decimal(Millis(ms)), 3);
    ReplacePoint(PadLeft(Decimal(Hours(ms)), 2), PadLeft(Decimal(Minutes(ms)), 2),
                 PadLeft(Decimal(WholeSeconds(ms)), 2), PadLeft(Decimal(Millis(ms)), 3));
  }

  /**
   * Format yields `HH:MM:SS,mmm` with the hours padded to two digits (more
   * when there are 100 hours or more), the minutes and seconds to two and the
   * milliseconds to three, and each field holds the value computed for it.
   * The comma is the only sub-second separator: no point survives.
   */
  lemma FormatLayout(ms: nat)
    ensures IsSrtTimestamp(Format(ms))
    ensures |Format(ms)| == 10 + (if Hours(ms) < 10 then 2 else |Decimal(Hours(ms))|)
    ensures Value(HourDigits(Format(ms))) == Hours(ms)
    ensures Value(MinuteDigits(Format(ms))) == Minutes(ms)
    ensures Value(SecondDigits(Format(ms))) == WholeSeconds(ms)
    ensures Value(MilliDigits(Format(ms))) == Millis(ms)
    ensures '.' !in Format(ms) && ' ' !in Format(ms) && '\n' !in Format(ms)
  {
    FieldsRecompose(ms);
    PadLeftDigits(Decimal(Hours(ms)), 2);
    PadLeftDigits(Decimal(Minutes(ms)), 2);
    PadLeftDigits(Decimal(WholeSeconds(ms)), 2);
    PadLeftDigits(Decimal(Millis(ms)), 3);
    FormatIsFields(ms);
    FieldsAt(PadLeft(Decimal(Hours(ms)), 2), PadLeft(Decimal(Minutes(ms)), 2),
             PadLeft(Decimal(WholeSeconds(ms)), 2), PadLeft(Decimal(Millis(ms)), 3));
  }

  /** Parsing a formatted timestamp gives back the time exactly. */
  lemma ParseFormat(ms: nat)
    ensures Parse(Format(ms)) == Some(ms)
  {
    FormatLayout(ms);
    FieldsRecompose(ms);
  }

  /** Format put together from fields already computed. */
  lemma FormatOf(ms: nat, h: string, m: string, s: string, f: string)
    requires PadLeft(Decimal(Hours(ms)), 2) == h && PadLeft(Decimal(Minutes(ms)), 2) == m
    requires PadLeft(Decimal(WholeSeconds(ms)), 2) == s && PadLeft(Decimal(Millis(ms)), 3) == f
    ensures Format(ms) == h + ":" + m + ":" + (s + "," + f)
  {
    FormatIsFields(ms);
  }

  /** Time zero is rendered with every field zero. */
  lemma FormatZero()
    ensures Format(0) == "00:00:00,000"
  {
    assert PadLeft(Decimal(0), 2) == "00" && PadLeft(Decimal(0), 3) == "000" by {
      assert Decimal(0) == "0";
    }
    assert Hours(0) == 0 && Minutes(0) == 0 && WholeSeconds(0) == 0 && Millis(0) == 0;
    FormatOf(0, "00", "00", "00", "000");
    assert "00" + ":" + "00" + ":" + ("00" + "," + "000") == "00:00:00,000";
  }

  lemma DecimalOfOneHundredTwentyThree()
    ensures Decimal(123) == "123"
  {
    assert Decimal(1) == "1";
    assert Decimal(12) == "12";
  }

  lemma FieldsOfOneHourOneMinute()
    ensures Hours(3_661_123) == 1 && Minutes(3_661_123) == 1
    ensures WholeSeconds(3_661_123) == 1 && Millis(3_661_123) == 123
  {
  }

  /** One hour, one minute, one second and 123 milliseconds. */
  lemma FormatOneHourOneMinute()
    ensures Format(3_661_123) == "01:01:01,123"
  {
    assert PadLeft(Decimal(1), 2) == "01" by {
      assert Decimal(1) == "1";
    }
    DecimalOfOneHundredTwentyThree();
    FieldsOfOneHourOneMinute();
    FormatOf(3_661_123, "01", "01", "01", "123");
    assert "01" + ":" + "01" + ":" + ("01" + "," + "123") == "01:01:01,123";
  }
}
