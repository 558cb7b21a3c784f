/**
 * The two time conversions of the analyser: timeToInt, which reads a result time
 * (H:MM:SS[.cc] or MM:SS) as a number of hours, and floatToTimeString, which
 * writes a number of hours back as HH:MM:SS.
 */
module TimeCodec {
  import opened Text

  /**
   * The texts timeToInt can read: it returns early for texts shorter than four
   * characters, and otherwise reads the second part of the split on ':'.
   */
  predicate InDomain(time: string)
  {
    |time| < 4 || |Split(time, ':')| >= 2
  }

  /**
   * timeToInt: hours + minutes / 60 + seconds / 3600, each part read with toFloat.
   * Three parts are hours, minutes and seconds; any other count reads the first two
   * parts as minutes and seconds.
   */
  function TimeToHours(time: string): (hours: real)
    requires InDomain(time)
    ensures |time| < 4 ==> hours == 0.0
  {
    if |time| < 4 then 0.0
    else
      var list := Split(time, ':');
      var h := if |list| == 3 then list[0] else "";
      var m := if |list| == 3 then list[1] else list[0];
      var s := if |list| == 3 then list[2] else list[1];
      ParseReal(h) + ParseReal(m) / 60.0 + ParseReal(s) / 3600.0
  }

  /** A time written H:M:S reads as H + M/60 + S/3600, with a fractional S kept. */
  lemma HoursOfThreeParts(h: string, m: string, s: string)
    requires ':' !in h && ':' !in m && ':' !in s
    requires |h| + |m| + |s| >= 2
    ensures InDomain(Join([h, m, s], ':'))
    ensures TimeToHours(Join([h, m, s], ':')) == ParseReal(h) + ParseReal(m) / 60.0 + ParseReal(s) / 3600.0
  {
    SplitJoin([h, m, s], ':');
    assert [h, m, s][1..] == [m, s] && [m, s][1..] == [s];
    assert Join([m, s], ':') == m + [':'] + s;
    assert Join([h, m, s], ':') == h + [':'] + Join([m, s], ':');
  }

  /** A time written M:S reads as M/60 + S/3600. */
  lemma HoursOfTwoParts(m: string, s: string)
    requires ':' !in m && ':' !in s
    requires |m| + |s| >= 3
    ensures InDomain(Join([m, s], ':'))
    ensures TimeToHours(Join([m, s], ':')) == ParseReal(m) / 60.0 + ParseReal(s) / 3600.0
  {
    SplitJoin([m, s], ':');
    assert [m, s][1..] == [s];
    assert Join([m, s], ':') == m + [':'] + s;
  }

  /** toFloat reads "45.50" as 45.5. */
  lemma ReadFractionalSeconds()
    ensures ParseReal("45.50") == 45.5
  {
    var body := "45.50";
    assert Unsigned(body) == body;
    assert body == Join(["45", "50"], '.');
    SplitJoin(["45", "50"], '.');
    var parts := Split(body, '.');
    assert parts == ["45", "50"];
    assert AllDigits(parts[0]) && AllDigits(parts[1]);
    assert DigitsValue("4") == 4;
    assert DigitsValue("45") == 45;
    assert DigitsValue("5") == 5;
    assert DigitsValue("50") == 50;
    assert Pow10(2) == 100;
    assert DecimalValue(body) == 45.0 + 50.0 / 100.0;
  }

  /** The seconds part is read with toFloat: "1:00:45.50" is one hour and 45.5 seconds. */
  lemma FractionalSecondsCount()
    ensures InDomain("1:00:45.50")
    ensures TimeToHours("1:00:45.50") == 1.0 + 45.5 / 3600.0
  {
    assert "1:00:45.50" == Join(["1", "00", "45.50"], ':');
    HoursOfThreeParts("1", "00", "45.50");
    ReadWholeCounters();
    ReadFractionalSeconds();
  }

  /** toFloat reads the hour and minute texts of "1:00:45.50" as 1 and 0. */
  lemma ReadWholeCounters()
    ensures ParseReal("1") == 1.0 && ParseReal("00") == 0.0
  {
    ParseRealOfDigits("1");
    ParseRealOfDigits("00");
    assert DigitsValue("1") == 1;
    assert DigitsValue("0") == 0;
    assert DigitsValue("00") == 0;
  }

  /** C++ conversion of a float to int: truncation toward zero. */
  function TruncToInt(x: real): (n: int)
    ensures x >= 0.0 ==> n as real <= x < n as real + 1.0
    ensures x < 0.0 ==> n as real - 1.0 < x <= n as real
  {
    if x >= 0.0 then x.Floor else -((-x).Floor)
  }

  /** A field of floatToTimeString: one "0" is put in front of any value below 10. */
  function Pad(n: int): string
  {
    if n < 10 then "0" + IntToString(n) else IntToString(n)
  }

  /**
   * floatToTimeString. The seconds subtract avgmin/60, an integer division, from the
   * fraction of an hour before scaling by 60, so they repeat the minutes.
   */
  function FormatHours(time: real): string
  {
    var hours := TruncToInt(time);
    var minutes := TruncToInt((time - hours as real) * 60.0 * 60.0 / 60.0);
    var seconds := TruncToInt((time - hours as real - CDiv(minutes, 60) as real) * 60.0);
    Pad(hours) + ":" + Pad(minutes) + ":" + Pad(seconds)
  }

  /** The whole hours and the whole minutes of the remaining fraction, as floatToTimeString takes them. */
  function WholeHours(time: real): int
  {
    TruncToInt(time)
  }

  function WholeMinutes(time: real): int
  {
    TruncToInt((time - TruncToInt(time) as real) * 60.0)
  }

  /** The seconds field of floatToTimeString always equals its minutes field. */
  lemma SecondsRepeatMinutes(time: real)
    ensures -59 <= WholeMinutes(time) <= 59
    ensures FormatHours(time)
         == Pad(WholeHours(time)) + ":" + Pad(WholeMinutes(time)) + ":" + Pad(WholeMinutes(time))
  {
    FieldsOfHours(time);
  }

  /** The minutes and the seconds floatToTimeString computes are both the whole minutes of the fraction. */
  lemma FieldsOfHours(time: real)
    ensures -59 <= WholeMinutes(time) <= 59
    ensures TruncToInt((time - TruncToInt(time) as real) * 60.0 * 60.0 / 60.0) == WholeMinutes(time)
    ensures TruncToInt((time - TruncToInt(time) as real - CDiv(WholeMinutes(time), 60) as real) * 60.0)
         == WholeMinutes(time)
  {
    var frac := time - TruncToInt(time) as real;
    assert -1.0 < frac < 1.0;
    assert frac * 60.0 * 60.0 / 60.0 == frac * 60.0;
    MinutesOfFraction(frac);
    assert CDiv(WholeMinutes(time), 60) == 0;
  }

  /** A fraction of an hour strictly between -1 and 1 holds at most 59 whole minutes either way. */
  lemma MinutesOfFraction(frac: real)
    requires -1.0 < frac < 1.0
    ensures -59 <= TruncToInt(frac * 60.0) <= 59
  {
  }

  /** Every field is at least two characters and starts with "0" exactly when its value is below 10. */
  lemma PadWidth(n: int)
    ensures |Pad(n)| >= 2
    ensures Pad(n)[0] == '0' <==> n < 10
  {
    if n >= 10 {
      assert |NatToString(n)| >= 2;
    }
  }

  /**
   * Writing a time read from H:M:S keeps its hours and minutes; the seconds field
   * repeats the minutes, so S is lost.
   */
  lemma FormatOfReadTime(h: nat, m: nat, s: real)
    requires m < 60 && 0.0 <= s < 60.0
    ensures FormatHours(h as real + m as real / 60.0 + s / 3600.0) == Pad(h) + ":" + Pad(m) + ":" + Pad(m)
  {
    var t := h as real + m as real / 60.0 + s / 3600.0;
    assert m as real / 60.0 + s / 3600.0 < 1.0;
    assert TruncToInt(t) == h;
    assert (t - h as real) * 60.0 == m as real + s / 60.0;
    assert TruncToInt((t - h as real) * 60.0) == m;
    SecondsRepeatMinutes(t);
  }
}
