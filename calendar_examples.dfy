/**
 * Concrete epoch values: zero rendered in full (built field by field with `Fixed` and then glued
 * together), and a value from a 2023 trace and the two ends of the 32-bit range as the
 * date-times their renderings read back as.
 */
module CalendarExamples {
  import opened Wrappers
  import opened Integers
  import opened Calendar

  /** The ten decimal digits. */
  lemma DigitChars()
    ensures DigitChar(0) == '0' && DigitChar(1) == '1' && DigitChar(2) == '2' && DigitChar(3) == '3'
    ensures DigitChar(4) == '4' && DigitChar(5) == '5' && DigitChar(6) == '6' && DigitChar(7) == '7'
    ensures DigitChar(8) == '8' && DigitChar(9) == '9'
  {
  }

  /** A rendering is its six fixed-width fields and the punctuation between them. */
  lemma RenderingFromFields(dt: DateTime, y: string, mo: string, d: string, h: string, mi: string, s: string, whole: string)
    requires Valid(dt) && 0 <= dt.year < 10000
    requires Fixed(dt.year, 4) == y && Fixed(dt.month, 2) == mo && Fixed(dt.day, 2) == d
    requires Fixed(dt.hour, 2) == h && Fixed(dt.minute, 2) == mi && Fixed(dt.second, 2) == s
    requires y + "-" + mo + "-" + d + " " + h + ":" + mi + ":" + s == whole
    ensures FormatTimestamp(dt) == whole
  {
  }

  /** An epoch value from a 2023 trace. */
  const TraceEpoch: int := 1_700_000_000

  /** The fields of 1970-01-01 00:00:00, each in its fixed width. */
  lemma Fields1970()
    ensures Fixed(1970, 4) == "1970" && Fixed(1, 2) == "01" && Fixed(0, 2) == "00"
  {
    DigitChars();
    assert Fixed(1970, 4) == Fixed(197, 3) + "0";
    assert Fixed(197, 3) == Fixed(19, 2) + "7";
    assert Fixed(19, 2) == Fixed(1, 1) + "9";
    assert Fixed(1, 1) == Fixed(0, 0) + "1";
    assert Fixed(1, 2) == Fixed(0, 1) + "1";
    assert Fixed(0, 1) == Fixed(0, 0) + "0";
    assert Fixed(0, 2) == Fixed(0, 1) + "0";
  }

  lemma Glue1970()
    ensures "1970" + "-" + "01" + "-" + "01" + " " + "00" + ":" + "00" + ":" + "00" == "1970-01-01 00:00:00"
  {
    assert "1970" + "-" == "1970-";
    assert "1970-" + "01" == "1970-01";
    assert "1970-01" + "-" == "1970-01-";
    assert "1970-01-" + "01" == "1970-01-01";
    assert "1970-01-01" + " " == "1970-01-01 ";
    assert "1970-01-01 " + "00" == "1970-01-01 00";
    assert "1970-01-01 00" + ":" == "1970-01-01 00:";
    assert "1970-01-01 00:" + "00" == "1970-01-01 00:00";
    assert "1970-01-01 00:00" + ":" == "1970-01-01 00:00:";
    assert "1970-01-01 00:00:" + "00" == "1970-01-01 00:00:00";
  }

  lemma Rendering1970()
    ensures FormatTimestamp(DateTime(1970, 1, 1, 0, 0, 0)) == "1970-01-01 00:00:00"
  {
    Fields1970();
    Glue1970();
    RenderingFromFields(DateTime(1970, 1, 1, 0, 0, 0), "1970", "01", "01", "00", "00", "00", "1970-01-01 00:00:00");
  }

  /** Epoch 0 is the start of 1970, UTC. */
  lemma FormatEpochZero()
    ensures FormatUnixTime(0) == "1970-01-01 00:00:00"
  {
    var dt := DateTime(1970, 1, 1, 0, 0, 0);
    UnixTimeRendering(0, dt);
    Rendering1970();
  }

  /**
   * The 2023 trace value is 2023-11-14 22:13:20 UTC: its rendering is that date-time's, and
   * reads back as it.
   */
  lemma FormatTraceEpoch()
    ensures FormatUnixTime(TraceEpoch) == FormatTimestamp(DateTime(2023, 11, 14, 22, 13, 20))
    ensures ParseTimestamp(FormatUnixTime(TraceEpoch)) == Some(DateTime(2023, 11, 14, 22, 13, 20))
  {
    var dt := DateTime(2023, 11, 14, 22, 13, 20);
    assert DaysBeforeYear(2023) == 19358;
    UnixTimeRendering(TraceEpoch, dt);
    ParseFormat(dt);
  }

  /** The last second a 32-bit epoch can name is 2038-01-19 03:14:07 UTC. */
  lemma FormatMaxInt32()
    ensures FormatUnixTime(MaxInt32) == FormatTimestamp(DateTime(2038, 1, 19, 3, 14, 7))
    ensures ParseTimestamp(FormatUnixTime(MaxInt32)) == Some(DateTime(2038, 1, 19, 3, 14, 7))
  {
    var dt := DateTime(2038, 1, 19, 3, 14, 7);
    assert DaysBeforeYear(2038) == 24837;
    UnixTimeRendering(MaxInt32, dt);
    ParseFormat(dt);
  }

  /** Negative epochs count back from 1970: the first second a 32-bit epoch can name is 1901-12-13 20:45:52 UTC. */
  lemma FormatMinInt32()
    ensures FormatUnixTime(MinInt32) == FormatTimestamp(DateTime(1901, 12, 13, 20, 45, 52))
    ensures ParseTimestamp(FormatUnixTime(MinInt32)) == Some(DateTime(1901, 12, 13, 20, 45, 52))
  {
    var dt := DateTime(1901, 12, 13, 20, 45, 52);
    assert DaysBeforeYear(1901) == -25202;
    UnixTimeRendering(MinInt32, dt);
    ParseFormat(dt);
  }
}
