/** The test logger: a timestamp layout and the lines the logger writes. The clock is a
    parameter (the local-time components `Date` reports), and each method returns the
    line it would write to the console. */
module Logging {
  import opened Wrappers
  import opened Text

  /** The components of a local time as `Date`'s getters report them; `month` is
      zero-based, as `getMonth()` returns it. */
  datatype DateTime = DateTime(year: int, month: nat, day: nat, hours: nat, minutes: nat, seconds: nat)

  /** The ranges `Date`'s getters stay within. */
  predicate ValidDateTime(d: DateTime) {
    d.month <= 11 && 1 <= d.day <= 31 && d.hours <= 23 && d.minutes <= 59 && d.seconds <= 59
  }

  /** `String(n).padStart(2, '0')`. */
  function Pad2(n: nat): (r: string)
    ensures |r| >= 2 && AllDigits(r)
  {
    var s := DecimalDigits(n);
    if |s| < 2 then ['0'] + s else s
  }

  /** `formatDateTime`: `year-MM-DD HH:mm:ss`, the month printed one-based. */
  function FormatDateTime(d: DateTime): string {
    IntToString(d.year) + "-" + Pad2(d.month + 1) + "-" + Pad2(d.day) + " "
      + Pad2(d.hours) + ":" + Pad2(d.minutes) + ":" + Pad2(d.seconds)
  }

  /** The line `end()` writes. */
  function EndLine(now: DateTime): string {
    EndPrefix + FormatDateTime(now)
  }

  const EndPrefix := "Test finished at: "

  /** The line `log(message)` writes. */
  function LogLine(now: DateTime, message: string): string {
    "[" + FormatDateTime(now) + "] " + message
  }

  /** The line `logEncryptedKey(encryptedKey)` writes. */
  function EncryptedKeyLine(encryptedKey: string): string {
    "Encrypted Secret Key: " + encryptedKey
  }

  /** A logger: the test name and the time it was created, both set once by the
      constructor. No method has a `modifies` clause, so no method changes them. */
  class Logger {
    var testName: string
    var startTime: DateTime

    constructor(testName: string, now: DateTime)
      ensures this.testName == testName && this.startTime == now
    {
      this.testName := testName;
      this.startTime := now;
    }

    /** `end()`, at time `now`. */
    method End(now: DateTime) returns (line: string)
      ensures line == EndLine(now)
    {
      var formattedTime := FormatDateTime(now);
      line := "Test finished at: " + formattedTime;
    }

    /** `log(message)`, at time `now`. */
    method Log(now: DateTime, message: string) returns (line: string)
      ensures line == LogLine(now, message)
    {
      var timestamp := FormatDateTime(now);
      line := "[" + timestamp + "] " + message;
    }

    /** `logEncryptedKey(encryptedKey)`. */
    method LogEncryptedKey(encryptedKey: string) returns (line: string)
      ensures line == EncryptedKeyLine(encryptedKey)
    {
      line := "Encrypted Secret Key: " + encryptedKey;
    }
  }

  /** `createLogger(testName)`: a new logger; without a name the name is empty. */
  method CreateLogger(testName: Option<string>, now: DateTime) returns (logger: Logger)
    ensures fresh(logger)
    ensures logger.testName == (if testName.Some? then testName.value else "")
    ensures logger.startTime == now
  {
    logger := new Logger(if testName.Some? then testName.value else "", now);
  }

  // ---------------------------------------------------------------------------
  // Reading a timestamp back

  /** The components of a `YYYY-MM-DD HH:mm:ss` timestamp, if `t` has that layout and
      a month from 01 on. */
  function ParseTimestamp(t: string): Option<DateTime> {
    if |t| == 19 && t[4] == '-' && t[7] == '-' && t[10] == ' ' && t[13] == ':' && t[16] == ':'
      && AllDigits(t[0..4]) && AllDigits(t[5..7]) && AllDigits(t[8..10])
      && AllDigits(t[11..13]) && AllDigits(t[14..16]) && AllDigits(t[17..19])
      && DigitsValue(t[5..7]) >= 1
    then
      Some(DateTime(DigitsValue(t[0..4]), DigitsValue(t[5..7]) - 1, DigitsValue(t[8..10]),
        DigitsValue(t[11..13]), DigitsValue(t[14..16]), DigitsValue(t[17..19])))
    else None
  }

  /** The message of a line `log` writes, and its timestamp, if `line` has that shape. */
  function ParseLogLine(line: string): Option<(DateTime, string)> {
    if |line| >= 22 && line[0] == '[' && line[20..22] == "] " then
      match ParseTimestamp(line[1..20])
      case Some(d) => Some((d, line[22..]))
      case None => None
    else None
  }

  // ---------------------------------------------------------------------------
  // Properties

  /** Two digits for every value below 100: a leading `0` below 10, the value unchanged
      from 10 on; reading them back gives the value. */
  lemma Pad2Spec(n: nat)
    requires n < 100
    ensures |Pad2(n)| == 2 && DigitsValue(Pad2(n)) == n
    ensures n >= 10 ==> Pad2(n) == DecimalDigits(n)
    ensures n < 10 ==> Pad2(n) == ['0', DigitChar(n)]
  {
    DigitsValueOfDecimal(n);
    if n >= 10 {
      assert DecimalDigits(n) == DecimalDigits(n / 10) + [DigitChar(n % 10)];
    } else {
      var s := ['0'] + DecimalDigits(n);
      assert s[..1] == ['0'];
    }
  }

  /** A year from 1000 to 9999 has four digits. */
  lemma FourDigitYear(y: int)
    requires 1000 <= y <= 9999
    ensures |IntToString(y)| == 4 && IntToString(y) == DecimalDigits(y)
    ensures DigitsValue(IntToString(y)) == y
  {
    assert DecimalDigits(y) == DecimalDigits(y / 10) + [DigitChar(y % 10)];
    assert DecimalDigits(y / 10) == DecimalDigits(y / 100) + [DigitChar(y / 10 % 10)];
    assert DecimalDigits(y / 100) == DecimalDigits(y / 1000) + [DigitChar(y / 100 % 10)];
    DigitsValueOfDecimal(y);
  }

  /** With a four-digit year the timestamp is 19 characters long, `-`, ` ` and `:` at
      the separator positions and digits everywhere else. */
  lemma TimestampLayout(d: DateTime)
    requires ValidDateTime(d) && 1000 <= d.year <= 9999
    ensures var t := FormatDateTime(d);
      && |t| == 19
      && t[4] == '-' && t[7] == '-' && t[10] == ' ' && t[13] == ':' && t[16] == ':'
      && t[0..4] == IntToString(d.year) && t[5..7] == Pad2(d.month + 1) && t[8..10] == Pad2(d.day)
      && t[11..13] == Pad2(d.hours) && t[14..16] == Pad2(d.minutes) && t[17..19] == Pad2(d.seconds)
  {
    FourDigitYear(d.year);
    Pad2Spec(d.month + 1);
    Pad2Spec(d.day);
    Pad2Spec(d.hours);
    Pad2Spec(d.minutes);
    Pad2Spec(d.seconds);
    Layout(IntToString(d.year), Pad2(d.month + 1), Pad2(d.day), Pad2(d.hours), Pad2(d.minutes), Pad2(d.seconds));
  }

  /** Where the fields and separators of a four-digit-year timestamp lie. */
  lemma Layout(y: string, mo: string, dd: string, hh: string, mi: string, ss: string)
    requires |y| == 4 && |mo| == 2 && |dd| == 2 && |hh| == 2 && |mi| == 2 && |ss| == 2
    ensures var t := y + "-" + mo + "-" + dd + " " + hh + ":" + mi + ":" + ss;
      && |t| == 19
      && t[4] == '-' && t[7] == '-' && t[10] == ' ' && t[13] == ':' && t[16] == ':'
      && t[0..4] == y && t[5..7] == mo && t[8..10] == dd
      && t[11..13] == hh && t[14..16] == mi && t[17..19] == ss
  {
    var t := y + "-" + mo + "-" + dd + " " + hh + ":" + mi + ":" + ss;
    assert t[0..4] == y;
    assert t[5..7] == mo;
    assert t[8..10] == dd;
    assert t[11..13] == hh;
    assert t[14..16] == mi;
    assert t[17..19] == ss;
  }

  /** With a four-digit year, the components can be read back from the timestamp. */
  lemma TimestampRoundTrip(d: DateTime)
    requires ValidDateTime(d) && 1000 <= d.year <= 9999
    ensures ParseTimestamp(FormatDateTime(d)) == Some(d)
  {
    TimestampLayout(d);
    FourDigitYear(d.year);
    Pad2Spec(d.month + 1);
    Pad2Spec(d.day);
    Pad2Spec(d.hours);
    Pad2Spec(d.minutes);
    Pad2Spec(d.seconds);
  }

  /** The timestamp of a line `end` writes, if `line` has that shape. */
  function ParseEndLine(line: string): Option<DateTime> {
    if StartsWith(line, EndPrefix) then ParseTimestamp(line[|EndPrefix|..]) else None
  }

  /** The timestamp can be read back from a line `end` writes. */
  lemma EndLineRoundTrip(now: DateTime)
    requires ValidDateTime(now) && 1000 <= now.year <= 9999
    ensures ParseEndLine(EndLine(now)) == Some(now)
  {
    var line := EndLine(now);
    assert line[..|EndPrefix|] == EndPrefix;
    assert line[|EndPrefix|..] == FormatDateTime(now);
    TimestampRoundTrip(now);
  }

  /** The timestamp and the message can be read back from a line `log` writes. */
  lemma LogLineRoundTrip(now: DateTime, message: string)
    requires ValidDateTime(now) && 1000 <= now.year <= 9999
    ensures ParseLogLine(LogLine(now, message)) == Some((now, message))
  {
    TimestampLayout(now);
    TimestampRoundTrip(now);
    Bracketed(FormatDateTime(now), message);
  }

  /** Where the timestamp and the message lie in a line `log` writes. */
  lemma Bracketed(t: string, message: string)
    requires |t| == 19
    ensures var line := "[" + t + "] " + message;
      && |line| >= 22 && line[0] == '[' && line[1..20] == t
      && line[20..22] == "] " && line[22..] == message
  {
    var line := "[" + t + "] " + message;
    assert line[1..20] == t;
    assert line[20..22] == "] ";
    assert line[22..] == message;
  }

  /** The three line shapes start with their own fixed text, so each line tells which
      method wrote it, and the key and the message appear verbatim at the end. */
  lemma LineShapes(now: DateTime, message: string, key: string)
    ensures StartsWith(EndLine(now), "Test finished at: ")
    ensures StartsWith(LogLine(now, message), "[")
    ensures StartsWith(EncryptedKeyLine(key), "Encrypted Secret Key: ")
    ensures var line := LogLine(now, message); line[|line| - |message|..] == message
    ensures var line := EncryptedKeyLine(key); line[|line| - |key|..] == key
  {
    var line := LogLine(now, message);
    assert line == ("[" + FormatDateTime(now) + "] ") + message;
  }
}
