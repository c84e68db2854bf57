/** Times of day and the three textual forms the services use for them:
    - the `HH:MM` input pattern of the input types (an hour of one or two digits),
    - the `time` column, which reads such a string as a time of day,
    - the `HH:mm:ss` form the date library parses and formats.
    A time of day is a number of seconds after midnight. */
module Clock {
  import opened Results

  const SecondsPerMinute: nat := 60
  const SecondsPerHour: nat := 60 * SecondsPerMinute
  const SecondsPerDay: nat := 24 * SecondsPerHour

  /** Every slot and every booking lasts thirty minutes. */
  const SlotLength: nat := 30 * SecondsPerMinute

  predicate IsDigit(c: char) { '0' <= c <= '9' }

  function DigitValue(c: char): (d: nat)
    requires IsDigit(c)
    ensures d < 10
  {
    c as int - '0' as int
  }

  function DigitChar(d: nat): (c: char)
    requires d < 10
    ensures IsDigit(c) && DigitValue(c) == d
  {
    (d + '0' as int) as char
  }

  // ---------------------------------------------------------------------------
  // The input pattern  ^([0-1]?[0-9]|2[0-3]):[0-5][0-9]$

  /** The hour group `[0-1]?[0-9]|2[0-3]`. */
  predicate HourMatches(h: string)
  {
    || (|h| == 1 && IsDigit(h[0]))
    || (|h| == 2 && '0' <= h[0] <= '1' && IsDigit(h[1]))
    || (|h| == 2 && h[0] == '2' && '0' <= h[1] <= '3')
  }

  /** The minute part `[0-5][0-9]`. */
  predicate MinuteMatches(m: string)
  {
    |m| == 2 && '0' <= m[0] <= '5' && IsDigit(m[1])
  }

  /** The whole pattern, anchored at both ends. The minute part has two characters,
      so the length of the string fixes where the colon stands. */
  predicate MatchesTimePattern(s: string)
  {
    || (|s| == 4 && s[1] == ':' && HourMatches(s[..1]) && MinuteMatches(s[2..]))
    || (|s| == 5 && s[2] == ':' && HourMatches(s[..2]) && MinuteMatches(s[3..]))
  }

  // ---------------------------------------------------------------------------
  // Reading numbers out of strings

  /** Position of the first `c` in `s`. */
  function IndexOf(s: string, c: char): (r: Option<nat>)
    ensures r.Some? ==> r.value < |s| && s[r.value] == c && c !in s[..r.value]
    ensures r.None? ==> c !in s
  {
    if |s| == 0 then None
    else if s[0] == c then Some(0)
    else
      match IndexOf(s[1..], c)
      case None => None
      case Some(k) =>
        assert s[..k + 1] == [s[0]] + s[1..][..k];
        Some(k + 1)
  }

  lemma IndexOfIs(s: string, c: char, k: nat)
    requires k < |s| && s[k] == c && c !in s[..k]
    ensures IndexOf(s, c) == Some(k)
  {
    assert s[k] in s;
    var v := IndexOf(s, c).value;
    assert forall i | 0 <= i < k :: s[..k][i] == s[i];
    assert forall i | 0 <= i < v :: s[..v][i] == s[i];
  }

  /** A field of one or two digits, as the date library reads `HH`, `mm` and `ss`. */
  function ShortNumber(s: string): (r: Option<nat>)
    ensures r.Some? ==> r.value < 100
  {
    if |s| == 1 && IsDigit(s[0]) then Some(DigitValue(s[0]))
    else if |s| == 2 && IsDigit(s[0]) && IsDigit(s[1]) then Some(10 * DigitValue(s[0]) + DigitValue(s[1]))
    else None
  }

  /** The time of day the `time` column reads from an `H:MM` or `HH:MM` string:
      an hour below 24, a colon, and a two-digit minute below 60. */
  function ParseHHMM(s: string): (r: Option<nat>)
    ensures r.Some? ==> r.value < SecondsPerDay && r.value % SecondsPerMinute == 0
  {
    match IndexOf(s, ':')
    case None => None
    case Some(k) =>
      var h := ShortNumber(s[..k]);
      var m := s[k + 1..];
      if h.Some? && h.value < 24 && |m| == 2 && ShortNumber(m).Some? && ShortNumber(m).value < 60
      then Some(h.value * SecondsPerHour + ShortNumber(m).value * SecondsPerMinute)
      else None
  }

  /** The date library's `parse(s, 'HH:mm:ss')`: three colon-separated fields of one
      or two digits, hour below 24, minute and second below 60. */
  function ParseClock(s: string): (r: Option<nat>)
    ensures r.Some? ==> r.value < SecondsPerDay
  {
    match IndexOf(s, ':')
    case None => None
    case Some(i) =>
      var rest := s[i + 1..];
      match IndexOf(rest, ':')
      case None => None
      case Some(j) =>
        var h := ShortNumber(s[..i]);
        var m := ShortNumber(rest[..j]);
        var sec := ShortNumber(rest[j + 1..]);
        if h.Some? && m.Some? && sec.Some? && h.value < 24 && m.value < 60 && sec.value < 60
        then Some(h.value * SecondsPerHour + m.value * SecondsPerMinute + sec.value)
        else None
  }

  /** Two digits, zero-padded. */
  function Pad2(n: nat): (s: string)
    requires n < 100
    ensures |s| == 2 && IsDigit(s[0]) && IsDigit(s[1])
    ensures ShortNumber(s) == Some(n)
  {
    [DigitChar(n / 10), DigitChar(n % 10)]
  }

  /** The date library's `format(t, 'HH:mm:ss')`. */
  function FormatClock(t: nat): (s: string)
    requires t < SecondsPerDay
    ensures |s| == 8 && s[2] == ':' && s[5] == ':'
  {
    var withinHour := t % SecondsPerHour;
    Pad2(t / SecondsPerHour) + ":" + Pad2(withinHour / SecondsPerMinute) + ":" + Pad2(withinHour % SecondsPerMinute)
  }

  // ---------------------------------------------------------------------------
  // JavaScript string comparison

  /** `a <= b` on JavaScript strings: lexicographic order by character code. */
  predicate LexLe(a: string, b: string)
    decreases |a|
  {
    if |a| == 0 then true
    else if |b| == 0 then false
    else if a[0] != b[0] then a[0] < b[0]
    else LexLe(a[1..], b[1..])
  }

  // ---------------------------------------------------------------------------
  // Properties

  /** A pattern-matching string is read by the `time` column as the hour and minute it spells. */
  lemma PatternIsReadable(s: string)
    requires MatchesTimePattern(s)
    ensures ParseHHMM(s).Some?
  {
    var k := if |s| == 4 then 1 else 2;
    assert ':' !in s[..k];
    IndexOfIs(s, ':', k);
  }

  /** A string the `time` column reads in the `H:MM`/`HH:MM` form passes the pattern. */
  lemma ReadableMatchesPattern(s: string)
    requires ParseHHMM(s).Some?
    ensures MatchesTimePattern(s)
  {
    var k := IndexOf(s, ':').value;
    var m := s[k + 1..];
    assert |s| == k + 3;
    assert ShortNumber(m).value == 10 * DigitValue(m[0]) + DigitValue(m[1]);
    assert MinuteMatches(m);
    if k == 1 {
      assert s[..1] == [s[0]];
      assert HourMatches(s[..1]);
    } else {
      assert k == 2;
      assert s[..2] == [s[0], s[1]];
      assert ShortNumber(s[..k]).value == 10 * DigitValue(s[0]) + DigitValue(s[1]);
      assert HourMatches(s[..2]);
    }
  }

  /** The input pattern accepts exactly the strings the `time` column can read in the
      `H:MM`/`HH:MM` form: hours 0 to 23, with or without a leading zero, and
      minutes 00 to 59. */
  lemma PatternIffReadable(s: string)
    ensures MatchesTimePattern(s) <==> ParseHHMM(s).Some?
  {
    if MatchesTimePattern(s) {
      PatternIsReadable(s);
    }
    if ParseHHMM(s).Some? {
      ReadableMatchesPattern(s);
    }
  }

  /** Parsing three well-formed fields. */
  lemma ParseClockFields(h: nat, m: nat, sec: nat)
    requires h < 24 && m < 60 && sec < 60
    ensures ParseClock(Pad2(h) + ":" + Pad2(m) + ":" + Pad2(sec)) == Some(h * SecondsPerHour + m * SecondsPerMinute + sec)
  {
    var s := Pad2(h) + ":" + Pad2(m) + ":" + Pad2(sec);
    assert s[..2] == Pad2(h);
    assert ':' !in s[..2];
    IndexOfIs(s, ':', 2);
    var rest := s[3..];
    assert rest == Pad2(m) + ":" + Pad2(sec);
    assert rest[..2] == Pad2(m) && rest[3..] == Pad2(sec);
    assert ':' !in rest[..2];
    IndexOfIs(rest, ':', 2);
  }

  /** Formatting a time of day and parsing it back gives the same time, so two times
      are equal exactly when their `HH:mm:ss` strings are. */
  lemma ClockRoundTrip(t: nat)
    requires t < SecondsPerDay
    ensures ParseClock(FormatClock(t)) == Some(t)
  {
    var withinHour := t % SecondsPerHour;
    var h, m, sec := t / SecondsPerHour, withinHour / SecondsPerMinute, withinHour % SecondsPerMinute;
    ClockFieldsOf(t);
    assert FormatClock(t) == Pad2(h) + ":" + Pad2(m) + ":" + Pad2(sec);
    ParseClockFields(h, m, sec);
  }

  /** The hour, minute and second fields of a time of day, and how they add up to it. */
  lemma ClockFieldsOf(t: nat)
    requires t < SecondsPerDay
    ensures t / SecondsPerHour < 24
    ensures (t % SecondsPerHour) / SecondsPerMinute < 60 && (t % SecondsPerHour) % SecondsPerMinute < 60
    ensures t == (t / SecondsPerHour) * SecondsPerHour
                 + ((t % SecondsPerHour) / SecondsPerMinute) * SecondsPerMinute
                 + (t % SecondsPerHour) % SecondsPerMinute
  {
    var withinHour := t % SecondsPerHour;
    assert t == (t / SecondsPerHour) * SecondsPerHour + withinHour;
    assert withinHour == (withinHour / SecondsPerMinute) * SecondsPerMinute + withinHour % SecondsPerMinute;
  }

  lemma FormatClockInjective(t: nat, u: nat)
    requires t < SecondsPerDay && u < SecondsPerDay
    ensures FormatClock(t) == FormatClock(u) <==> t == u
  {
    ClockRoundTrip(t);
    ClockRoundTrip(u);
  }

  /** The `HH:mm:ss` parser needs a second colon after the first. */
  lemma ParseClockNeedsTwoColons(s: string, k: nat)
    requires IndexOf(s, ':') == Some(k) && ':' !in s[k + 1..]
    ensures ParseClock(s).None?
  {
  }

  /** A string that passes the `HH:MM` pattern has one colon, so `parse(s, 'HH:mm:ss')`
      never reads it; and the `HH:mm:ss` strings the parser reads never pass the pattern. */
  lemma PatternNeverParsesAsClock(s: string)
    ensures MatchesTimePattern(s) ==> ParseClock(s).None?
    ensures ParseClock(s).Some? ==> !MatchesTimePattern(s)
  {
    if MatchesTimePattern(s) {
      var k := if |s| == 4 then 1 else 2;
      assert ':' !in s[..k];
      IndexOfIs(s, ':', k);
      assert s[k + 1..] == [s[k + 1], s[k + 2]];
      ParseClockNeedsTwoColons(s, k);
    }
  }

  /** Examples: two-digit and one-digit hours are accepted; hour 24, minute 60 and a
      seconds suffix are rejected. */
  lemma PatternExamples()
    ensures MatchesTimePattern("09:30") && MatchesTimePattern("23:59")
    ensures MatchesTimePattern("00:00") && MatchesTimePattern("9:30")
    ensures !MatchesTimePattern("24:00") && !MatchesTimePattern("12:60")
    ensures !MatchesTimePattern("09:30:00") && !MatchesTimePattern("930")
  {
    assert "09:30"[..2] == "09" && "09:30"[3..] == "30";
    assert "23:59"[..2] == "23" && "23:59"[3..] == "59";
    assert "00:00"[..2] == "00" && "00:00"[3..] == "00";
    assert "9:30"[..1] == "9" && "9:30"[2..] == "30";
    assert "24:00"[..2] == "24";
    assert "12:60"[3..] == "60";
  }

  /** Ordering of two digit strings of the same length follows the numbers. */
  lemma DigitPairOrder(a0: nat, a1: nat, b0: nat, b1: nat)
    requires a0 < 10 && a1 < 10 && b0 < 10 && b1 < 10
    ensures 10 * a0 + a1 <= 10 * b0 + b1 <==> a0 < b0 || (a0 == b0 && a1 <= b1)
  {
  }

  lemma LexLeUnfold(a: string, b: string)
    requires |a| > 0 && |b| > 0
    ensures LexLe(a, b) == if a[0] != b[0] then a[0] < b[0] else LexLe(a[1..], b[1..])
  {
  }

  /** The value of a zero-padded `HH:MM` string, digit by digit. */
  lemma ZeroPaddedValue(a: string)
    requires |a| == 5 && MatchesTimePattern(a)
    ensures ParseHHMM(a) == Some((10 * DigitValue(a[0]) + DigitValue(a[1])) * SecondsPerHour
                                 + (10 * DigitValue(a[3]) + DigitValue(a[4])) * SecondsPerMinute)
  {
    assert ':' !in a[..2];
    IndexOfIs(a, ':', 2);
    assert a[..2] == [a[0], a[1]];
    assert a[3..] == [a[3], a[4]];
  }

  /** Lexicographic order on two strings of the shape `dd:dd` compares the four digits in turn. */
  lemma LexLeFiveChars(a: string, b: string)
    requires |a| == 5 && |b| == 5 && a[2] == ':' && b[2] == ':'
    ensures LexLe(a, b) <==>
      if a[0] != b[0] then a[0] < b[0]
      else if a[1] != b[1] then a[1] < b[1]
      else if a[3] != b[3] then a[3] < b[3]
      else a[4] <= b[4]
  {
    LexLeUnfold(a, b);
    LexLeUnfold(a[1..], b[1..]);
    LexLeUnfold(a[2..], b[2..]);
    LexLeUnfold(a[3..], b[3..]);
    LexLeUnfold(a[4..], b[4..]);
    assert a[1..][1..] == a[2..] && b[1..][1..] == b[2..];
    assert a[2..][1..] == a[3..] && b[2..][1..] == b[3..];
    assert a[3..][1..] == a[4..] && b[3..][1..] == b[4..];
    assert |a[4..][1..]| == 0;
  }

  /** Hours-and-minutes order: the hour decides unless it is equal. */
  lemma HourMinuteOrder(ha: nat, ma: nat, hb: nat, mb: nat)
    requires ma < 60 && mb < 60
    ensures ha * SecondsPerHour + ma * SecondsPerMinute <= hb * SecondsPerHour + mb * SecondsPerMinute
            <==> ha < hb || (ha == hb && ma <= mb)
  {
  }

  /** Lexicographic comparison of two zero-padded `HH:MM` strings agrees with the
      order of the times they denote. */
  lemma ZeroPaddedLexOrder(a: string, b: string)
    requires |a| == 5 && |b| == 5 && MatchesTimePattern(a) && MatchesTimePattern(b)
    ensures ParseHHMM(a).Some? && ParseHHMM(b).Some?
    ensures LexLe(a, b) <==> ParseHHMM(a).value <= ParseHHMM(b).value
  {
    ZeroPaddedValue(a);
    ZeroPaddedValue(b);
    LexLeFiveChars(a, b);
    var a0, a1, a3, a4 := DigitValue(a[0]), DigitValue(a[1]), DigitValue(a[3]), DigitValue(a[4]);
    var b0, b1, b3, b4 := DigitValue(b[0]), DigitValue(b[1]), DigitValue(b[3]), DigitValue(b[4]);
    DigitPairOrder(a0, a1, b0, b1);
    DigitPairOrder(a3, a4, b3, b4);
    HourMinuteOrder(10 * a0 + a1, 10 * a3 + a4, 10 * b0 + b1, 10 * b3 + b4);
  }

  /** With a one-digit hour the lexicographic order departs from time order:
      "10:00" sorts before "9:30" although ten o'clock comes after half past nine. */
  lemma SingleDigitHourBreaksLexOrder()
    ensures MatchesTimePattern("10:00") && MatchesTimePattern("9:30")
    ensures LexLe("10:00", "9:30")
    ensures ParseHHMM("10:00") == Some(36000) && ParseHHMM("9:30") == Some(34200)
  {
    assert "10:00"[..2] == "10" && "10:00"[3..] == "00";
    assert "9:30"[..1] == "9" && "9:30"[2..] == "30";
    assert ':' !in "10:00"[..2];
    IndexOfIs("10:00", ':', 2);
    assert ':' !in "9:30"[..1];
    IndexOfIs("9:30", ':', 1);
  }
}
