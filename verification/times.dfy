/**
 Time-of-day arithmetic: parsing "HH:MM" wall-clock strings into day-minutes,
 formatting day-minutes back, and the segment-duration and transfer-waiting
 computations that wrap at midnight.

 The Java versions parse with `Integer.parseInt` on the two colon-separated
 fields and perform no range check; the Python version parses with
 `strptime(s, "%H:%M")` and therefore only ever yields a day-minute.
 */
module Times {
  import opened Results

  /** Minutes in one day: the wrap-around modulus of every time computation. */
  const MinutesPerDay: int := 24 * 60

  /** Range of a Java `int`, the bound `Integer.parseInt` checks. */
  const IntMin: int := -0x8000_0000
  const IntMax: int := 0x7fff_ffff

  /** The failure of parsing a time string; carries the offending text. */
  datatype TimeError = MalformedTime(text: string)

  /** A minute of the day, 00:00 through 23:59. */
  predicate IsDayMinute(m: int) {
    0 <= m < MinutesPerDay
  }

  // ---------------------------------------------------------------------------
  // Decimal digits
  // ---------------------------------------------------------------------------

  predicate IsDigit(c: char) {
    '0' <= c <= '9'
  }

  predicate AllDigits(s: string) {
    forall i :: 0 <= i < |s| ==> IsDigit(s[i])
  }

  function DigitValue(c: char): nat
    requires IsDigit(c)
  {
    c as int - '0' as int
  }

  function DigitChar(d: nat): (c: char)
    requires d < 10
    ensures IsDigit(c) && DigitValue(c) == d
  {
    ('0' as int + d) as char
  }

  /** The value of a string of decimal digits, most significant first. */
  function DigitsValue(s: string): nat
    requires AllDigits(s)
  {
    if |s| == 0 then 0 else DigitsValue(s[..|s| - 1]) * 10 + DigitValue(s[|s| - 1])
  }

  lemma DigitsValueAppend(s: string, c: char)
    requires AllDigits(s) && IsDigit(c)
    ensures AllDigits(s + [c]) && DigitsValue(s + [c]) == DigitsValue(s) * 10 + DigitValue(c)
  {
    assert (s + [c])[..|s|] == s;
  }

  /** The shortest decimal spelling of `n` (Python's `str(n)` for a natural). */
  function NatToDigits(n: nat): (s: string)
    ensures 1 <= |s| && AllDigits(s) && DigitsValue(s) == n
    ensures |s| == 1 <==> n < 10
    ensures |s| == 2 <==> 10 <= n < 100
  {
    if n < 10 then
      [DigitChar(n)]
    else
      var prefix := NatToDigits(n / 10);
      DigitsValueAppend(prefix, DigitChar(n % 10));
      prefix + [DigitChar(n % 10)]
  }

  /** Zero-padding to width two, as the `02d` format does. */
  function Pad2(s: string): string {
    if |s| < 2 then "0" + s else s
  }

  lemma Pad2Digits(n: nat)
    requires n < 100
    ensures |Pad2(NatToDigits(n))| == 2
    ensures AllDigits(Pad2(NatToDigits(n))) && DigitsValue(Pad2(NatToDigits(n))) == n
  {
    var s := NatToDigits(n);
    if |s| < 2 {
      assert Pad2(s) == ['0'] + s;
      DigitsValueAppend(['0'], s[0]);
      assert ['0'] + s == ['0'] + [s[0]];
      assert DigitsValue(['0']) == DigitsValue([]) * 10 + DigitValue('0');
    }
  }

  /** The index of the first occurrence of `c` in `s`, if any. */
  function IndexOf(s: string, c: char): (r: Option<nat>)
    ensures r.None? <==> c !in s
    ensures r.Some? ==> r.value < |s| && s[r.value] == c && c !in s[..r.value]
  {
    if |s| == 0 then None
    else if s[0] == c then Some(0)
    else
      match IndexOf(s[1..], c)
      case None => None
      case Some(i) =>
        assert s[..i + 1] == [s[0]] + s[1..][..i];
        Some(i + 1)
  }

  // ---------------------------------------------------------------------------
  // Java parsing (TimeUtil.timeToMinutes and its copy in TravelOptimizer)
  // ---------------------------------------------------------------------------

  /** `Integer.parseInt`: an optional sign followed by at least one decimal
      digit, whose value must fit in an `int`; anything else is rejected. */
  function ParseInt(s: string): (r: Option<int>)
    ensures r.Some? ==> IntMin <= r.value <= IntMax
  {
    if |s| > 0 && (s[0] == '-' || s[0] == '+') then
      var body := s[1..];
      if |body| > 0 && AllDigits(body) then
        var v: int := if s[0] == '-' then -(DigitsValue(body) as int) else DigitsValue(body);
        if IntMin <= v <= IntMax then Some(v) else None
      else None
    else if |s| > 0 && AllDigits(s) && DigitsValue(s) <= IntMax then
      Some(DigitsValue(s))
    else
      None
  }

  /** Digit strings within `int` range parse to their value, leading zeros included. */
  lemma ParseIntDigits(s: string)
    requires |s| > 0 && AllDigits(s) && DigitsValue(s) <= IntMax
    ensures ParseInt(s) == Some(DigitsValue(s))
  {
    assert IsDigit(s[0]);
  }

  /** The text of `t` before its first ':' (all of `t` when it has none):
      the second element of Java's `split(":")` once the first is cut off. */
  function FirstField(t: string): (r: string)
    ensures ':' !in r && r <= t
    ensures r == t || t[|r|] == ':'
  {
    match IndexOf(t, ':')
    case None => t
    case Some(j) => t[..j]
  }

  /** The fields `Integer.parseInt` accepts on either side of the colon. */
  predicate JavaFields(hourText: string, minuteText: string) {
    ParseInt(hourText).Some? && ParseInt(minuteText).Some?
  }

  /** `timeToMinutes`: splits on ':' and returns hours * 60 + minutes of the
      first two fields. A missing colon, an empty or non-numeric field fails;
      fields past the second are ignored and no range check is made. */
  function JavaTimeToMinutes(s: string): (r: Result<int, TimeError>)
    ensures ':' !in s ==> r.Err?
    ensures r.Ok? <==>
              && ':' in s
              && var i := IndexOf(s, ':').value; JavaFields(s[..i], FirstField(s[i + 1..]))
    ensures r.Err? ==> r.error == MalformedTime(s)
  {
    match IndexOf(s, ':')
    case None => Err(MalformedTime(s))
    case Some(i) =>
      var rest := s[i + 1..];
      var minuteText := match IndexOf(rest, ':')
        case None => rest
        case Some(j) => rest[..j];
      assert minuteText == FirstField(rest);
      match (ParseInt(s[..i]), ParseInt(minuteText))
      case (Some(h), Some(m)) => Ok(h * 60 + m)
      case _ => Err(MalformedTime(s))
  }

  /** A non-numeric field is rejected, as `Integer.parseInt` throws on it. */
  lemma JavaTimeRejectsLetters()
    ensures JavaTimeToMinutes("ab:cd").Err?
  {
    var s := "ab:cd";
    assert s[..2] == "ab" && !IsDigit('a');
    assert s[2] == ':' && ':' !in s[..2];
    assert "ab"[0] == 'a' && !AllDigits("ab");
    assert ParseInt(s[..2]).None?;
  }

  /** Two numeric fields joined by a colon yield hours * 60 + minutes, whatever
      follows a second colon; nothing restricts them to a day. */
  lemma JavaTimeOfFields(hourText: string, minuteText: string, tail: string, h: int, m: int)
    requires ParseInt(hourText) == Some(h) && ParseInt(minuteText) == Some(m)
    requires ':' !in hourText && ':' !in minuteText
    requires tail == [] || tail[0] == ':'
    ensures JavaTimeToMinutes(hourText + ":" + minuteText + tail) == Ok(h * 60 + m)
  {
    var s := hourText + ":" + minuteText + tail;
    var i := |hourText|;
    assert s[..i] == hourText;
    assert s[i] == ':';
    assert IndexOf(s, ':') == Some(i);
    assert s[i + 1..] == minuteText + tail;
    FirstFieldOf(minuteText, tail);
    JavaTimeAt(s, i, h, m);
  }

  /** The field after the first colon ends at the next colon or at the end. */
  lemma FirstFieldOf(field: string, tail: string)
    requires ':' !in field
    requires tail == [] || tail[0] == ':'
    ensures FirstField(field + tail) == field
  {
    var t := field + tail;
    if tail == [] {
      assert t == field;
    } else {
      assert t[..|field|] == field;
      assert t[|field|] == ':';
      assert IndexOf(t, ':') == Some(|field|);
    }
  }

  /** With the first colon at `i`, the value is read from the two fields around it. */
  lemma JavaTimeAt(s: string, i: nat, h: int, m: int)
    requires IndexOf(s, ':') == Some(i)
    requires ParseInt(s[..i]) == Some(h) && ParseInt(FirstField(s[i + 1..])) == Some(m)
    ensures JavaTimeToMinutes(s) == Ok(h * 60 + m)
  {
  }

  lemma ParseTwentyFive()
    ensures ParseInt("25") == Some(25)
  {
    ParseIntDigits("25");
    assert "25"[..1] == "2" && "2"[..0] == "";
  }

  lemma ParseZeroZero()
    ensures ParseInt("00") == Some(0)
  {
    ParseIntDigits("00");
    assert "00"[..1] == "0" && "0"[..0] == "";
  }

  /** "25:00" is accepted and gives 1500: the Java parser has no range check. */
  lemma JavaTimeAcceptsOutOfRange()
    ensures JavaTimeToMinutes("25:00") == Ok(1500)
  {
    ParseTwentyFive();
    ParseZeroZero();
    JavaTimeOfFields("25", "00", "", 25, 0);
    assert "25" + ":" + "00" + "" == "25:00";
  }

  // ---------------------------------------------------------------------------
  // Python parsing and formatting (main.py)
  // ---------------------------------------------------------------------------

  /** `time_to_minutes`, i.e. `strptime(s, "%H:%M")`: an hour of one or two
      digits in 0..23, a colon, a minute of one or two digits in 0..59, and
      nothing else. */
  function PyTimeToMinutes(s: string): (r: Result<int, TimeError>)
    ensures ':' !in s ==> r.Err?
    ensures r.Ok? ==> IsDayMinute(r.value)
    ensures r.Err? ==> r.error == MalformedTime(s)
  {
    match IndexOf(s, ':')
    case None => Err(MalformedTime(s))
    case Some(i) =>
      var hourText, minuteText := s[..i], s[i + 1..];
      if PyFields(hourText, minuteText)
      then Ok(DigitsValue(hourText) * 60 + DigitsValue(minuteText))
      else Err(MalformedTime(s))
  }

  /** The fields `%H:%M` accepts around the colon: an hour of one or two
      digits up to 23 and a minute of one or two digits up to 59. */
  predicate PyFields(hourText: string, minuteText: string) {
    && 1 <= |hourText| <= 2 && AllDigits(hourText) && DigitsValue(hourText) <= 23
    && 1 <= |minuteText| <= 2 && AllDigits(minuteText) && DigitsValue(minuteText) <= 59
  }

  /** Exactly the times with an in-range hour and minute field are accepted,
      with value hours * 60 + minutes. With the colon-free strings rejected,
      this decides every input. */
  lemma PyTimeOfFields(hourText: string, minuteText: string)
    ensures PyTimeToMinutes(hourText + ":" + minuteText).Ok? <==> PyFields(hourText, minuteText)
    ensures PyFields(hourText, minuteText) ==>
              PyTimeToMinutes(hourText + ":" + minuteText) == Ok(DigitsValue(hourText) * 60 + DigitsValue(minuteText))
  {
    var s := hourText + ":" + minuteText;
    var n := |hourText|;
    assert s[n] == ':';
    var i := IndexOf(s, ':').value;
    if ':' in hourText {
      assert i < n by {
        var k :| 0 <= k < n && hourText[k] == ':';
        assert s[k] == ':';
      }
      var rest := s[i + 1..];
      assert rest[n - i - 1] == ':';
      assert !AllDigits(rest);
      assert !PyFields(hourText, minuteText) by {
        var k :| 0 <= k < n && hourText[k] == ':';
        assert !IsDigit(hourText[k]);
      }
    } else {
      assert s[..n] == hourText;
      assert IndexOf(s, ':') == Some(n);
      assert s[n + 1..] == minuteText;
    }
  }

  /** "24:00" is rejected: unlike the Java parser, `%H` checks the hour's range. */
  lemma PyTimeRejectsHour24()
    ensures PyTimeToMinutes("24:00").Err?
  {
    DigitsValueAppend("", '2');
    DigitsValueAppend("2", '4');
    assert [] + ['2'] == "2" && "2" + ['4'] == "24";
    PyTimeOfFields("24", "00");
    assert "24" + ":" + "00" == "24:00";
  }

  /** "1:60" is rejected: `%M` checks the minute's range. */
  lemma PyTimeRejectsMinute60()
    ensures PyTimeToMinutes("1:60").Err?
  {
    DigitsValueAppend("", '6');
    DigitsValueAppend("6", '0');
    assert [] + ['6'] == "6" && "6" + ['0'] == "60";
    assert DigitsValue("60") == 60;
    assert !PyFields("1", "60");
    PyTimeOfFields("1", "60");
    assert "1" + ":" + "60" == "1:60";
  }

  /** Every string the Python parser accepts, the Java parser accepts too,
      with the same value; the converse fails (see `JavaTimeAcceptsOutOfRange`). */
  lemma PyTimeAgreesWithJava(s: string)
    requires PyTimeToMinutes(s).Ok?
    ensures JavaTimeToMinutes(s) == PyTimeToMinutes(s)
  {
    var i := IndexOf(s, ':').value;
    var hourText, minuteText := s[..i], s[i + 1..];
    assert ':' !in minuteText by {
      assert forall k :: 0 <= k < |minuteText| ==> IsDigit(minuteText[k]);
    }
    ParseIntDigits(hourText);
    ParseIntDigits(minuteText);
  }

  /** `minutes_to_time`: hours and minutes, each zero-padded to two digits. */
  function MinutesToTime(m: nat): string {
    Pad2(NatToDigits(m / 60)) + ":" + Pad2(NatToDigits(m % 60))
  }

  /** Formatting a day-minute gives five characters that both parsers read
      back as the same minute. */
  lemma MinutesToTimeRoundTrip(m: int)
    requires IsDayMinute(m)
    ensures |MinutesToTime(m)| == 5
    ensures PyTimeToMinutes(MinutesToTime(m)) == Ok(m)
    ensures JavaTimeToMinutes(MinutesToTime(m)) == Ok(m)
  {
    var hourText, minuteText := Pad2(NatToDigits(m / 60)), Pad2(NatToDigits(m % 60));
    Pad2Digits(m / 60);
    Pad2Digits(m % 60);
    var s := MinutesToTime(m);
    assert s == hourText + ":" + minuteText;
    assert s[..2] == hourText;
    assert s[2] == ':';
    assert ':' !in hourText by {
      assert IsDigit(hourText[0]) && IsDigit(hourText[1]);
    }
    assert IndexOf(s, ':') == Some(2);
    assert s[3..] == minuteText;
    assert PyTimeToMinutes(s) == Ok(m);
    PyTimeAgreesWithJava(s);
  }

  // ---------------------------------------------------------------------------
  // Durations and waiting times
  // ---------------------------------------------------------------------------

  /** `calculateDuration(dep, arr)` of the Java versions: minutes from
      departure to arrival, crossing midnight when arrival is earlier. */
  function Duration(departure: int, arrival: int): (d: int)
    ensures IsDayMinute(departure) && IsDayMinute(arrival) ==>
              IsDayMinute(d) && d == (arrival - departure) % MinutesPerDay
  {
    if arrival >= departure then arrival - departure else MinutesPerDay - departure + arrival
  }

  /** `calculateWaitingTime(arr, dep)` (Java and Python alike): minutes from
      one segment's arrival to the next one's departure, wrapping at midnight. */
  function WaitingTime(arrival: int, departure: int): (w: int)
    ensures IsDayMinute(arrival) && IsDayMinute(departure) ==>
              IsDayMinute(w) && w == (departure - arrival) % MinutesPerDay
    ensures arrival == departure ==> w == 0
  {
    if departure >= arrival then departure - arrival else MinutesPerDay - arrival + departure
  }

  /** The duration rule of main.py: arrival minus departure (each measured
      as the wait from midnight), plus a day when that is not positive. */
  function PyDuration(departure: int, arrival: int): (d: int)
    ensures IsDayMinute(departure) && IsDayMinute(arrival) ==>
              1 <= d <= MinutesPerDay && d == (arrival - departure - 1) % MinutesPerDay + 1
  {
    var d := WaitingTime(0, arrival) - WaitingTime(0, departure);
    if d <= 0 then d + MinutesPerDay else d
  }

  /** Both waiting time and duration compute "second minus first, wrapped". */
  lemma WaitingTimeIsDuration(x: int, y: int)
    ensures WaitingTime(x, y) == Duration(x, y)
  {
  }

  /** A same-time segment lasts 0 minutes in Java and a full day in Python;
      otherwise the two rules agree. */
  lemma PyDurationVersusJava(departure: int, arrival: int)
    requires IsDayMinute(departure) && IsDayMinute(arrival)
    ensures departure == arrival ==> Duration(departure, arrival) == 0 && PyDuration(departure, arrival) == MinutesPerDay
    ensures departure != arrival ==> PyDuration(departure, arrival) == Duration(departure, arrival)
  {
  }

  /** Going x -> y and back y -> x takes exactly one day, unless x == y. */
  lemma DurationThereAndBack(x: int, y: int)
    requires IsDayMinute(x) && IsDayMinute(y)
    ensures x != y ==> Duration(x, y) + Duration(y, x) == MinutesPerDay
    ensures x == y ==> Duration(x, y) + Duration(y, x) == 0
  {
  }

  /** A segment crossing midnight lasts 1440 - departure + arrival minutes. */
  lemma DurationAcrossMidnight(departure: int, arrival: int)
    requires IsDayMinute(departure) && IsDayMinute(arrival) && arrival < departure
    ensures Duration(departure, arrival) == MinutesPerDay - departure + arrival
  {
  }

  /** 23:00 -> 01:00 lasts 120 minutes. */
  lemma MidnightExample()
    ensures Duration(23 * 60, 1 * 60) == 120
  {
  }
}
