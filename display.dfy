/** The pure helpers of the desktop window: the countdown text, the duration
    text of the history report, and the rule that offers the
    finish-or-continue decision. Integers are rendered as Python's `str` and
    `:02d` render them; `divmod` by a positive divisor agrees with Dafny's
    `/` and `%`. */
module Display {
  import opened Backend

  // ---------------------------------------------------------------------
  // Decimal text

  predicate IsDigit(c: char) {
    '0' <= c <= '9'
  }

  predicate IsDigits(s: string) {
    forall k :: 0 <= k < |s| ==> IsDigit(s[k])
  }

  function DigitChar(d: nat): (c: char)
    requires d < 10
    ensures IsDigit(c) && (c as int) - ('0' as int) == d
  {
    ('0' as int + d) as char
  }

  /** Decimal digits of `n`, without leading zeros. */
  function NatToString(n: nat): string
    decreases n
  {
    if n < 10 then [DigitChar(n)] else NatToString(n / 10) + [DigitChar(n % 10)]
  }

  /** `str(n)` for a Python int. */
  function IntToString(n: int): string {
    if n < 0 then "-" + NatToString(-n) else NatToString(n)
  }

  /** The `:02d` format: pads to two characters with a leading zero. */
  function Pad2(s: string): string {
    if |s| < 2 then "0" + s else s
  }

  /** The number a string of decimal digits denotes. */
  function DigitsValue(s: string): nat
    requires IsDigits(s)
  {
    if s == [] then 0
    else DigitsValue(s[..|s| - 1]) * 10 + ((s[|s| - 1] as int) - ('0' as int))
  }

  lemma {:induction false} NatToStringReadsBack(n: nat)
    ensures |NatToString(n)| >= 1
    ensures IsDigits(NatToString(n))
    ensures DigitsValue(NatToString(n)) == n
    decreases n
  {
    var s := NatToString(n);
    if n >= 10 {
      NatToStringReadsBack(n / 10);
      assert s[..|s| - 1] == NatToString(n / 10);
    } else {
      assert s[..|s| - 1] == [];
    }
  }

  lemma {:induction false} LeadingZeroReadsBack(s: string)
    requires IsDigits(s)
    ensures IsDigits("0" + s) && DigitsValue("0" + s) == DigitsValue(s)
    decreases |s|
  {
    var t := "0" + s;
    if s != [] {
      LeadingZeroReadsBack(s[..|s| - 1]);
      assert t[..|t| - 1] == "0" + s[..|s| - 1];
    } else {
      assert t[..|t| - 1] == [];
    }
  }

  /** `:02d` of a number in 0..99 is exactly two digits that read back as it. */
  lemma Pad2ReadsBack(n: nat)
    ensures IsDigits(Pad2(NatToString(n))) && DigitsValue(Pad2(NatToString(n))) == n
    ensures n < 100 ==> |Pad2(NatToString(n))| == 2
  {
    NatToStringReadsBack(n);
    if |NatToString(n)| < 2 {
      LeadingZeroReadsBack(NatToString(n));
    }
    if n < 100 && n >= 10 {
      assert NatToString(n) == NatToString(n / 10) + [DigitChar(n % 10)];
    }
  }

  // ---------------------------------------------------------------------
  // Countdown text: `mins, secs = divmod(seconds, 60)`, `f"{mins:02d}:{secs:02d}"`

  function FormatTime(seconds: int): (r: string)
    ensures |r| >= 5 && r[|r| - 3] == ':'
  {
    var mins, secs := seconds / 60, seconds % 60;
    var left := Pad2(IntToString(mins));
    assert |left| >= 2;
    Pad2ReadsBack(secs);
    left + ":" + Pad2(IntToString(secs))
  }

  /** Reads `mm:ss` text back as a number of seconds. */
  function ReadClock(t: string): Option<int> {
    if |t| >= 4 && t[|t| - 3] == ':' && IsDigits(t[..|t| - 3]) && IsDigits(t[|t| - 2..])
    then Some(DigitsValue(t[..|t| - 3]) * 60 + DigitsValue(t[|t| - 2..]))
    else None
  }

  /** The countdown text of a non-negative number of seconds shows whole
      minutes and the remaining seconds below 60, each at least two digits,
      and reads back as the same number. */
  lemma FormatTimeReadsBack(seconds: nat)
    ensures ReadClock(FormatTime(seconds)) == Some(seconds)
    ensures var t := FormatTime(seconds);
            IsDigits(t[|t| - 2..]) && DigitsValue(t[|t| - 2..]) < 60
    ensures seconds < 6000 ==> |FormatTime(seconds)| == 5
  {
    var mins, secs := seconds / 60, seconds % 60;
    Pad2ReadsBack(mins);
    Pad2ReadsBack(secs);
    var left, right := Pad2(NatToString(mins)), Pad2(NatToString(secs));
    var t := FormatTime(seconds);
    assert t == left + ":" + right;
    assert t[..|t| - 3] == left;
    assert t[|t| - 2..] == right;
  }

  // ---------------------------------------------------------------------
  // Report duration: `hours, remainder = divmod(t, 3600)`, `mins = remainder // 60`

  function FormatDuration(totalSeconds: int): string {
    var hours, remainder := totalSeconds / 3600, totalSeconds % 3600;
    var mins := remainder / 60;
    if hours > 0 then IntToString(hours) + "h " + IntToString(mins) + "m"
    else IntToString(mins) + " min"
  }

  /** Position of the first `c` in `s`, or `|s|`. */
  function FirstIndex(s: string, c: char): (i: nat)
    ensures i <= |s| && (i < |s| ==> s[i] == c)
    ensures forall j :: 0 <= j < i ==> s[j] != c
  {
    if s == [] || s[0] == c then 0 else FirstIndex(s[1..], c) + 1
  }

  /** A non-empty run of digits, read as a number. */
  function ReadNumber(s: string): Option<int> {
    if |s| >= 1 && IsDigits(s) then Some(DigitsValue(s)) else None
  }

  /** Reads `"{h}h {m}"`, whose `h` stands at position `at`, as the fields (h, m). */
  function ReadHoursAt(u: string, at: nat): Option<(int, int)> {
    if at + 2 <= |u| && u[at + 1] == ' ' then HoursAndMinutes(ReadNumber(u[..at]), ReadNumber(u[at + 2..]))
    else None
  }

  function HoursAndMinutes(hours: Option<int>, mins: Option<int>): Option<(int, int)> {
    if hours.Some? && mins.Some? then Some((hours.value, mins.value)) else None
  }

  function ReadHours(u: string): Option<(int, int)> {
    ReadHoursAt(u, FirstIndex(u, 'h'))
  }

  /** The minutes-only form of the report text, `"{m} min"`. */
  predicate IsMinutesForm(t: string) {
    |t| > 4 && t[|t| - 4..] == " min"
  }

  /** Reads report text back as its (hours, minutes) fields; the minutes-only
      form shows 0 hours. */
  function ReadDuration(t: string): Option<(int, int)> {
    if IsMinutesForm(t) then HoursAndMinutes(Some(0), ReadNumber(t[..|t| - 4]))
    else if |t| >= 1 && t[|t| - 1] == 'm' then ReadHours(t[..|t| - 1])
    else None
  }

  lemma FirstIndexAfterDigits(ds: string, rest: string, c: char)
    requires IsDigits(ds) && !IsDigit(c) && |rest| >= 1 && rest[0] == c
    ensures FirstIndex(ds + rest, c) == |ds|
  {
    var u := ds + rest;
    assert u[|ds|] == c;
    assert forall j :: 0 <= j < |ds| ==> u[j] == ds[j];
  }

  lemma ReadHoursSplit(hs: string, ms: string)
    requires IsDigits(hs) && IsDigits(ms)
    ensures ReadHoursAt(hs + "h " + ms, |hs|) == HoursAndMinutes(ReadNumber(hs), ReadNumber(ms))
  {
    var u := hs + "h " + ms;
    var h := |hs|;
    assert u[..h] == hs;
    assert u[h + 2..] == ms;
    assert u[h + 1] == ' ';
  }

  lemma ReadHoursFindsSeparator(hs: string, ms: string)
    requires IsDigits(hs)
    ensures ReadHours(hs + "h " + ms) == ReadHoursAt(hs + "h " + ms, |hs|)
  {
    assert hs + "h " + ms == hs + ("h " + ms);
    FirstIndexAfterDigits(hs, "h " + ms, 'h');
  }

  lemma ReadHoursParts(hs: string, ms: string)
    requires IsDigits(hs) && IsDigits(ms)
    ensures ReadHours(hs + "h " + ms) == HoursAndMinutes(ReadNumber(hs), ReadNumber(ms))
  {
    ReadHoursSplit(hs, ms);
    ReadHoursFindsSeparator(hs, ms);
  }

  lemma ReadHoursText(hs: string, ms: string)
    requires IsDigits(hs) && IsDigits(ms) && |ms| >= 1
    ensures !IsMinutesForm(hs + "h " + ms + "m")
    ensures ReadDuration(hs + "h " + ms + "m") == HoursAndMinutes(ReadNumber(hs), ReadNumber(ms))
  {
    var t := hs + "h " + ms + "m";
    var n := |t|;
    assert t[n - 2] == ms[|ms| - 1];
    assert t[n - 4..][2] == t[n - 2];
    assert t[n - 4..] != " min";
    assert t[..n - 1] == hs + "h " + ms;
    ReadHoursParts(hs, ms);
  }

  /** The decimal text of `n` reads back as `n`. */
  lemma ReadNumberOfNat(n: nat)
    ensures ReadNumber(NatToString(n)) == Some(n)
  {
    NatToStringReadsBack(n);
  }

  lemma ReadMinutesText(ms: string)
    requires |ms| >= 1
    ensures IsMinutesForm(ms + " min")
    ensures ReadDuration(ms + " min") == HoursAndMinutes(Some(0), ReadNumber(ms))
  {
    var t := ms + " min";
    assert t[|t| - 4..] == " min";
    assert t[..|t| - 4] == ms;
  }

  /** The report text of a non-negative duration reads back as whole hours
      and the minutes below 60 that remain: `h * 3600 + m * 60` is the total
      with only the leftover seconds dropped. The minutes-only form is used
      exactly below one hour. */
  lemma FormatDurationReadsBack(totalSeconds: nat)
    ensures ReadDuration(FormatDuration(totalSeconds)) ==
              Some((totalSeconds / 3600, totalSeconds % 3600 / 60))
    ensures var r := ReadDuration(FormatDuration(totalSeconds));
            && r.Some?
            && 0 <= r.value.1 < 60
            && r.value.0 * 3600 + r.value.1 * 60 <= totalSeconds < r.value.0 * 3600 + r.value.1 * 60 + 60
            && r.value.0 * 60 + r.value.1 == totalSeconds / 60
    ensures IsMinutesForm(FormatDuration(totalSeconds)) <==> totalSeconds < 3600
  {
    var hours, mins := totalSeconds / 3600, totalSeconds % 3600 / 60;
    NatToStringReadsBack(hours);
    NatToStringReadsBack(mins);
    ReadNumberOfNat(hours);
    ReadNumberOfNat(mins);
    assert totalSeconds == hours * 3600 + totalSeconds % 3600;
    assert totalSeconds % 3600 == mins * 60 + totalSeconds % 3600 % 60;
    assert hours * 60 + mins == totalSeconds / 60;
    if hours > 0 {
      ReadHoursText(NatToString(hours), NatToString(mins));
    } else {
      ReadMinutesText(NatToString(mins));
    }
  }

  /** The report switches to hours exactly from one full hour on. */
  lemma FormatDurationShowsHours(totalSeconds: int)
    ensures (exists k :: 0 <= k < |FormatDuration(totalSeconds)| &&
                         FormatDuration(totalSeconds)[k] == 'h') <==> totalSeconds >= 3600
  {
    var hours, mins := totalSeconds / 3600, totalSeconds % 3600 / 60;
    var t := FormatDuration(totalSeconds);
    NatToStringReadsBack(mins);
    var ms := NatToString(mins);
    if hours > 0 {
      NatToStringReadsBack(hours);
      assert t[|NatToString(hours)|] == 'h';
    } else {
      assert IntToString(mins) == ms;
      assert t == ms + " min";
      forall k | 0 <= k < |t| ensures t[k] != 'h' {
        if k < |ms| {
          assert t[k] == ms[k] && IsDigit(ms[k]);
        }
      }
    }
  }

  // ---------------------------------------------------------------------
  // The decision rule after a finished pomodoro

  /** The window offers finish-or-continue when the cached subject has
      reached the cycle goal. */
  predicate ShowsDecision(data: Option<SubjectView>) {
    data.Some? && data.value.cycles >= CycleGoal
  }

  /** On a consistent table the decision is offered exactly when the active
      subject is COMPLETED. */
  lemma ShowsDecisionIffCompleted(rows: seq<StudyRow>, nextId: nat, day: Day)
    requires TableInvariant(rows, nextId)
    ensures ShowsDecision(CurrentSubjectOf(rows, day)) <==>
              CurrentSubjectOf(rows, day).Some? && CurrentSubjectOf(rows, day).value.status == Completed
  {
    if ActiveIndex(rows, day).Some? {
      var k := ActiveIndex(rows, day).value;
      assert StatusConsistent(rows[k]);
    }
  }
}
