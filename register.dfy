/** The logic of the registration page: the acceptance-hour window, the
    day's access token and its comparison, the view the page chooses, and the
    validation of the form (durations on offer, name trimming). */
module Register {
  import opened Wrappers
  import opened Text

  /** `DURATIONS`: the only usage times the form offers, in minutes. */
  const Durations: seq<int> := [1, 3, 5]

  // ---------------------------------------------------------------------------
  // Acceptance hours

  /** `isWithinAcceptanceHours`: the clock reads 8:30 to 12:30, both included. */
  predicate IsWithinAcceptanceHours(hours: int, minutes: int)
  {
    var totalMinutes := hours * 60 + minutes;
    totalMinutes >= 8 * 60 + 30 && totalMinutes <= 12 * 60 + 30
  }

  /** In hours and minutes: from 8:30 and up to 12:30 inclusive. */
  lemma AcceptanceHoursByClock(hours: int, minutes: int)
    requires 0 <= hours < 24 && 0 <= minutes < 60
    ensures IsWithinAcceptanceHours(hours, minutes)
        <==> (hours > 8 || (hours == 8 && minutes >= 30)) && (hours < 12 || (hours == 12 && minutes <= 30))
  {
  }

  /** Both ends are in the window; the minute before and the minute after are not. */
  lemma AcceptanceHoursBoundaries()
    ensures IsWithinAcceptanceHours(8, 30) && IsWithinAcceptanceHours(12, 30)
    ensures !IsWithinAcceptanceHours(8, 29) && !IsWithinAcceptanceHours(12, 31)
  {
  }

  // ---------------------------------------------------------------------------
  // The access token

  /** The day's token `YYYY-MM-DD`: the year as written by `String`, then the
      1-based month and the day, each padded to two characters with '0'.
      `monthIndex` is 0-based, as `getMonth` returns it. */
  function TodayToken(year: nat, monthIndex: nat, day: nat): string
  {
    DecimalString(year) + "-" + PadStart2(DecimalString(monthIndex + 1)) + "-" + PadStart2(DecimalString(day))
  }

  /** `hasValidAccess`: the URL carries a token equal to the expected one. */
  predicate HasValidAccess(urlToken: Option<string>, expected: string)
  {
    urlToken == Some(expected)
  }

  /** For a real month and day, the token is the year's digits, a '-', exactly two
      digits that read back as the month, a '-', and exactly two digits that read
      back as the day. */
  lemma TokenShape(year: nat, monthIndex: nat, day: nat)
    requires monthIndex < 12 && 1 <= day <= 31
    ensures var t := TodayToken(year, monthIndex, day);
            var n := |DecimalString(year)|;
            && |t| == n + 6
            && t[..n] == DecimalString(year)
            && t[n] == '-' && t[n + 3] == '-'
            && AllDigits(t[n + 1..n + 3]) && DecimalValue(t[n + 1..n + 3]) == monthIndex + 1
            && AllDigits(t[n + 4..]) && DecimalValue(t[n + 4..]) == day
  {
    var y := DecimalString(year);
    var mm := PadStart2(DecimalString(monthIndex + 1));
    var dd := PadStart2(DecimalString(day));
    TwoDigitRoundTrip(monthIndex + 1);
    TwoDigitRoundTrip(day);
    DashedParts(y, mm, dd);
    var t := TodayToken(year, monthIndex, day);
    assert t == y + "-" + mm + "-" + dd;
    var n := |y|;
    assert t[n + 1..n + 3] == mm;
    assert t[n + 4..] == dd;
    assert DecimalValue(t[n + 1..n + 3]) == monthIndex + 1;
    assert DecimalValue(t[n + 4..]) == day;
    assert |t| == n + 6;
    assert t[..n] == DecimalString(year);
    assert t[n] == '-' && t[n + 3] == '-';
    assert AllDigits(t[n + 1..n + 3]) && AllDigits(t[n + 4..]);
  }

  /** Where the parts of `y-mm-dd` sit when `mm` and `dd` have two characters. */
  lemma DashedParts(y: string, mm: string, dd: string)
    requires |mm| == 2 && |dd| == 2
    ensures var t := y + "-" + mm + "-" + dd;
            var n := |y|;
            && |t| == n + 6
            && t[..n] == y && t[n] == '-' && t[n + 1..n + 3] == mm && t[n + 3] == '-' && t[n + 4..] == dd
  {
    var t := y + "-" + mm + "-" + dd;
    var n := |y|;
    assert t[..n] == y;
    assert t[n + 1..n + 3] == mm;
    assert t[n + 4..] == dd;
  }

  /** Different days have different tokens, so the token of any other day is
      refused: a code from yesterday does not open today's form. */
  lemma {:induction false} TokenInjective(y1: nat, m1: nat, d1: nat, y2: nat, m2: nat, d2: nat)
    requires m1 < 12 && 1 <= d1 <= 31 && m2 < 12 && 1 <= d2 <= 31
    requires TodayToken(y1, m1, d1) == TodayToken(y2, m2, d2)
    ensures y1 == y2 && m1 == m2 && d1 == d2
  {
    TokenShape(y1, m1, d1);
    TokenShape(y2, m2, d2);
    var t := TodayToken(y1, m1, d1);
    var n := |DecimalString(y1)|;
    assert n == |DecimalString(y2)|;
    assert DecimalString(y1) == t[..n] == DecimalString(y2);
    DecimalRoundTrip(y1);
    DecimalRoundTrip(y2);
  }

  /** Access is refused without a token, and with a token of any other day. */
  lemma AccessOnlyWithTodaysToken(year: nat, monthIndex: nat, day: nat, urlToken: Option<string>)
    requires monthIndex < 12 && 1 <= day <= 31
    ensures urlToken.None? ==> !HasValidAccess(urlToken, TodayToken(year, monthIndex, day))
    ensures forall y: nat, m: nat, d: nat {:trigger TodayToken(y, m, d)} ::
              m < 12 && 1 <= d <= 31 && (y, m, d) != (year, monthIndex, day) ==>
                !HasValidAccess(Some(TodayToken(y, m, d)), TodayToken(year, monthIndex, day))
  {
    forall y: nat, m: nat, d: nat | m < 12 && 1 <= d <= 31 && (y, m, d) != (year, monthIndex, day)
      ensures !HasValidAccess(Some(TodayToken(y, m, d)), TodayToken(year, monthIndex, day))
    {
      if TodayToken(y, m, d) == TodayToken(year, monthIndex, day) {
        TokenInjective(y, m, d, year, monthIndex, day);
      }
    }
  }

  /** The token for 5 January 2025. */
  lemma TokenExample()
    ensures TodayToken(2025, 0, 5) == "2025-01-05"
  {
    assert DecimalString(2025) == "2025" by {
      assert DecimalString(2) == "2";
      assert DecimalString(20) == "20";
      assert DecimalString(202) == "202";
    }
  }

  // ---------------------------------------------------------------------------
  // The view the page shows

  datatype View = NoAccess | OutOfHours | Form

  /** The page refuses a wrong token first, then the time outside the acceptance
      hours, and otherwise shows the form. */
  function RegisterView(hasValidAccess: bool, isAcceptanceTime: bool): View
  {
    if !hasValidAccess then NoAccess
    else if !isAcceptanceTime then OutOfHours
    else Form
  }

  /** `isAcceptanceTime` as the page sets it: fixed to true, not computed from the clock. */
  const IsAcceptanceTime := true

  /** With the acceptance flag fixed to true, the form is shown exactly when the
      token is right, at any time of day: the out-of-hours view never appears. */
  lemma FormDependsOnlyOnToken(urlToken: Option<string>, expected: string)
    ensures RegisterView(HasValidAccess(urlToken, expected), IsAcceptanceTime) != OutOfHours
    ensures RegisterView(HasValidAccess(urlToken, expected), IsAcceptanceTime) == Form
        <==> urlToken == Some(expected)
  {
  }

  // ---------------------------------------------------------------------------
  // Trimming and the form's validation

  /** The characters `String.prototype.trim` removes: the ECMAScript white space
      (tab, vertical tab, form feed, space, no-break space, the byte order mark
      and the other space separators) and the line terminators. */
  predicate IsSpace(c: char)
  {
    var u := c as int;
    u == 0x09 || u == 0x0B || u == 0x0C || u == 0x20 || u == 0xA0 || u == 0xFEFF
    || u == 0x1680 || (0x2000 <= u <= 0x200A) || u == 0x202F || u == 0x205F || u == 0x3000
    || u == 0x0A || u == 0x0D || u == 0x2028 || u == 0x2029
  }

  /** The number of white-space characters at the front of `s`. */
  function LeadingSpaces(s: string): (n: nat)
    ensures n <= |s|
    ensures forall k :: 0 <= k < n ==> IsSpace(s[k])
    ensures n < |s| ==> !IsSpace(s[n])
  {
    if s != [] && IsSpace(s[0]) then 1 + LeadingSpaces(s[1..]) else 0
  }

  /** The number of white-space characters at the back of `s`. */
  function TrailingSpaces(s: string): (n: nat)
    ensures n <= |s|
    ensures forall k :: |s| - n <= k < |s| ==> IsSpace(s[k])
    ensures n < |s| ==> !IsSpace(s[|s| - n - 1])
  {
    if s != [] && IsSpace(s[|s| - 1]) then 1 + TrailingSpaces(s[..|s| - 1]) else 0
  }

  /** `s.trim()`. */
  function Trim(s: string): string
  {
    var e := s[..|s| - TrailingSpaces(s)];
    e[LeadingSpaces(e)..]
  }

  /** What trimming yields: a contiguous piece of `s` with only white space cut
      around it, empty exactly when `s` is all white space, and otherwise beginning
      and ending with a character that is not white space. */
  lemma TrimSpec(s: string)
    ensures exists i, j :: 0 <= i <= j <= |s| && Trim(s) == s[i..j]
              && (forall k :: 0 <= k < i ==> IsSpace(s[k]))
              && (forall k :: j <= k < |s| ==> IsSpace(s[k]))
    ensures Trim(s) == [] <==> forall k :: 0 <= k < |s| ==> IsSpace(s[k])
    ensures Trim(s) != [] ==> !IsSpace(Trim(s)[0]) && !IsSpace(Trim(s)[|Trim(s)| - 1])
  {
    var j := |s| - TrailingSpaces(s);
    var e := s[..j];
    var i := LeadingSpaces(e);
    assert Trim(s) == s[i..j];
    if Trim(s) == [] {
      assert i == j;
      forall k | 0 <= k < |s| ensures IsSpace(s[k]) {
        if k < i { assert s[k] == e[k]; }
      }
    } else {
      assert Trim(s)[0] == e[i];
      assert Trim(s)[|Trim(s)| - 1] == s[j - 1];
      assert !IsSpace(s[|s| - TrailingSpaces(s) - 1]);
    }
  }

  /** Trimming twice is trimming once. */
  lemma TrimIdempotent(s: string)
    ensures Trim(Trim(s)) == Trim(s)
  {
    TrimSpec(s);
    var t := Trim(s);
    if t != [] {
      assert TrailingSpaces(t) == 0;
      assert t[..|t|] == t;
      assert LeadingSpaces(t) == 0;
    }
  }

  /** The outcome of `handleSubmit`: refused ("input missing"), or the request body. */
  datatype Submission = Rejected | Accepted(name: string, duration: int)

  /** `handleSubmit`'s checks: no duration chosen (a `null` or `0` selection is
      falsy) or a name that trims to nothing is refused; otherwise the trimmed
      name is sent with the chosen duration. */
  function HandleSubmit(selectedDuration: Option<int>, name: string): Submission
  {
    if !Truthy(selectedDuration) || Trim(name) == [] then Rejected
    else Accepted(Trim(name), selectedDuration.value)
  }

  /** The disabled state of the submit button. */
  predicate SubmitDisabled(selectedDuration: Option<int>, name: string)
  {
    !Truthy(selectedDuration) || |Trim(name)| == 0
  }

  /** The button is disabled exactly when a click would be refused, and a click
      that gets through sends a non-empty name with no white space at either end,
      and the chosen duration. */
  lemma SubmitMatchesButton(selectedDuration: Option<int>, name: string)
    ensures SubmitDisabled(selectedDuration, name) <==> HandleSubmit(selectedDuration, name).Rejected?
    ensures HandleSubmit(selectedDuration, name).Rejected?
        <==> selectedDuration.None? || selectedDuration.value == 0
             || forall k :: 0 <= k < |name| ==> IsSpace(name[k])
    ensures HandleSubmit(selectedDuration, name).Accepted? ==>
              var a := HandleSubmit(selectedDuration, name);
              && a.duration == selectedDuration.value
              && a.name != [] && !IsSpace(a.name[0]) && !IsSpace(a.name[|a.name| - 1])
              && Trim(a.name) == a.name
  {
    TrimSpec(name);
    TrimIdempotent(name);
  }

  /** Every duration the form offers passes the duration check, so a click on any
      offered duration is accepted exactly when the name is not all white space. */
  lemma OfferedDurationsAccepted(i: nat, name: string)
    requires i < |Durations|
    ensures Truthy(Some(Durations[i]))
    ensures HandleSubmit(Some(Durations[i]), name).Accepted?
        <==> exists k :: 0 <= k < |name| && !IsSpace(name[k])
    ensures forall d :: d in Durations <==> d == 1 || d == 3 || d == 5
  {
    TrimSpec(name);
  }
}
