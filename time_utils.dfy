/**
 * Durations in minutes and their "H:MM" rendering: `formatTime`,
 * `parseTimeToMinutes` and `convertTimeToMinutes` of src/utils/timeUtils.js,
 * and the hours/minutes fields of the time-entry popup that feed
 * `convertTimeToMinutes`-style arithmetic.
 */
module TimeUtils {
  import opened JsBuiltins

  /** `formatTime`: zero renders as "0:00"; otherwise the whole hours in
      decimal, a colon, and the remaining minutes padded to two digits. Read
      from the end: the last two characters are the minutes past the hour,
      the one before them a colon, and all before that the whole hours,
      with no leading zero. */
  function FormatTime(totalMinutes: nat): (r: string)
    ensures |r| >= 4 && r[|r| - 3] == ':'
    ensures IsDigits(r[..|r| - 3]) && ParseDigits(r[..|r| - 3]) == totalMinutes / 60
    ensures r[0] == '0' ==> |r| == 4
    ensures IsDigits(r[|r| - 2..]) && ParseDigits(r[|r| - 2..]) == totalMinutes % 60
  {
    var h, mm := HoursText(totalMinutes), MinutesText(totalMinutes);
    var r := if totalMinutes == 0 then "0:00" else h + ":" + mm;
    assert r == h + ":" + mm by {
      if totalMinutes == 0 {
        assert h == "0" && mm == "00";
      }
    }
    assert r[..|r| - 3] == h && r[|r| - 2..] == mm;
    r
  }

  /** The rendering, read field by field: exactly two colon-separated fields;
      the first is the number of whole hours, written without leading zeros
      (never padded), the second is exactly two digits holding the minutes
      left over. */
  lemma FormatTimeFields(m: nat)
    ensures var parts := Split(FormatTime(m), ':');
      && |parts| == 2
      && FormatTime(m) == parts[0] + ":" + parts[1]
      && IsDigits(parts[0]) && |parts[0]| >= 1 && (parts[0][0] == '0' ==> |parts[0]| == 1)
      && ParseDigits(parts[0]) == m / 60
      && IsDigits(parts[1]) && |parts[1]| == 2
      && ParseDigits(parts[1]) == m % 60
  {
    var h, mm := HoursText(m), MinutesText(m);
    FormatTimeJoins(m);
    assert FormatTime(m) == h + [':'] + mm;
    SplitDigitFields(h, ':', mm);
  }

  /** The rendering is the hours part, a colon and the minutes part, zero
      included. */
  lemma FormatTimeJoins(m: nat)
    ensures FormatTime(m) == HoursText(m) + ":" + MinutesText(m)
  {
    if m == 0 {
      assert HoursText(m) == "0" && MinutesText(m) == "00";
    }
  }

  /** The hours part of `FormatTime(m)`. */
  function HoursText(m: nat): (h: string)
    ensures IsDigits(h) && |h| >= 1 && (h[0] == '0' ==> |h| == 1)
    ensures ParseDigits(h) == m / 60
  {
    ParseNatToString(m / 60);
    NatToString(m / 60)
  }

  /** The minutes part of `FormatTime(m)`: always two digits. */
  function MinutesText(m: nat): (mm: string)
    ensures IsDigits(mm) && |mm| == 2
    ensures ParseDigits(mm) == m % 60
  {
    var s := NatToString(m % 60);
    ParseNatToString(m % 60);
    if |s| == 1 then
      assert PadStart(s, 2, '0') == ['0'] + s;
      ParseLeadingZero(s);
      PadStart(s, 2, '0')
    else
      PadStart(s, 2, '0')
  }

  /** Text `parseTimeToMinutes` can be given in this model: blank, or digits
      and colons only (so that every field is a decimal number or empty). */
  predicate IsTimeText(s: string) {
    forall i :: 0 <= i < |s| ==> IsDigit(s[i]) || s[i] == ':'
  }

  /** Every field of a digits-and-colons text is a digit string. */
  lemma TimeTextFields(s: string)
    requires IsTimeText(s)
    ensures forall i :: 0 <= i < |Split(s, ':')| ==> IsDigits(Split(s, ':')[i])
  {
    var parts := Split(s, ':');
    forall i, j | 0 <= i < |parts| && 0 <= j < |parts[i]| ensures IsDigit(parts[i][j]) {
      assert parts[i][j] in s && parts[i][j] != ':';
    }
  }

  /** `parseTimeToMinutes`: blank text is 0; otherwise the first field counts
      as hours and the second as minutes, an absent or empty field being 0. */
  function ParseTimeToMinutes(timeStr: string): (minutes: nat)
    requires IsBlank(timeStr) || IsTimeText(timeStr)
    ensures IsBlank(timeStr) ==> minutes == 0
  {
    if Trim(timeStr) == [] then 0
    else
      TimeTextFields(timeStr);
      var parts := Split(timeStr, ':');
      ParseDigits(parts[0]) * 60 + ParseDigits(if |parts| > 1 then parts[1] else "")
  }

  lemma NotBlankWithColon(a: string, b: string)
    ensures !IsBlank(a + ":" + b)
  {
    assert (a + ":" + b)[|a|] == ':';
  }

  /** "H:M" parses to H * 60 + M; the minutes are not range-checked, and
      either field may be empty. */
  lemma {:induction false} ParseHoursMinutes(h: string, mm: string)
    requires IsDigits(h) && IsDigits(mm)
    ensures IsTimeText(h + ":" + mm)
    ensures ParseTimeToMinutes(h + ":" + mm) == ParseDigits(h) * 60 + ParseDigits(mm)
  {
    var s := h + ":" + mm;
    assert IsTimeText(s) by {
      forall i | 0 <= i < |s| ensures IsDigit(s[i]) || s[i] == ':' {
        if i < |h| { assert s[i] == h[i]; }
        else if i > |h| { assert s[i] == mm[i - |h| - 1]; }
      }
    }
    NotBlankWithColon(h, mm);
    SplitDigitFields(h, ':', mm);
  }

  /** Fields after the second are ignored. */
  lemma {:induction false} ParseIgnoresLaterFields(h: string, mm: string, rest: string)
    requires IsDigits(h) && IsDigits(mm) && IsTimeText(rest)
    ensures IsTimeText(h + ":" + mm + ":" + rest)
    ensures ParseTimeToMinutes(h + ":" + mm + ":" + rest) == ParseDigits(h) * 60 + ParseDigits(mm)
  {
    var s := h + ":" + mm + ":" + rest;
    assert IsTimeText(s) by {
      forall i | 0 <= i < |s| ensures IsDigit(s[i]) || s[i] == ':' {
        if i < |h| { assert s[i] == h[i]; }
        else if |h| < i < |h| + 1 + |mm| { assert s[i] == mm[i - |h| - 1]; }
        else if i > |h| + 1 + |mm| { assert s[i] == rest[i - |h| - |mm| - 2]; }
      }
    }
    NotBlankWithColon(h, mm + ":" + rest);
    assert s == h + ":" + (mm + ":" + rest);
    DigitsHaveNoSeparator(h, ':');
    DigitsHaveNoSeparator(mm, ':');
    SplitFirst(h, ':', mm + ":" + rest);
    SplitFirst(mm, ':', rest);
  }

  /** Without a colon the whole text is the hours field. */
  lemma {:induction false} ParseHoursOnly(h: string)
    requires IsDigits(h) && h != []
    ensures IsTimeText(h)
    ensures ParseTimeToMinutes(h) == ParseDigits(h) * 60
  {
    assert !IsBlank(h) by { assert IsDigit(h[0]); }
    DigitsHaveNoSeparator(h, ':');
    SplitNoSeparator(h, ':');
  }

  /** Parsing what was formatted gives back the number of minutes. */
  lemma {:induction false} ParseFormatRoundTrip(m: nat)
    ensures IsTimeText(FormatTime(m))
    ensures ParseTimeToMinutes(FormatTime(m)) == m
  {
    FormatTimeFields(m);
    var parts := Split(FormatTime(m), ':');
    ParseHoursMinutes(parts[0], parts[1]);
  }

  /** `convertTimeToMinutes`: hours and minutes given as digit strings, an
      empty string standing for an absent part. Combining the two parts is
      parsing them joined by a colon. */
  function ConvertTimeToMinutes(hours: string, minutes: string): (total: nat)
    requires IsDigits(hours) && IsDigits(minutes)
    ensures IsTimeText(hours + ":" + minutes)
    ensures total == ParseTimeToMinutes(hours + ":" + minutes)
  {
    ParseHoursMinutes(hours, minutes);
    ParseDigits(hours) * 60 + ParseDigits(minutes)
  }

  /** The popup's hours field for a stored value: `Math.floor(value / 60)`,
      shown only when positive (Dafny's `/` by a positive divisor rounds
      down, as `Math.floor` does). */
  function HoursField(value: int): (s: string)
    ensures IsDigits(s)
    ensures s == [] <==> value < 60
    ensures s != [] ==> s[0] != '0'
    ensures ParseDigits(s) == if value < 0 then 0 else value / 60
  {
    if value / 60 > 0 then
      ParseNatToString(value / 60);
      NatToString(value / 60)
    else ""
  }

  /** The popup's minutes field: `value % 60`, shown only when positive.
      JavaScript's `%` takes the sign of the dividend, so a negative value
      never shows minutes. */
  function MinutesField(value: int): (s: string)
    ensures IsDigits(s)
    ensures s == [] <==> value <= 0 || value % 60 == 0
    ensures s != [] ==> s[0] != '0'
    ensures ParseDigits(s) == if value < 0 then 0 else value % 60
  {
    var rem := if value >= 0 then value % 60 else -((-value) % 60);
    if rem > 0 then
      ParseNatToString(rem);
      NatToString(rem)
    else ""
  }

  /** Opening the popup on a value and saving it unedited stores the same
      value; a negative value comes back as 0, since both fields start
      empty. */
  lemma {:induction false} PopupRoundTrip(value: int)
    ensures ConvertTimeToMinutes(HoursField(value), MinutesField(value)) == if value < 0 then 0 else value
  {
  }
}
