/**
 * The two time fields of the screen: the filter applied on every keystroke, the range test of
 * the confirm button, and the confirmed time string it stores.
 */
module TimeFields {
  import opened Wrappers
  import opened JsString
  import opened JsNumber

  /** The guard of handleHourChange and handleMinuteChange: at most two characters, and
      Number() of them is not NaN. */
  predicate FieldAccepted(s: string) {
    |s| <= 2 && NumberTenths(s).Some?
  }

  /** 23 hours and 59 minutes, in tenths. */
  const MaxHourTenths: int := 230
  const MaxMinuteTenths: int := 590

  /** 0 <= Number(field) <= max; a NaN fails every comparison. */
  predicate InRange(v: Option<int>, max: int) {
    v.Some? && 0 <= v.value <= max
  }

  /** The test of handleConfirm: 0 <= Number(hours) <= 23 and 0 <= Number(minutes) <= 59. */
  predicate TimeInRange(hours: string, minutes: string)
    requires |hours| <= 2 && |minutes| <= 2
  {
    InRange(NumberTenths(hours), MaxHourTenths) && InRange(NumberTenths(minutes), MaxMinuteTenths)
  }

  /** The template `${hours}:${minutes}`: the two fields as typed, with no padding. */
  function FormatTime(hours: string, minutes: string): string {
    hours + ":" + minutes
  }

  /** Reads a time string back into what precedes its first ':' and what follows it. */
  function SplitTime(t: string): (string, string) {
    var i := IndexOf(t, ':');
    (t[..i], if i < |t| then t[i + 1..] else [])
  }

  /** What the confirmed time can hold: nothing yet, or two accepted, in-range fields joined by ':'. */
  predicate ConfirmedTime(t: string) {
    t == [] ||
    var (h, m) := SplitTime(t);
    FieldAccepted(h) && FieldAccepted(m) && TimeInRange(h, m) && t == FormatTime(h, m)
  }

  /** The filter in both directions: a string passes exactly when it has at most two characters
      and, once trimmed, is empty or an ECMAScript decimal numeral. */
  lemma FieldAcceptedIffNumeral(s: string)
    ensures FieldAccepted(s) <==> |s| <= 2 && (Trim(s) == [] || DecimalLiteral(Trim(s)).Some?)
  {
    if |s| <= 2 {
      ShortNumeralMatchesGrammar(Trim(s));
    }
  }

  /** Every character of an accepted field is white space, a digit, a sign or a point. */
  lemma {:induction false} AcceptedFieldAlphabet(s: string)
    requires FieldAccepted(s)
    ensures forall i :: 0 <= i < |s| ==>
      IsWhite(s[i]) || IsDigit(s[i]) || s[i] == '+' || s[i] == '-' || s[i] == '.'
  {
    TrimSpec(s);
    var t := Trim(s);
    var k := |TrimEnd(s)| - |t|;
    forall i | 0 <= i < |s|
      ensures IsWhite(s[i]) || IsDigit(s[i]) || s[i] == '+' || s[i] == '-' || s[i] == '.'
    {
      if k <= i < k + |t| {
        assert s[i] == t[i - k];
      }
    }
  }

  /** An accepted field never contains ':', so the confirmed time splits back uniquely. */
  lemma AcceptedFieldHasNoColon(s: string)
    requires FieldAccepted(s)
    ensures ':' !in s
  {
    AcceptedFieldAlphabet(s);
  }

  /** SplitTime undoes FormatTime whenever the hours part contains no ':'. */
  lemma {:induction false} SplitFormatTime(hours: string, minutes: string)
    requires ':' !in hours
    ensures SplitTime(FormatTime(hours, minutes)) == (hours, minutes)
  {
    var t := FormatTime(hours, minutes);
    assert t[|hours|] == ':';
    assert forall j :: 0 <= j < |hours| ==> t[j] == hours[j];
    var i := IndexOf(t, ':');
    IndexOfSpec(t, ':');
    assert i == |hours|;
    assert t[..i] == hours;
    assert t[i + 1..] == minutes;
  }

  /** Confirming two accepted, in-range fields yields a time string of the confirmed form,
      from which both fields are recovered exactly. */
  lemma ConfirmedTimeOfFields(hours: string, minutes: string)
    requires FieldAccepted(hours) && FieldAccepted(minutes) && TimeInRange(hours, minutes)
    ensures ConfirmedTime(FormatTime(hours, minutes))
    ensures SplitTime(FormatTime(hours, minutes)) == (hours, minutes)
  {
    AcceptedFieldHasNoColon(hours);
    SplitFormatTime(hours, minutes);
  }

  /** At most two ASCII digits always pass the keystroke filter. */
  lemma DigitFieldAccepted(s: string)
    requires |s| <= 2 && AllDigits(s)
    ensures FieldAccepted(s)
  {
    DigitStringValue(s);
  }

  /** On digit fields the confirm test is the clock range, in both directions. */
  lemma DigitTimeInRange(hours: string, minutes: string)
    requires |hours| <= 2 && AllDigits(hours) && |minutes| <= 2 && AllDigits(minutes)
    ensures TimeInRange(hours, minutes) <==> DigitsValue(hours) <= 23 && DigitsValue(minutes) <= 59
  {
    DigitStringValue(hours);
    DigitStringValue(minutes);
    var hv, mv := 10 * DigitsValue(hours), 10 * DigitsValue(minutes);
    assert TimeInRange(hours, minutes) <==> 0 <= hv <= MaxHourTenths && 0 <= mv <= MaxMinuteTenths;
  }

  /** Two empty fields read as 0:0, pass the test, and confirm to the bare ":". */
  lemma EmptyFieldsConfirm()
    ensures FieldAccepted("") && TimeInRange("", "") && FormatTime("", "") == ":"
  {
    WhiteStringIsZero("");
  }

  /** Hour 25 is refused, whatever the minutes. */
  lemma HourTwentyFiveRefused(minutes: string)
    requires |minutes| <= 2
    ensures !TimeInRange("25", minutes)
  {
    DigitStringValue("25");
    assert DigitsValue("25") == 25 by { ShortDigitsValue("25"); }
  }

  /** Forms beyond plain digits that the filter admits: a signed zero and a half written ".5". */
  lemma SignedZeroAndHalf()
    ensures NumberTenths("-0") == Some(0) && NumberTenths(".5") == Some(5)
  {
    UnpaddedPair('-', '0');
    UnpaddedPair('.', '5');
  }

  /** The confirm test accepts them, and "-0:.5" is stored as a confirmed time. */
  lemma SignedZeroAndHalfConfirmed()
    ensures TimeInRange("-0", ".5") && ConfirmedTime(FormatTime("-0", ".5"))
  {
    SignedZeroAndHalf();
    ConfirmedTimeOfFields("-0", ".5");
  }

  /** An exponent or a hexadecimal prefix with no digits after it is refused. */
  lemma DanglingPrefixRefused()
    ensures !FieldAccepted("1e") && !FieldAccepted("0x")
  {
    UnpaddedPair('1', 'e');
    UnpaddedPair('0', 'x');
  }
}
