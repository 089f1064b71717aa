/**
 The `m:ss` track-length codec of the edit dialog: a printer from
 milliseconds to text and a parser back. Printing then parsing gives the
 milliseconds rounded down to a whole second.
 */
module Duration {
  import opened Base
  import opened Text

  /** Whole minutes, and seconds past the whole minutes, in a non-negative duration. */
  lemma ClockArithmetic(ms: nat)
    ensures ms / 60_000 == (ms / 1000) / 60
    ensures (ms / 60_000) * 60_000 + ((ms / 1000) % 60) * 1000 == ms - ms % 1000
    ensures (ms - ms % 1000) / 1000 == ms / 1000
  {
    var q := ms / 1000;
    var sub := ms % 1000;
    var minutes := q / 60;
    var seconds := q % 60;
    assert ms == 60_000 * minutes + 1000 * seconds + sub;
    assert ms - sub == 1000 * q;
  }

  /**
   The printed form `{minutes}:{seconds:D2}`, as both the dialog and the grid
   converter write it.
   */
  function MinutesSeconds(minutes: nat, seconds: nat): string
  {
    NatToDecimal(minutes) + ":" + PadTwo(seconds)
  }

  /**
   `r` reads as `minutes`, a colon, then exactly two digits giving `seconds`;
   the minutes have no leading zero.
   */
  predicate ReadsAs(r: string, minutes: nat, seconds: nat)
  {
    && |r| >= 4
    && r[|r| - 3] == ':'
    && AllSatisfy(r[..|r| - 3], IsDigit) && DigitsValue(r[..|r| - 3]) == minutes
    && (|r| > 4 ==> r[0] != '0')
    && AllSatisfy(r[|r| - 2..], IsDigit) && DigitsValue(r[|r| - 2..]) == seconds
  }

  lemma MinutesSecondsReadsAs(minutes: nat, seconds: nat)
    requires seconds < 60
    ensures ReadsAs(MinutesSeconds(minutes, seconds), minutes, seconds)
  {
    var a := NatToDecimal(minutes);
    var b := PadTwo(seconds);
    var r := a + ":" + b;
    assert r[..|r| - 3] == a;
    assert r[|r| - 2..] == b;
  }

  /**
   The dialog's printer: nothing for a negative length, otherwise whole
   minutes, a colon and two-digit seconds.
   */
  function FormatMsToMmSs(ms: Int32): (r: string)
    ensures ms < 0 <==> r == ""
    ensures ms >= 0 ==> ReadsAs(r, ms / 60_000, (ms / 1000) % 60)
  {
    if ms < 0 then ""
    else
      MinutesSecondsReadsAs(ms / 60_000, (ms / 1000) % 60);
      MinutesSeconds(ms / 60_000, (ms / 1000) % 60)
  }

  /** A non-negative length rounded down to a whole second. */
  function FloorToSecond(ms: Int32): (r: Int32)
    requires ms >= 0
  {
    ms - ms % 1000
  }

  /** The parser's result: a success flag and the out-parameter, which stays 0 on failure. */
  datatype Parsed = Parsed(ok: bool, milliseconds: Int32)

  /**
   The two integer fields of the input: present when the input is not blank
   and, once trimmed, splits on ':' into exactly two pieces that each parse
   as an `int`.
   */
  function Fields(input: Option<string>): (r: Option<(int, int)>)
    ensures IsNullOrWhiteSpace(input) ==> r.None?
    ensures !IsNullOrWhiteSpace(input) && |Split(Trim(input.value), ':')| != 2 ==> r.None?
    ensures r.Some? ==>
      var parts := Split(Trim(input.value), ':');
      && |parts| == 2
      && ParseInt32(parts[0]) == Some(r.value.0)
      && ParseInt32(parts[1]) == Some(r.value.1)
    ensures !IsNullOrWhiteSpace(input) ==>
      var parts := Split(Trim(input.value), ':');
      |parts| == 2 && ParseInt32(parts[0]).Some? && ParseInt32(parts[1]).Some? ==> r.Some?
  {
    if IsNullOrWhiteSpace(input) then None
    else
      var parts := Split(Trim(input.value), ':');
      if |parts| != 2 then None
      else
        var minutes := ParseInt32(parts[0]);
        var seconds := ParseInt32(parts[1]);
        if minutes.Some? && seconds.Some? then Some((minutes.value, seconds.value)) else None
  }

  /** The milliseconds that `minutes:seconds` denotes. */
  function Total(minutes: int, seconds: int): int
  {
    minutes * 60_000 + seconds * 1000
  }

  /** Are these fields a length the dialog accepts? */
  predicate Acceptable(minutes: int, seconds: int)
  {
    minutes >= 0 && 0 <= seconds <= 59 && Total(minutes, seconds) <= IntMax
  }

  /** An accepted length is a non-negative `int`. */
  lemma AcceptableInRange(minutes: int, seconds: int)
    requires Acceptable(minutes, seconds)
    ensures 0 <= Total(minutes, seconds) <= IntMax
  {
  }

  /**
   The dialog's parser. Blank text, text that does not split on ':' into two
   integers, negative fields, more than 59 seconds and a total beyond the
   `int` range are refused with 0; otherwise the result is the number of
   milliseconds the fields denote.
   */
  function TryParseMmSsToMs(input: Option<string>): (r: Parsed)
    ensures !r.ok ==> r.milliseconds == 0
    ensures Fields(input).None? ==> !r.ok
    ensures Fields(input).Some? ==> (r.ok <==> Acceptable(Fields(input).value.0, Fields(input).value.1))
    ensures r.ok ==> Fields(input).Some? && r.milliseconds == Total(Fields(input).value.0, Fields(input).value.1)
  {
    FromFields(Fields(input))
  }

  /** The parser's verdict on the fields it found, if any. */
  function FromFields(fields: Option<(int, int)>): (r: Parsed)
    ensures !r.ok ==> r.milliseconds == 0
    ensures r.ok <==> fields.Some? && Acceptable(fields.value.0, fields.value.1)
    ensures r.ok ==> r.milliseconds == Total(fields.value.0, fields.value.1)
  {
    if fields.Some? && Acceptable(fields.value.0, fields.value.1) then
      AcceptableInRange(fields.value.0, fields.value.1);
      Parsed(true, Total(fields.value.0, fields.value.1))
    else Parsed(false, 0)
  }

  // ---- Laws ----

  /**
   Printing a non-negative length and parsing the text back succeeds and
   yields the length rounded down to a whole second.
   */
  lemma FormatThenParse(ms: Int32)
    requires ms >= 0
    ensures TryParseMmSsToMs(Some(FormatMsToMmSs(ms))) == Parsed(true, FloorToSecond(ms))
  {
    FormattedFields(ms);
    ClockFields(ms);
  }

  /** The printed fields of a non-negative length are accepted and denote its whole seconds. */
  lemma ClockFields(ms: Int32)
    requires ms >= 0
    ensures Acceptable(ms / 60_000, (ms / 1000) % 60)
    ensures Total(ms / 60_000, (ms / 1000) % 60) == FloorToSecond(ms)
  {
    ClockArithmetic(ms);
  }

  /** The printed text of a non-negative length has the whole minutes and the seconds as its fields. */
  lemma FormattedFields(ms: Int32)
    requires ms >= 0
    ensures Fields(Some(FormatMsToMmSs(ms))) == Some((ms / 60_000, (ms / 1000) % 60))
  {
    var minutes := ms / 60_000;
    var seconds := (ms / 1000) % 60;
    var text := MinutesSeconds(minutes, seconds);
    assert FormatMsToMmSs(ms) == text;
    FormattedPieces(minutes, seconds);
    ParseDecimal(minutes);
    ParsePadTwo(seconds);
    FieldsOfPieces(text, NatToDecimal(minutes), PadTwo(seconds), minutes, seconds);
  }

  /** Text that trims and splits into two integers has those integers as its fields. */
  lemma FieldsOfPieces(text: string, a: string, b: string, minutes: int, seconds: int)
    requires !IsNullOrWhiteSpace(Some(text))
    requires Split(Trim(text), ':') == [a, b]
    requires ParseInt32(a) == Some(minutes) && ParseInt32(b) == Some(seconds)
    ensures Fields(Some(text)) == Some((minutes, seconds))
  {
  }

  /** Printed minutes and seconds are not blank and split on ':' into the two printed numbers. */
  lemma FormattedPieces(minutes: nat, seconds: nat)
    requires seconds < 60
    ensures !IsNullOrWhiteSpace(Some(MinutesSeconds(minutes, seconds)))
    ensures Split(Trim(MinutesSeconds(minutes, seconds)), ':') == [NatToDecimal(minutes), PadTwo(seconds)]
  {
    var a := NatToDecimal(minutes);
    var b := PadTwo(seconds);
    var text := MinutesSeconds(minutes, seconds);
    assert text == a + [':'] + b;
    assert text[0] == a[0] && text[|text| - 1] == b[|b| - 1];
    DigitIsNotWhiteSpace(a[0]);
    DigitIsNotWhiteSpace(b[|b| - 1]);
    TrimWithUnchanged(text, IsWhiteSpace);
    DigitsHaveNoColon(a);
    DigitsHaveNoColon(b);
    SplitAroundOne(a, b, ':');
  }

  /** A length the parser accepted prints as text that parses back to the same length. */
  lemma ParseThenFormat(input: Option<string>)
    requires TryParseMmSsToMs(input).ok
    ensures TryParseMmSsToMs(Some(FormatMsToMmSs(TryParseMmSsToMs(input).milliseconds))) == TryParseMmSsToMs(input)
  {
    var ms := TryParseMmSsToMs(input).milliseconds;
    ParsedWholeSeconds(input);
    FormatThenParse(ms);
  }

  /** Minutes with a leading zero, a colon and two-digit seconds are accepted. */
  lemma AcceptsPaddedMinutes()
    ensures TryParseMmSsToMs(Some("03:45")) == Parsed(true, 225_000)
  {
    DigitsOfFortyFive();
    assert DigitsValue("03") == 3 by {
      assert "03"[..1] == "0" && "0"[..0] == [];
    }
    ParsesAs("03:45", "03", "45", 3, 45);
  }

  /** Minutes without a leading zero, a colon and two-digit seconds are accepted. */
  lemma AcceptsBareMinutes()
    ensures TryParseMmSsToMs(Some("3:45")) == Parsed(true, 225_000)
  {
    DigitsOfFortyFive();
    assert DigitsValue("3") == 3 by {
      assert "3"[..0] == [];
    }
    ParsesAs("3:45", "3", "45", 3, 45);
  }

  lemma DigitsOfFortyFive()
    ensures AllSatisfy("45", IsDigit) && DigitsValue("45") == 45
  {
    assert "45"[..1] == "4" && "4"[..0] == [];
  }

  /** Text made of two digit strings around a colon parses to the length they denote. */
  lemma ParsesAs(text: string, a: string, b: string, minutes: int, seconds: int)
    requires |text| == |a| + 1 + |b|
    requires text[..|a|] == a && text[|a|] == ':' && text[|a| + 1..] == b
    requires a != [] && b != [] && AllSatisfy(a, IsDigit) && AllSatisfy(b, IsDigit)
    requires DigitsValue(a) == minutes && DigitsValue(b) == seconds && Acceptable(minutes, seconds)
    ensures TryParseMmSsToMs(Some(text)) == Parsed(true, Total(minutes, seconds))
  {
    ColonJoined(text, a, b);
    AcceptsDigitPair(a, b);
  }

  lemma ColonJoined(text: string, a: string, b: string)
    requires |text| == |a| + 1 + |b|
    requires text[..|a|] == a && text[|a|] == ':' && text[|a| + 1..] == b
    ensures a + ":" + b == text
  {
    assert text == text[..|a|] + [text[|a|]] + text[|a| + 1..];
  }

  /** Two digit strings around a colon have their values as the parser's fields. */
  lemma AcceptsDigitPair(a: string, b: string)
    requires a != [] && b != [] && AllSatisfy(a, IsDigit) && AllSatisfy(b, IsDigit)
    requires DigitsValue(a) <= IntMax && DigitsValue(b) <= IntMax
    ensures Fields(Some(a + ":" + b)) == Some((DigitsValue(a), DigitsValue(b)))
  {
    var text := a + ":" + b;
    assert text == a + [':'] + b;
    assert text[0] == a[0] && text[|text| - 1] == b[|b| - 1];
    DigitIsNotWhiteSpace(a[0]);
    DigitIsNotWhiteSpace(b[|b| - 1]);
    TrimWithUnchanged(text, IsWhiteSpace);
    DigitsHaveNoColon(a);
    DigitsHaveNoColon(b);
    SplitAroundOne(a, b, ':');
    ParseDigits(a);
    ParseDigits(b);
    FieldsOfPieces(text, a, b, DigitsValue(a), DigitsValue(b));
  }

  /** A length the parser accepted is a whole number of seconds. */
  lemma ParsedWholeSeconds(input: Option<string>)
    requires TryParseMmSsToMs(input).ok
    ensures TryParseMmSsToMs(input).milliseconds % 1000 == 0
  {
    var fields := Fields(input).value;
    WholeSeconds(fields.0, fields.1);
  }

  /** A length written as minutes and seconds has no sub-second part. */
  lemma WholeSeconds(minutes: int, seconds: int)
    ensures Total(minutes, seconds) % 1000 == 0
  {
    MultipleOfThousand(Total(minutes, seconds), minutes * 60 + seconds);
  }

  lemma MultipleOfThousand(ms: int, wholeSeconds: int)
    requires ms == 1000 * wholeSeconds
    ensures ms % 1000 == 0
  {
  }

  /** The printer ignores the sub-second part: a length and its whole-second floor print alike. */
  lemma FormatDropsSubSecond(ms: Int32)
    requires ms >= 0
    ensures FormatMsToMmSs(ms) == FormatMsToMmSs(FloorToSecond(ms))
  {
    var floor := FloorToSecond(ms);
    ClockArithmetic(ms);
    ClockArithmetic(floor);
    assert floor / 1000 == ms / 1000;
  }
}
