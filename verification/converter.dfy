/**
 The grid's value converter, which shows a track length in milliseconds as
 `m:ss` text and never converts back.
 */
module Converter {
  import opened Base
  import opened Duration

  /**
   A value as the binding engine boxes it: an `int`, a string, the
   `Binding.DoNothing` marker, or anything else.
   */
  datatype Boxed = IntValue(n: Int32) | StringValue(s: string) | DoNothing | OtherValue

  /**
   `Convert`: a non-`int` or negative value shows as the empty string; a
   length shows as whole minutes, a colon and the seconds past the minute as
   two digits.
   */
  function Convert(value: Boxed): (r: Boxed)
    ensures r.StringValue?
    ensures !value.IntValue? ==> r.s == ""
    ensures value.IntValue? && value.n < 0 ==> r.s == ""
    ensures value.IntValue? && value.n >= 0 ==>
      ReadsAs(r.s, value.n / 60_000, (value.n / 1000) % 60) && (value.n / 1000) % 60 <= 59
  {
    match value
    case IntValue(ms) =>
      if ms < 0 then StringValue("")
      else
        MinutesSecondsReadsAs(ms / 60_000, (ms / 1000) % 60);
        StringValue(MinutesSeconds(ms / 60_000, (ms / 1000) % 60))
    case _ => StringValue("")
  }

  /** `ConvertBack` gives no value back to the source: it always answers `Binding.DoNothing`. */
  function ConvertBack(value: Boxed): (r: Boxed)
    ensures r == DoNothing
  {
    DoNothing
  }

  /** The grid and the edit dialog print every `int` length identically. */
  lemma ConvertAgreesWithDialog(ms: Int32)
    ensures Convert(IntValue(ms)) == StringValue(FormatMsToMmSs(ms))
  {
  }

  /** The grid ignores the sub-second part of a length. */
  lemma ConvertDropsSubSecond(ms: Int32)
    requires ms >= 0
    ensures Convert(IntValue(ms)) == Convert(IntValue(FloorToSecond(ms)))
  {
    FormatDropsSubSecond(ms);
  }
}
