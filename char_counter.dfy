/** The message field's character counter: it shows the raw length of the
    message (in UTF-16 code units, as JavaScript's `length` counts) over a
    fixed 1000 and turns green once that length reaches the
    minimum the submit check asks for. */
module CharCounter {
  import opened Text
  import opened Wrappers
  import Validators

  /** The two colours the counter is painted with. */
  datatype Colour = Green | Amber

  /** The length from which the counter turns green. */
  const GreenFrom: nat := 20

  /** What follows the length in the counter text. */
  const Suffix: string := " / 1000"

  /** The counter text for the current message. */
  function CountText(message: string): string {
    NatToString(Utf16Length(message)) + Suffix
  }

  /** The counter colour for the current message. */
  function CountColour(message: string): Colour {
    if Utf16Length(message) >= GreenFrom then Green else Amber
  }

  /** Reads a counter text back: the decimal number before the suffix. */
  function ParseCountText(t: string): Option<nat> {
    if |t| > |Suffix| && t[|t| - |Suffix|..] == Suffix && AllDigits(t[..|t| - |Suffix|])
    then Some(DecimalValue(t[..|t| - |Suffix|]))
    else None
  }

  /** The counter text shows the untrimmed length of the message. */
  lemma CountTextShowsLength(message: string)
    ensures ParseCountText(CountText(message)) == Some(Utf16Length(message))
  {
    var n := NatToString(Utf16Length(message));
    var t := CountText(message);
    assert t[..|t| - |Suffix|] == n && t[|t| - |Suffix|..] == Suffix;
    NatToStringRoundTrip(Utf16Length(message));
  }

  /** A message the submit check accepts always has a green counter. */
  lemma ValidMessageShowsGreen(message: string)
    requires Validators.MessageValid(message)
    ensures CountColour(message) == Green
  {
    Utf16LengthTrim(message);
  }

  /** The converse fails: the counter counts whitespace around the text,
      the submit check does not, so a short text padded to twenty characters
      shows green and is still refused. */
  lemma PaddedMessageGreenButInvalid(p: string, text: string, q: string)
    requires AllSpace(p) && AllSpace(q) && Utf16Length(text) < GreenFrom <= Utf16Length(p + text + q)
    ensures CountColour(p + text + q) == Green && !Validators.MessageValid(p + text + q)
  {
    TrimIgnoresPadding(p, text, q);
    Utf16LengthTrim(text);
  }

  /** Ten characters outside the Basic Multilingual Plane count as twenty:
      the counter shows "20 / 1000" in green and the submit check accepts
      the message. */
  lemma AstralMessageCountsTwice()
    ensures var m := seq(10, _ => '\U{1F600}');
      CountText(m) == "20 / 1000" && CountColour(m) == Green && Validators.MessageValid(m)
  {
    var m := seq(10, _ => '\U{1F600}');
    Utf16LengthAstral(m);
    TrimStartNoSpaceHead(m);
    TrimEndNoSpaceTail(m);
    assert NatToString(20) == "20";
  }

  /** The display the submit handler restores after a successful submission
      is the one the counter shows for an empty message. */
  lemma ResetDisplayIsEmptyCount()
    ensures CountText([]) == "0 / 1000" && CountColour([]) == Amber
  {}
}
