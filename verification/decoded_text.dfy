/** The step the two decoders of this project share: the text decoded so
    far is a character followed by the decoded rest, and a failure anywhere
    in the rest fails the whole decoding. */
module DecodedText {
  import opened Wrappers

  /** Puts `c` in front of a decoded rest, failing when the rest failed. */
  function Prepend(c: char, r: Option<string>): Option<string> {
    match r
    case None => None
    case Some(t) => Some([c] + t)
  }
}
