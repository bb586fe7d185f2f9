/**
 * Decoding what the encoder wrote gives back the original lines: the
 * running depth the decoder rebuilds from the deltas is the depth of each
 * line, and the content record carries the rest of the line unchanged.
 */
module Reversibility {
  import opened Wrappers
  import opened LineFormat
  import opened Encoder
  import opened Decoder

  /** Decoding from depth `previous` what the encoder wrote from depth `previous` gives back the lines. */
  lemma {:induction false} DecodeEncoded(lines: seq<Line>, previous: nat)
    ensures DecodeFrom(EncodeFrom(lines, previous), previous) == Success(lines)
  {
    if lines != [] {
      var depth := Depth(lines[0]);
      EncodedHead(lines, previous);
      DecodeEncoded(lines[1..], depth);
      SplitJoin(lines[0]);
      assert [lines[0]] + lines[1..] == lines;
    }
  }

  /** Every document the encoder accepts decodes back to its own lines. */
  lemma RoundTrip(doc: Document)
    requires Encodable(doc)
    ensures EncodeSpec(doc).Success?
    ensures DecodeFrom(EncodeSpec(doc).value, 0) == Success(doc.lines)
  {
    DecodeEncoded(doc.lines, 0);
  }
}
