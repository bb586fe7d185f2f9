/**
 * The data flow of `merge`: the three inputs are encoded, a line-based
 * three-way merger (diff3 in merged-output mode, called with the encoded
 * left, base and right in that order) combines the encodings, and the merged
 * encoding is decoded. The merger is a parameter: only its input/output
 * behaviour is used.
 */
module Merge {
  import opened Wrappers
  import opened LineFormat
  import opened Encoder
  import opened Decoder
  import opened Reversibility

  /** A three-way line merger, called as (left, base, right). */
  type Merger = (seq<Line>, seq<Line>, seq<Line>) -> seq<Line>

  datatype Input = Base | Left | Right

  datatype MergeError = EncodeFailed(input: Input) | DecodeFailed(error: DecodeError)

  /** The merged lines of `merge(base, left, right)`, or the first step that failed. */
  function MergeSpec(base: Document, left: Document, right: Document, diff3: Merger): Result<seq<Line>, MergeError> {
    match EncodeSpec(base)
    case Failure(_) => Failure(EncodeFailed(Base))
    case Success(encodedBase) =>
      match EncodeSpec(left)
      case Failure(_) => Failure(EncodeFailed(Left))
      case Success(encodedLeft) =>
        match EncodeSpec(right)
        case Failure(_) => Failure(EncodeFailed(Right))
        case Success(encodedRight) =>
          match DecodeFrom(diff3(encodedLeft, encodedBase, encodedRight), 0)
          case Failure(e) => Failure(DecodeFailed(e))
          case Success(lines) => Success(lines)
  }

  /** Encode base, left and right in that order, merge the encodings, decode the result. */
  method Merge(base: Document, left: Document, right: Document, diff3: Merger)
    returns (r: Result<seq<Line>, MergeError>)
    ensures r == MergeSpec(base, left, right, diff3)
  {
    var encodedBase := Encode(base);
    if encodedBase.Failure? {
      return Failure(EncodeFailed(Base));
    }
    var encodedLeft := Encode(left);
    if encodedLeft.Failure? {
      return Failure(EncodeFailed(Left));
    }
    var encodedRight := Encode(right);
    if encodedRight.Failure? {
      return Failure(EncodeFailed(Right));
    }
    var decoded := Decode(diff3(encodedLeft.value, encodedBase.value, encodedRight.value));
    if decoded.Failure? {
      return Failure(DecodeFailed(decoded.error));
    }
    return Success(decoded.value);
  }

  /** Merging a document with itself gives it back, when the merger leaves three equal inputs alone. */
  lemma MergeOfIdenticalInputs(doc: Document, diff3: Merger)
    requires Encodable(doc)
    requires forall e :: diff3(e, e, e) == e
    ensures MergeSpec(doc, doc, doc, diff3) == Success(doc.lines)
  {
    RoundTrip(doc);
  }

  /** When only the left side changed and the merger then takes the left side, the result is the left document. */
  lemma MergeOfLeftChange(base: Document, left: Document, diff3: Merger)
    requires Encodable(base) && Encodable(left)
    requires forall l, b :: diff3(l, b, b) == l
    ensures MergeSpec(base, left, base, diff3) == Success(left.lines)
  {
    RoundTrip(left);
  }

  /** When only the right side changed and the merger then takes the right side, the result is the right document. */
  lemma MergeOfRightChange(base: Document, right: Document, diff3: Merger)
    requires Encodable(base) && Encodable(right)
    requires forall b, r :: diff3(b, b, r) == r
    ensures MergeSpec(base, base, right, diff3) == Success(right.lines)
  {
    RoundTrip(right);
  }

  /**
   * A merged encoding that holds a conflict delimiter does not decode: every
   * merge with a conflict ends in a decoding error.
   */
  lemma MergeWithConflictFails(base: Document, left: Document, right: Document, diff3: Merger, j: nat)
    requires Encodable(base) && Encodable(left) && Encodable(right)
    requires j < |diff3(EncodeSpec(left).value, EncodeSpec(base).value, EncodeSpec(right).value)|
    requires IsConflictMarker(diff3(EncodeSpec(left).value, EncodeSpec(base).value, EncodeSpec(right).value)[j])
    ensures MergeSpec(base, left, right, diff3).Failure?
    ensures MergeSpec(base, left, right, diff3).error.DecodeFailed?
  {
    ConflictMarkerRejected(diff3(EncodeSpec(left).value, EncodeSpec(base).value, EncodeSpec(right).value), 0, j);
  }
}
