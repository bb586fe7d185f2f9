/**
 * The decoder (intolmerge_to_text): the encoded lines are read two at a
 * time, a delta record then a content record, and each pair gives back one
 * line: the running depth (0 before the first pair, plus each delta) in tabs,
 * followed by the content.
 */
module Decoder {
  import opened Wrappers
  import opened LineFormat

  /**
   * Why decoding stops. InvalidDelta: the first line of a pair is not a delta
   * record, or the depth it leads to is negative. InvalidContent: the second
   * line of a pair is not a content record, or the pair has no second line.
   */
  datatype DecodeError = InvalidDelta | InvalidContent

  /** The lines decoded from `encoded` when the running depth starts at `previous`. */
  function DecodeFrom(encoded: seq<Line>, previous: nat): Result<seq<Line>, DecodeError>
    decreases |encoded|
  {
    if encoded == [] then Success([])
    else
      match ParseDeltaRecord(encoded[0])
      case None => Failure(InvalidDelta)
      case Some(delta) =>
        if previous + delta < 0 then Failure(InvalidDelta)
        else if |encoded| == 1 then Failure(InvalidContent)
        else
          match ParseContentRecord(encoded[1])
          case None => Failure(InvalidContent)
          case Some(content) =>
            var depth := previous + delta;
            match DecodeFrom(encoded[2..], depth)
            case Failure(e) => Failure(e)
            case Success(lines) => Success([Tabs(depth) + content] + lines)
  }

  /** `result` with `done` put in front of its lines; failures pass through. */
  function Prepend(done: seq<Line>, result: Result<seq<Line>, DecodeError>): Result<seq<Line>, DecodeError> {
    match result
    case Success(lines) => Success(done + lines)
    case Failure(e) => Failure(e)
  }

  /** The each_slice(2) loop of intolmerge_to_text, with the running depth. */
  method Decode(encoded: seq<Line>) returns (r: Result<seq<Line>, DecodeError>)
    ensures r == DecodeFrom(encoded, 0)
  {
    var out: seq<Line> := [];
    var previous: nat := 0;
    var i := 0;
    assert encoded[i..] == encoded;
    assert Prepend(out, DecodeFrom(encoded, 0)) == DecodeFrom(encoded, 0) by {
      if DecodeFrom(encoded, 0).Success? {
        assert out + DecodeFrom(encoded, 0).value == DecodeFrom(encoded, 0).value;
      }
    }
    while i < |encoded|
      invariant 0 <= i <= |encoded|
      invariant DecodeFrom(encoded, 0) == Prepend(out, DecodeFrom(encoded[i..], previous))
      decreases |encoded| - i
    {
      var delta: int;
      match ParseDeltaRecord(encoded[i]) {
        case None => return Failure(InvalidDelta);
        case Some(d) => delta := d;
      }
      if previous + delta < 0 {
        return Failure(InvalidDelta);
      }
      var depth: nat := previous + delta;
      if i + 1 == |encoded| {
        return Failure(InvalidContent);
      }
      var content: Line;
      match ParseContentRecord(encoded[i + 1]) {
        case None => return Failure(InvalidContent);
        case Some(c) => content := c;
      }
      assert encoded[i..][2..] == encoded[i + 2..];
      PrependAssoc(out, Tabs(depth) + content, DecodeFrom(encoded[i + 2..], depth));
      out := out + [Tabs(depth) + content];
      previous := depth;
      i := i + 2;
    }
    assert encoded[i..] == [] && out + [] == out;
    return Success(out);
  }

  lemma PrependAssoc(done: seq<Line>, line: Line, result: Result<seq<Line>, DecodeError>)
    ensures Prepend(done, Prepend([line], result)) == Prepend(done + [line], result)
  {
    if result.Success? {
      assert done + ([line] + result.value) == done + [line] + result.value;
    }
  }

  /** A decoded stream has exactly two encoded lines per decoded line; an odd count never decodes. */
  lemma {:induction false} DecodedLength(encoded: seq<Line>, previous: nat)
    requires DecodeFrom(encoded, previous).Success?
    ensures |encoded| == 2 * |DecodeFrom(encoded, previous).value|
  {
    if encoded != [] {
      var depth := previous + ParseDeltaRecord(encoded[0]).value;
      DecodedLength(encoded[2..], depth);
    }
  }

  /**
   * A stream that decodes and is not empty starts with a delta record and a
   * content record that give its first line; the rest of it decodes from the
   * depth that first pair reaches, to the rest of the lines.
   */
  lemma DecodedHead(encoded: seq<Line>, previous: nat)
    requires DecodeFrom(encoded, previous).Success? && encoded != []
    ensures |encoded| >= 2
    ensures ParseDeltaRecord(encoded[0]).Some? && ParseContentRecord(encoded[1]).Some?
    ensures previous + ParseDeltaRecord(encoded[0]).value >= 0
    ensures DecodeFrom(encoded[2..], previous + ParseDeltaRecord(encoded[0]).value).Success?
    ensures DecodeFrom(encoded, previous).value
         == [Tabs(previous + ParseDeltaRecord(encoded[0]).value) + ParseContentRecord(encoded[1]).value]
            + DecodeFrom(encoded[2..], previous + ParseDeltaRecord(encoded[0]).value).value
  {
  }

  /**
   * Decoded line i comes from encoded lines 2i and 2i + 1: both are records,
   * the running depth after pair i is not negative, and the line is that
   * many tabs followed by the content of pair i.
   */
  lemma {:induction false} DecodedLineAt(encoded: seq<Line>, previous: nat, i: nat)
    requires DecodeFrom(encoded, previous).Success?
    requires i < |DecodeFrom(encoded, previous).value|
    ensures 2 * i + 1 < |encoded|
    ensures ParseDeltaRecord(encoded[2 * i]).Some?
    ensures ParseContentRecord(encoded[2 * i + 1]).Some?
    ensures DepthAt(encoded, previous, i) >= 0
    ensures DecodeFrom(encoded, previous).value[i]
         == Tabs(DepthAt(encoded, previous, i)) + ParseContentRecord(encoded[2 * i + 1]).value
  {
    DecodedLength(encoded, previous);
    DecodedHead(encoded, previous);
    if i > 0 {
      var tail := encoded[2..];
      DecodedLineAt(tail, previous + DeltaOf(encoded[0]), i - 1);
      assert tail[2 * (i - 1)] == encoded[2 * i];
      assert tail[2 * (i - 1) + 1] == encoded[2 * i + 1];
    }
  }

  /** The depth of decoded line i is the start depth plus the sum of the deltas of pairs 0..i. */
  lemma DecodedLineDepth(encoded: seq<Line>, previous: nat, i: nat)
    requires DecodeFrom(encoded, previous).Success?
    requires i < |DecodeFrom(encoded, previous).value|
    ensures 2 * i + 1 < |encoded| && ParseContentRecord(encoded[2 * i + 1]).Some?
    ensures previous + Sum(Deltas(encoded)[..i + 1]) >= 0
    ensures DecodeFrom(encoded, previous).value[i]
         == Tabs(previous + Sum(Deltas(encoded)[..i + 1])) + ParseContentRecord(encoded[2 * i + 1]).value
  {
    DecodedLineAt(encoded, previous, i);
    DepthAtIsSum(encoded, previous, i);
  }

  /** Pair i of `encoded` is well formed, and the running depth after it is not negative. */
  predicate PairDecodes(encoded: seq<Line>, previous: nat, i: nat)
    requires 2 * i + 1 < |encoded|
  {
    && ParseDeltaRecord(encoded[2 * i]).Some?
    && ParseContentRecord(encoded[2 * i + 1]).Some?
    && DepthAt(encoded, previous, i) >= 0
  }

  /** Decoding succeeds exactly when the line count is even and every pair decodes. */
  lemma DecodeSucceedsIff(encoded: seq<Line>, previous: nat)
    ensures DecodeFrom(encoded, previous).Success?
        <==> |encoded| % 2 == 0 && forall i | 0 <= i < |encoded| / 2 :: PairDecodes(encoded, previous, i)
  {
    if DecodeFrom(encoded, previous).Success? {
      DecodedLength(encoded, previous);
      forall i | 0 <= i < |encoded| / 2
        ensures PairDecodes(encoded, previous, i)
      {
        DecodedLineAt(encoded, previous, i);
      }
    }
    if |encoded| % 2 == 0 && forall i | 0 <= i < |encoded| / 2 :: PairDecodes(encoded, previous, i) {
      WellFormedDecodes(encoded, previous);
    }
  }

  lemma {:induction false} WellFormedDecodes(encoded: seq<Line>, previous: nat)
    requires |encoded| % 2 == 0
    requires forall i | 0 <= i < |encoded| / 2 :: PairDecodes(encoded, previous, i)
    ensures DecodeFrom(encoded, previous).Success?
  {
    if encoded != [] {
      assert PairDecodes(encoded, previous, 0);
      var tail := encoded[2..];
      var depth: nat := previous + DeltaOf(encoded[0]);
      forall i | 0 <= i < |tail| / 2
        ensures PairDecodes(tail, depth, i)
      {
        assert PairDecodes(encoded, previous, i + 1);
        assert tail[2 * i] == encoded[2 * (i + 1)] && tail[2 * i + 1] == encoded[2 * (i + 1) + 1];
      }
      WellFormedDecodes(tail, depth);
    }
  }

  /** The running depth before pair k: the start depth, or the depth after pair k - 1. */
  function DepthBefore(encoded: seq<Line>, previous: nat, k: nat): int
    requires 2 * k <= |encoded|
  {
    if k == 0 then previous else DepthAt(encoded, previous, k - 1)
  }

  /**
   * When pairs 0..k-1 decode, pair k alone decides the error, checking its
   * delta line first: a line that is not a delta record, or a delta that takes
   * the depth below zero, is InvalidDelta whatever follows; only then is a
   * missing or malformed content line InvalidContent.
   */
  lemma {:induction false} DecodeErrorAt(encoded: seq<Line>, previous: nat, k: nat)
    requires 2 * k < |encoded|
    requires forall i | 0 <= i < k :: PairDecodes(encoded, previous, i)
    ensures ParseDeltaRecord(encoded[2 * k]).None? ==> DecodeFrom(encoded, previous) == Failure(InvalidDelta)
    ensures ParseDeltaRecord(encoded[2 * k]).Some? && DepthBefore(encoded, previous, k) + ParseDeltaRecord(encoded[2 * k]).value < 0
        ==> DecodeFrom(encoded, previous) == Failure(InvalidDelta)
    ensures ParseDeltaRecord(encoded[2 * k]).Some? && DepthBefore(encoded, previous, k) + ParseDeltaRecord(encoded[2 * k]).value >= 0
         && (2 * k + 1 == |encoded| || ParseContentRecord(encoded[2 * k + 1]).None?)
        ==> DecodeFrom(encoded, previous) == Failure(InvalidContent)
  {
    if k > 0 {
      assert PairDecodes(encoded, previous, 0);
      var tail := encoded[2..];
      var depth: nat := previous + DeltaOf(encoded[0]);
      forall i | 0 <= i < k - 1
        ensures PairDecodes(tail, depth, i)
      {
        assert PairDecodes(encoded, previous, i + 1);
        assert tail[2 * i] == encoded[2 * (i + 1)] && tail[2 * i + 1] == encoded[2 * (i + 1) + 1];
      }
      DecodeErrorAt(tail, depth, k - 1);
      assert tail[2 * (k - 1)] == encoded[2 * k];
      assert 2 * k + 1 < |encoded| ==> tail[2 * (k - 1) + 1] == encoded[2 * k + 1];
      assert DepthBefore(tail, depth, k - 1) == DepthBefore(encoded, previous, k);
    }
  }

  /**
   * A delimiter line of a merge conflict: seven copies of one of `<`, `|`,
   * `=`, `>` at the start of the line.
   */
  predicate IsConflictMarker(l: Line) {
    |l| >= 7 && l[0] in "<|=>" && forall k | 0 <= k < 7 :: l[k] == l[0]
  }

  /** Every line of a stream that decodes is a delta record or a content record. */
  lemma DecodedLineIsRecord(encoded: seq<Line>, previous: nat, j: nat)
    requires DecodeFrom(encoded, previous).Success?
    requires j < |encoded|
    ensures ParseDeltaRecord(encoded[j]).Some? || ParseContentRecord(encoded[j]).Some?
  {
    DecodedLength(encoded, previous);
    var k := j / 2;
    DecodedLineAt(encoded, previous, k);
    if j % 2 == 0 {
      assert encoded[j] == encoded[2 * k];
    } else {
      assert encoded[j] == encoded[2 * k + 1];
    }
  }

  /** A conflict delimiter starts with neither `t: ` nor `c: `. */
  lemma MarkerIsNotRecord(l: Line)
    requires IsConflictMarker(l)
    ensures ParseDeltaRecord(l).None? && ParseContentRecord(l).None?
  {
    assert |l| >= 3 ==> l[..3][0] == l[0];
  }

  /**
   * A conflict delimiter is neither a delta record nor a content record, so a
   * stream that holds one never decodes, wherever it stands.
   */
  lemma ConflictMarkerRejected(encoded: seq<Line>, previous: nat, j: nat)
    requires j < |encoded| && IsConflictMarker(encoded[j])
    ensures DecodeFrom(encoded, previous).Failure?
  {
    MarkerIsNotRecord(encoded[j]);
    if DecodeFrom(encoded, previous).Success? {
      DecodedLineIsRecord(encoded, previous, j);
      assert false;
    }
  }
}
