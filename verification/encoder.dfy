/**
 * The encoder (text_to_intolmerge): every source line becomes a delta record
 * holding the change of tab depth from the previous line (the depth before
 * the first line is 0) followed by a content record holding the rest of the
 * line.
 */
module Encoder {
  import opened Wrappers
  import opened LineFormat

  /**
   * A source file as File.readlines sees it: its lines without terminators,
   * and whether the last line ended with a newline.
   */
  datatype Document = Document(lines: seq<Line>, finalNewline: bool)

  /**
   * The line pattern needs one non-tab character after the tab run, and a
   * kept newline counts as one; only an unterminated last line made of tabs
   * alone (or of nothing) leaves the pattern unmatched, which ends the run.
   */
  datatype EncodeError = NoIndentMatch

  /**
   * Whether the encoder gets through every line of `doc`: every line but an
   * unterminated last one carries its newline, so only that last line can
   * fail the pattern, when it is all tabs.
   */
  predicate Encodable(doc: Document) {
    doc.lines == [] || doc.finalNewline || Depth(doc.lines[|doc.lines| - 1]) < |doc.lines[|doc.lines| - 1]|
  }

  /** Line k as File.readlines returns it: with its newline, unless it is an unterminated last line. */
  function RawLine(doc: Document, k: nat): string
    requires k < |doc.lines|
  {
    if k < |doc.lines| - 1 || doc.finalNewline then doc.lines[k] + "\n" else doc.lines[k]
  }

  /**
   * Whether the line pattern `\A(\t*)([^\t].*)\Z` matches a raw line: the tab
   * run must be followed by one character that is not a tab (a newline will
   * do), and `.*` with `\Z` then take the rest of the line.
   */
  predicate IndentMatches(raw: string) {
    Depth(raw) < |raw|
  }

  /** The encoder gets through `doc` exactly when the line pattern matches every raw line. */
  lemma EncodableIff(doc: Document)
    ensures Encodable(doc) <==> forall k | 0 <= k < |doc.lines| :: IndentMatches(RawLine(doc, k))
  {
    forall k | 0 <= k < |doc.lines| && (k < |doc.lines| - 1 || doc.finalNewline)
      ensures IndentMatches(RawLine(doc, k))
    {
      DepthAppend(doc.lines[k], "\n");
    }
    if doc.lines != [] && !doc.finalNewline {
      assert RawLine(doc, |doc.lines| - 1) == doc.lines[|doc.lines| - 1];
    }
  }

  /**
   * The lines the encoder writes for `lines` when the line before them had
   * depth `previous`: for each line, its delta record (its depth minus the
   * depth of the line before it) and then its content record.
   */
  function EncodeFrom(lines: seq<Line>, previous: nat): (encoded: seq<Line>)
    ensures |encoded| == 2 * |lines|
  {
    if lines == [] then []
    else [DeltaRecord(Depth(lines[0]) - previous), ContentRecord(Rest(lines[0]))] + EncodeFrom(lines[1..], Depth(lines[0]))
  }

  /** What the encoder writes for `doc`. */
  function EncodeSpec(doc: Document): Result<seq<Line>, EncodeError> {
    if Encodable(doc) then Success(EncodeFrom(doc.lines, 0)) else Failure(NoIndentMatch)
  }

  /** The loop of text_to_intolmerge, with the running depth of the previous line. */
  method Encode(doc: Document) returns (r: Result<seq<Line>, EncodeError>)
    ensures r == EncodeSpec(doc)
  {
    var out: seq<Line> := [];
    var previous: nat := 0;
    var i := 0;
    assert doc.lines[i..] == doc.lines;
    while i < |doc.lines|
      invariant 0 <= i <= |doc.lines|
      invariant 0 < i == |doc.lines| ==> Encodable(doc)
      invariant EncodeFrom(doc.lines, 0) == out + EncodeFrom(doc.lines[i..], previous)
    {
      var line := doc.lines[i];
      var depth := Depth(line);
      if i == |doc.lines| - 1 && !doc.finalNewline && depth == |line| {
        return Failure(NoIndentMatch);
      }
      EncodeStep(doc.lines, i, previous, out, line, depth);
      out := out + [DeltaRecord(depth - previous), ContentRecord(Rest(line))];
      previous := depth;
      i := i + 1;
    }
    assert out + EncodeFrom(doc.lines[i..], previous) == out + [];
    assert out + [] == out;
    return Success(out);
  }

  /** One turn of the encoder loop moves the two lines of line i from what is left to write to what is written. */
  lemma EncodeStep(lines: seq<Line>, i: nat, previous: nat, out: seq<Line>, line: Line, depth: nat)
    requires i < |lines| && line == lines[i] && depth == Depth(line)
    ensures out + EncodeFrom(lines[i..], previous)
         == (out + [DeltaRecord(depth - previous), ContentRecord(Rest(line))]) + EncodeFrom(lines[i + 1..], depth)
  {
    assert lines[i..][1..] == lines[i + 1..];
  }

  /**
   * The first two encoded lines parse back as the first line's delta and
   * content; the other encoded lines are those of the remaining lines.
   */
  lemma EncodedHead(lines: seq<Line>, previous: nat)
    requires lines != []
    ensures ParseDeltaRecord(EncodeFrom(lines, previous)[0]) == Some(Depth(lines[0]) - previous)
    ensures ParseContentRecord(EncodeFrom(lines, previous)[1]) == Some(Rest(lines[0]))
    ensures EncodeFrom(lines, previous)[2..] == EncodeFrom(lines[1..], Depth(lines[0]))
  {
    var encoded := EncodeFrom(lines, previous);
    var tail := EncodeFrom(lines[1..], Depth(lines[0]));
    assert encoded == [DeltaRecord(Depth(lines[0]) - previous), ContentRecord(Rest(lines[0]))] + tail;
    DeltaRecordRoundTrip(Depth(lines[0]) - previous);
    ContentRecordInverse(encoded[1], Rest(lines[0]));
  }

  /**
   * Encoded lines 2i and 2i + 1 are the delta record and the content record
   * of line i; the delta is taken against line i - 1, or against `previous`
   * for the first line.
   */
  lemma {:induction false} EncodedLinesAt(lines: seq<Line>, previous: nat, i: nat)
    requires i < |lines|
    ensures EncodeFrom(lines, previous)[2 * i]
         == DeltaRecord(Depth(lines[i]) - (if i == 0 then previous else Depth(lines[i - 1])))
    ensures EncodeFrom(lines, previous)[2 * i + 1] == ContentRecord(Rest(lines[i]))
  {
    if i > 0 {
      var tail := EncodeFrom(lines[1..], Depth(lines[0]));
      EncodedLinesAt(lines[1..], Depth(lines[0]), i - 1);
      assert EncodeFrom(lines, previous)[2 * i] == tail[2 * (i - 1)];
      assert EncodeFrom(lines, previous)[2 * i + 1] == tail[2 * (i - 1) + 1];
      assert lines[1..][i - 1] == lines[i];
      assert i - 1 > 0 ==> lines[1..][i - 2] == lines[i - 1];
    }
  }

  /**
   * Read back as the decoder reads them, the deltas written for lines 0..i,
   * added one by one to the starting depth, give the depth of line i.
   */
  lemma {:induction false} EncodedDepthAt(lines: seq<Line>, previous: nat, i: nat)
    requires i < |lines|
    ensures DepthAt(EncodeFrom(lines, previous), previous, i) == Depth(lines[i])
  {
    var encoded := EncodeFrom(lines, previous);
    EncodedHead(lines, previous);
    assert DeltaOf(encoded[0]) == Depth(lines[0]) - previous;
    if i > 0 {
      EncodedDepthAt(lines[1..], Depth(lines[0]), i - 1);
      assert DepthAt(encoded, previous, i) == DepthAt(encoded[2..], Depth(lines[0]), i - 1);
      assert lines[1..][i - 1] == lines[i];
    }
  }

  /** The deltas written for lines 0..i sum, with the starting depth, to the depth of line i. */
  lemma EncodedDeltasSum(lines: seq<Line>, previous: nat, i: nat)
    requires i < |lines|
    ensures previous + Sum(Deltas(EncodeFrom(lines, previous))[..i + 1]) == Depth(lines[i])
  {
    EncodedDepthAt(lines, previous, i);
    DepthAtIsSum(EncodeFrom(lines, previous), previous, i);
  }

  /**
   * Changing only the indentation of lines leaves every content record as it
   * was: the encodings differ at most in their delta records.
   */
  lemma IndentChangeKeepsContents(lines: seq<Line>, changed: seq<Line>, previous: nat)
    requires |changed| == |lines|
    requires forall k | 0 <= k < |lines| :: Rest(changed[k]) == Rest(lines[k])
    ensures forall i | 0 <= i < |lines| :: EncodeFrom(changed, previous)[2 * i + 1] == EncodeFrom(lines, previous)[2 * i + 1]
  {
    forall i | 0 <= i < |lines|
      ensures EncodeFrom(changed, previous)[2 * i + 1] == EncodeFrom(lines, previous)[2 * i + 1]
    {
      EncodedLinesAt(lines, previous, i);
      EncodedLinesAt(changed, previous, i);
    }
  }

  /**
   * Changing only what follows the indentation leaves every delta record as
   * it was: the encodings differ at most in their content records.
   */
  lemma {:induction false} ContentChangeKeepsDeltas(lines: seq<Line>, changed: seq<Line>, previous: nat)
    requires |changed| == |lines|
    requires forall k | 0 <= k < |lines| :: Depth(changed[k]) == Depth(lines[k])
    ensures forall i | 0 <= i < |lines| :: EncodeFrom(changed, previous)[2 * i] == EncodeFrom(lines, previous)[2 * i]
  {
    if lines != [] {
      var depth := Depth(lines[0]);
      assert Depth(changed[0]) == depth;
      var tail := EncodeFrom(lines[1..], depth);
      var changedTail := EncodeFrom(changed[1..], depth);
      ContentChangeKeepsDeltas(lines[1..], changed[1..], depth);
      assert EncodeFrom(lines, previous)[2..] == tail;
      assert EncodeFrom(changed, previous)[2..] == changedTail;
      forall i | 0 <= i < |lines|
        ensures EncodeFrom(changed, previous)[2 * i] == EncodeFrom(lines, previous)[2 * i]
      {
        if i > 0 {
          assert EncodeFrom(lines, previous)[2 * i] == tail[2 * (i - 1)];
          assert EncodeFrom(changed, previous)[2 * i] == changedTail[2 * (i - 1)];
        }
      }
    }
  }
}
