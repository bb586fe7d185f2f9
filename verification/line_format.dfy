/**
 * The two halves of a source line (its leading tab run and the remainder)
 * and the two record lines of the encoded format:
 *
 *   t: <signed decimal change of tab depth>
 *   c: <remainder of the line, unescaped>
 */
module LineFormat {
  import opened Wrappers
  import opened IntText

  /** One line as File.readlines yields it, without its terminator. */
  type Line = s: string | '\n' !in s

  /** Length of the maximal run of tabs at the start of `s`. */
  function Depth(s: string): (n: nat)
    ensures n <= |s|
  {
    if s != [] && s[0] == '\t' then 1 + Depth(s[1..]) else 0
  }

  /** Depth counts a run of tabs that cannot be extended: the next character, if any, is not a tab. */
  lemma {:induction false} DepthIsLeadingTabRun(s: string)
    ensures forall k | 0 <= k < Depth(s) :: s[k] == '\t'
    ensures Depth(s) < |s| ==> s[Depth(s)] != '\t'
  {
    if s != [] && s[0] == '\t' {
      DepthIsLeadingTabRun(s[1..]);
      assert forall k | 1 <= k < Depth(s) :: s[k] == s[1..][k - 1];
    }
  }

  /** The tab run of a concatenation stops inside the first part unless that part is all tabs. */
  lemma {:induction false} DepthAppend(s: string, t: string)
    ensures Depth(s + t) == if Depth(s) < |s| then Depth(s) else |s| + Depth(t)
  {
    if s != [] && s[0] == '\t' {
      DepthAppend(s[1..], t);
      assert (s + t)[1..] == s[1..] + t;
    } else if s == [] {
      assert s + t == t;
    } else {
      assert (s + t)[0] == s[0];
    }
  }

  /** What follows the leading tab run. */
  function Rest(s: Line): (r: Line)
    ensures |r| > 0 ==> r[0] != '\t'
  {
    if s != [] && s[0] == '\t' then Rest(s[1..]) else s
  }

  /** `n` tabs: Ruby's "\t" * n. */
  function Tabs(n: nat): (s: Line)
    ensures |s| == n && forall k | 0 <= k < n :: s[k] == '\t'
  {
    if n == 0 then "" else "\t" + Tabs(n - 1)
  }

  /** A line is its leading tab run followed by its remainder. */
  lemma {:induction false} SplitJoin(s: Line)
    ensures Tabs(Depth(s)) + Rest(s) == s
  {
    if s != [] && s[0] == '\t' {
      SplitJoin(s[1..]);
      assert s == [s[0]] + s[1..];
    }
  }

  /** The delta record of the encoded format. */
  function DeltaRecord(delta: int): Line {
    "t: " + ShowInt(delta)
  }

  /** The content record of the encoded format; the content is not escaped. */
  function ContentRecord(content: Line): Line {
    "c: " + content
  }

  /** The delta carried by a line of the form `t: -?[0-9]+`; None for any other line. */
  function ParseDeltaRecord(l: Line): Option<int> {
    if |l| >= 3 && l[..3] == "t: " then ParseInt(l[3..]) else None
  }

  /** The content carried by a line that starts with `c: `; None for any other line. */
  function ParseContentRecord(l: Line): Option<Line> {
    if |l| >= 3 && l[..3] == "c: " then Some(l[3..]) else None
  }

  lemma DeltaRecordRoundTrip(delta: int)
    ensures ParseDeltaRecord(DeltaRecord(delta)) == Some(delta)
  {
    var l := DeltaRecord(delta);
    assert l[..3] == "t: " && l[3..] == ShowInt(delta);
    ParseShowInt(delta);
  }

  /** A delta line that parses is exactly the record the encoder writes for that delta, once its digits are canonical. */
  lemma DeltaRecordCanonical(l: Line)
    requires |l| >= 3 && l[..3] == "t: " && Canonical(l[3..])
    ensures ParseDeltaRecord(l).Some? && DeltaRecord(ParseDeltaRecord(l).value) == l
  {
    ShowParseCanonical(l[3..]);
    assert l == "t: " + l[3..];
  }

  /** The content record and its parser are mutual inverses. */
  lemma ContentRecordInverse(l: Line, content: Line)
    ensures ParseContentRecord(l) == Some(content) <==> l == ContentRecord(content)
  {
    if l == ContentRecord(content) {
      assert l[..3] == "c: " && l[3..] == content;
    }
    if ParseContentRecord(l) == Some(content) {
      assert l == l[..3] + l[3..];
    }
  }

  /** The delta a record line carries; 0 for a line that is not a delta record. */
  function DeltaOf(l: Line): int {
    match ParseDeltaRecord(l)
    case Some(d) => d
    case None => 0
  }

  /** The deltas of an encoded stream as the decoder reads them, one per complete pair of lines. */
  function Deltas(encoded: seq<Line>): (ds: seq<int>)
    ensures |ds| == |encoded| / 2
  {
    if |encoded| < 2 then [] else [DeltaOf(encoded[0])] + Deltas(encoded[2..])
  }

  function Sum(xs: seq<int>): int {
    if xs == [] then 0 else xs[0] + Sum(xs[1..])
  }

  /**
   * The running depth after pair i: the start depth plus the delta of each
   * pair 0..i, added one pair at a time as the decoder does.
   */
  function DepthAt(encoded: seq<Line>, previous: int, i: nat): int
    requires 2 * i + 1 < |encoded|
  {
    if i == 0 then previous + DeltaOf(encoded[0]) else DepthAt(encoded[2..], previous + DeltaOf(encoded[0]), i - 1)
  }

  /** The running depth after pair i is the start depth plus the sum of the deltas of pairs 0..i. */
  lemma {:induction false} DepthAtIsSum(encoded: seq<Line>, previous: int, i: nat)
    requires 2 * i + 1 < |encoded|
    ensures DepthAt(encoded, previous, i) == previous + Sum(Deltas(encoded)[..i + 1])
  {
    var delta := DeltaOf(encoded[0]);
    var tail := encoded[2..];
    assert Deltas(encoded) == [delta] + Deltas(tail);
    if i == 0 {
      assert Deltas(encoded)[..1] == [delta];
    } else {
      DepthAtIsSum(tail, previous + delta, i - 1);
      assert Deltas(encoded)[..i + 1] == [delta] + Deltas(tail)[..i];
    }
  }
}
