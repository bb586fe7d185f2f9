# intolmerge in Dafny

intolmerge merges three versions of a tab-indented text file so that a change
of indentation and a change of content on the same line do not conflict. It
does this by rewriting every line as two lines before a line-based three-way
merge (diff3) and rewriting the merged result back:

    t: <signed decimal change of tab depth from the previous line>
    c: <the line after its leading tabs>

This project models that transform and proves what it promises:

- the encoder `text_to_intolmerge` (`Encoder.Encode`), a loop over the lines
  that keeps the depth of the previous line;
- the decoder `intolmerge_to_text` (`Decoder.Decode`), a loop over pairs of
  lines that keeps the running depth and fails with `InvalidDelta` or
  `InvalidContent` where the Ruby code prints an error and exits;
- the data flow of `merge`: encode base, left and right, call the merger with
  (left, base, right), then decode (`Merge.Merge`). The merger is a function
  parameter.

Both loops are methods proved equal to pure specification functions
(`Encoder.EncodeSpec`, `Decoder.DecodeFrom`). The lemmas are stated about
those functions. The headline lemma is `Reversibility.RoundTrip`: decoding
what the encoder wrote gives back the original lines.

Modules, in dependency order:

| file | module | contents |
|---|---|---|
| wrappers.dfy | `Wrappers` | `Option` and `Result` |
| int_text.dfy | `IntText` | decimal text of an integer, and the parse of `-?[0-9]+` with `to_i` |
| line_format.dfy | `LineFormat` | tab depth and remainder of a line, the two record lines and their parsers, running depth |
| encoder.dfy | `Encoder` | the encoder and its lemmas |
| decoder.dfy | `Decoder` | the decoder and its lemmas, conflict delimiters |
| reversibility.dfy | `Reversibility` | decode after encode |
| merge.dfy | `Merge` | the merge data flow |

How the model treats lines:

- A file is a `Document`. It holds the lines of `File.readlines` without
  their terminators, and a flag saying whether the last line ended in a
  newline.
- The encoder matches `\A(\t*)([^\t].*)\Z` against each raw line.
  - A kept newline satisfies `[^\t]`, so every terminated line matches.
    That includes empty lines and lines made only of tabs.
  - The pattern fails only on an unterminated last line made only of tabs.
    Ruby then raises on `nil` at line 17.
  - A `Document` whose unterminated last line is empty matches no file,
    because `File.readlines` never yields an empty line. The model also calls
    such a value not encodable.
  - The model returns `Failure(NoIndentMatch)` in that case.
  - For a terminated all-tab line, Ruby's second group is the newline itself.
    `puts` then writes `c: ` and one newline, which is the content record of
    an empty remainder. That is what the model writes.
- The decoder checks the delta line first. It then builds `"\t" * depth`,
  which raises `ArgumentError` for a negative depth before the content line
  is looked at. Only after that is the content line checked.
  - The model keeps this order. A negative depth is `InvalidDelta`.
  - A final pair with no content line (`suffix_line` is `nil`, and Ruby
    raises `NoMethodError`) is `InvalidContent`.

diff3's conflict delimiters do not pass through decoding:

- A delimiter line (`<<<<<<<`, `|||||||`, `=======`, `>>>>>>>`) is neither a
  `t: ` line nor a `c: ` line.
- So `intolmerge_to_text` exits at the pair that holds the delimiter, or at
  an earlier pair if that one is malformed.
- `Decoder.ConflictMarkerRejected` and `Merge.MergeWithConflictFails` prove
  this. Every merge whose merged encoding holds a conflict delimiter ends in
  a decoding error.

## Model

| member | source | states |
|---|---|---|
| IntText.ParseInt | intolmerge.rb:40-41 | accepts exactly an optional minus sign followed by one or more digits, read as `to_i` does (leading zeros and `-0` included); characterised by `IntText.ParseShowInt` and `IntText.ShowParseCanonical` |
| LineFormat.DeltaRecord | intolmerge.rb:20 | the delta line `t: <delta>`; characterised by `LineFormat.DeltaRecordRoundTrip` and `LineFormat.DeltaRecordCanonical` |
| LineFormat.ContentRecord | intolmerge.rb:21 | the content line `c: <rest>`, unescaped; characterised by `LineFormat.ContentRecordInverse` |
| LineFormat.ParseDeltaRecord | intolmerge.rb:40-41 | the delta pattern `\At: (-?[0-9]+)\Z` with `to_i`; characterised by `LineFormat.DeltaRecordRoundTrip`, `LineFormat.DeltaRecordCanonical` and `Decoder.MarkerIsNotRecord` |
| LineFormat.ParseContentRecord | intolmerge.rb:46-47 | the content pattern `\Ac: (.*)\Z`; characterised by `LineFormat.ContentRecordInverse` and `Decoder.MarkerIsNotRecord` |
| Encoder.Encodable | intolmerge.rb:15-17 | whether the line pattern matches every line; characterised by `Encoder.EncodableIff` |
| Encoder.EncodeSpec | intolmerge.rb:15-17 | the encoding of a document, or `NoIndentMatch` when the pattern fails; characterised by `Encoder.Encode`, `Encoder.EncodedLinesAt`, `Encoder.EncodedDeltasSum` and `Reversibility.RoundTrip` |
| Decoder.DecodeFrom | intolmerge.rb:39-61 | the decoding of a stream from a start depth, with the checks in Ruby's order; characterised by `Decoder.Decode`, `Decoder.DecodeSucceedsIff`, `Decoder.DecodeErrorAt` and `Decoder.DecodedLineAt` |
| Merge.MergeSpec | intolmerge.rb:106-115 | encode base, left and right, merge as (left, base, right), decode; characterised by `Merge.Merge` and the `Merge.MergeOf…` lemmas |
| IntText.ShowInt | intolmerge.rb:20 | the decimal text interpolated for a delta is non-empty and has no newline, so `t: <delta>` is one line |
| IntText.ShowNatDigits | intolmerge.rb:20 | the decimal text of a natural number is all digits, has no leading zero unless the number is 0, and its digits read back as the number |
| IntText.ParseShowInt | intolmerge.rb:40-41 | parsing with `-?[0-9]+` and `to_i` the text the encoder interpolated (line 20) gives back the same integer |
| IntText.ShowIntCanonical | intolmerge.rb:20 | the interpolated text has no redundant leading zero and no negative zero |
| IntText.ShowParseCanonical | intolmerge.rb:40-41 | on canonical digit text, parsing and writing again gives the same text, so show and parse are inverse on that side too |
| LineFormat.Depth | intolmerge.rb:16-18 | the tab count of a line is at most its length |
| LineFormat.DepthIsLeadingTabRun | intolmerge.rb:16-18 | the tab count is the length of the maximal leading run of tabs: every character before it is a tab and the next one is not |
| LineFormat.DepthAppend | intolmerge.rb:15-16 | the tab run of a line followed by a newline stops inside the line unless the line is all tabs |
| LineFormat.Rest | intolmerge.rb:16 | the remainder after the tab run does not start with a tab |
| LineFormat.Tabs | intolmerge.rb:43 | `"\t" * n` is n characters, all tabs |
| LineFormat.SplitJoin | intolmerge.rb:16-17 | a line is its tab run followed by its remainder, so nothing is lost when a line is split |
| LineFormat.DeltaRecordRoundTrip | intolmerge.rb:40-41 | the delta line written at line 20 matches the decoder's delta pattern and carries the same delta |
| LineFormat.DeltaRecordCanonical | intolmerge.rb:40-41 | a delta line with canonical digits is exactly the line the encoder writes for the delta it carries |
| LineFormat.ContentRecordInverse | intolmerge.rb:46-47 | the content line written at line 21 and the decoder's content pattern are inverse, in both directions, with no escaping |
| LineFormat.Deltas | intolmerge.rb:39-41 | the decoder reads one delta per complete pair of lines |
| LineFormat.DepthAtIsSum | intolmerge.rb:41-42 | the running depth after pair i, updated one pair at a time as in lines 42 and 56, is the start depth plus the sum of the deltas of pairs 0..i |
| Encoder.RawLine | intolmerge.rb:15 | line k as `File.readlines` yields it, with its newline kept unless it is an unterminated last line; pinned down by `Encoder.EncodableIff` |
| Encoder.IndentMatches | intolmerge.rb:16 | the pattern `\A(\t*)([^\t].*)\Z` matches a raw line exactly when a character other than a tab follows its leading tab run; pinned down by `Encoder.EncodableIff` |
| LineFormat.DepthAt | intolmerge.rb:41-56 | the running depth after pair i: the start depth plus each delta in turn, as `previous_tabs_count + delta_tabs_count` at line 42 and the update at line 56; pinned down by `LineFormat.DepthAtIsSum` |
| Encoder.EncodableIff | intolmerge.rb:15-17 | the encoder gets through a document exactly when the indentation pattern matches every raw line; only an unterminated all-tab last line fails |
| Encoder.EncodeFrom | intolmerge.rb:24-25 | two output lines per input line |
| Encoder.Encode | intolmerge.rb:11-28 | the loop returns the encoding of the document, with the previous depth starting at 0, or `NoIndentMatch` exactly when the document is not encodable |
| Encoder.EncodedHead | intolmerge.rb:15-25 | the first two output lines parse back as the first line's delta and remainder; the rest is the encoding of the other lines from that line's depth |
| Encoder.EncodedLinesAt | intolmerge.rb:15-25 | output lines 2i and 2i+1 are the delta record (depth of line i minus depth of line i-1, or minus the start depth for line 0) and the content record of line i |
| Encoder.EncodedDepthAt | intolmerge.rb:13-22 | the deltas written for lines 0..i, added one by one to the start depth, give the depth of line i |
| Encoder.EncodedDeltasSum | intolmerge.rb:18-22 | the start depth plus the sum of the deltas written for lines 0..i is the depth of line i |
| Encoder.IndentChangeKeepsContents | intolmerge.rb:16-21 | changing only the indentation of lines leaves every content record unchanged |
| Encoder.ContentChangeKeepsDeltas | intolmerge.rb:16-21 | changing only what follows the indentation leaves every delta record unchanged |
| Decoder.Decode | intolmerge.rb:35-64 | the pairwise loop with its running depth returns exactly the decoding of the whole input from depth 0, errors included |
| Decoder.DecodedLength | intolmerge.rb:39 | a stream that decodes has exactly two lines per decoded line, so an odd count never decodes |
| Decoder.DecodedHead | intolmerge.rb:39-50 | a non-empty stream that decodes starts with a delta record and a content record; they give the first line, and the rest decodes from the depth they reach |
| Decoder.DecodedLineAt | intolmerge.rb:39-56 | decoded line i comes from lines 2i and 2i+1: both are records, the running depth after pair i is not negative, and the line is that many tabs followed by the content |
| Decoder.DecodedLineDepth | intolmerge.rb:41-48 | decoded line i is the start depth plus the sum of the deltas of pairs 0..i in tabs, followed by the content of pair i |
| Decoder.DecodeSucceedsIff | intolmerge.rb:39-61 | decoding succeeds if and only if the line count is even, every pair has a delta line and a content line, and no running depth is negative |
| Decoder.WellFormedDecodes | intolmerge.rb:39-61 | one direction of the previous row: well-formed pairs with non-negative running depths always decode |
| Decoder.DecodeErrorAt | intolmerge.rb:39-61 | once earlier pairs decode, a bad delta line or a negative depth is `InvalidDelta` whatever follows; only then is a missing or malformed content line `InvalidContent` |
| Decoder.DecodedLineIsRecord | intolmerge.rb:40-46 | every line of a stream that decodes is a delta record or a content record |
| Decoder.MarkerIsNotRecord | intolmerge.rb:40-46 | a conflict delimiter matches neither the delta pattern nor the content pattern |
| Decoder.ConflictMarkerRejected | intolmerge.rb:39-61 | a stream that holds a conflict delimiter anywhere does not decode |
| Reversibility.DecodeEncoded | intolmerge.rb:11-64 | decoding from depth d what the encoder wrote from depth d gives back the lines |
| Reversibility.RoundTrip | intolmerge.rb:11-64 | every document the encoder accepts is encoded, and decodes back to its own lines |
| Merge.Merge | intolmerge.rb:106-115 | encodes base, left and right in that order, stopping at the first failure, calls the merger with (left, base, right) and returns the decoding of its output |
| Merge.MergeOfIdenticalInputs | intolmerge.rb:106-115 | merging a document with itself gives it back when the merger leaves three equal inputs alone |
| Merge.MergeOfLeftChange | intolmerge.rb:106-115 | when only the left side changed and the merger then takes it, the result is the left document |
| Merge.MergeOfRightChange | intolmerge.rb:106-115 | when only the right side changed and the merger then takes it, the result is the right document |
| Merge.MergeWithConflictFails | intolmerge.rb:106-115 | a merged encoding that holds a conflict delimiter ends in a decoding error |

## Left out

- File access is not modelled. That covers `File.open`, `File.readlines` and `puts` to the destination file, `File.expand_path` and the `File.file?` checks in `merge`, `Dir.mktmpdir`, the `Tempfile` lifecycle with its `ensure`/`unlink` cleanup, and the copy of the output to standard output. Documents and encodings are passed as values instead.
- The diff3 subprocess (`Open3.popen3` with `-m`) is not modelled. It is an external program, so the model takes it as an uninterpreted `Merger` function called with (left, base, right). Its algorithm and its conflict-marker format are not modelled; only the shape of a delimiter line is.
- `STDERR` messages and `exit(1)` become `Failure` results. Missing input files are not modelled, since file access is left out.
- The exceptions Ruby raises are also modelled as results rather than crashes:
  - the `nil` match at line 17 is `NoIndentMatch`;
  - `"\t" * negative` at line 43 is `InvalidDelta`;
  - `nil.match` on a missing content line at line 46 is `InvalidContent`.
- `require 'pry'` is unused, so it is left out.
- Line terminators other than a final `"\n"`, such as `"\r\n"`, get no special treatment: a `"\r"` is an ordinary character of the line.
- Content lines that look like records are not escaped by the format. The model does not try to say anything about them beyond what the decoder does.
- Decoder.DecodeFrom: the running depth is unbounded. At line 43, `"\t" * tabs_count` raises RangeError for a depth above 2^63 − 1 and runs out of memory for a depth too large to allocate; either way the run exits. The model decodes those depths like any other.
- Line: a model line is a sequence of valid characters. A file whose bytes are not valid in Ruby's default external encoding makes `match` raise ArgumentError at line 16, or at lines 40 and 46 on the merged encoding. The model cannot express that failure.
- Document.finalNewline: decoding gives back lines only. The decoder writes every line with `puts` at line 50, and `merge` writes each again with `STDOUT.puts` at line 118. So the merged output always ends in a newline, even when the inputs did not. `Reversibility.RoundTrip` compares only the lines.
