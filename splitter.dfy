/**
 * `_corpus_to_sentences`: `corpus.splitlines(keepends=True)`, with `'\n'` as
 * the only line terminator (the body has had its `\r\n` pairs rewritten to
 * `\n` before it is split). Every line keeps its terminator, so joining the
 * lines gives the corpus back.
 */
module Splitter {

  /** Concatenation of a sequence of lines (`"".join(lines)`). */
  function Join(lines: seq<string>): string
  {
    if lines == [] then [] else lines[0] + Join(lines[1..])
  }

  /** A line as `splitlines(keepends=True)` produces it: non-empty, and a
      `'\n'` can only be its last character. */
  predicate IsLine(line: string)
  {
    line != [] && forall k :: 0 <= k < |line| - 1 ==> line[k] != '\n'
  }

  /** A line that ends with its terminator. */
  predicate IsTerminated(line: string)
  {
    line != [] && line[|line| - 1] == '\n'
  }

  /** What `splitlines(keepends=True)` can return: lines, all of them
      terminated except perhaps the last one. */
  predicate IsLineSequence(lines: seq<string>)
  {
    (forall i :: 0 <= i < |lines| ==> IsLine(lines[i])) &&
    forall i :: 0 <= i < |lines| - 1 ==> IsTerminated(lines[i])
  }

  /** Length of the first line of `s`, its terminator included. */
  function FirstLineLength(s: string): (n: nat)
    requires s != []
    ensures 1 <= n <= |s|
    ensures forall k :: 0 <= k < n - 1 ==> s[k] != '\n'
    ensures n < |s| ==> s[n - 1] == '\n'
  {
    if s[0] == '\n' || |s| == 1 then 1 else 1 + FirstLineLength(s[1..])
  }

  /** `_corpus_to_sentences(corpus)` */
  function SplitLines(corpus: string): (lines: seq<string>)
    ensures IsLineSequence(lines)
    decreases |corpus|
  {
    if corpus == [] then []
    else
      var n := FirstLineLength(corpus);
      [corpus[..n]] + SplitLines(corpus[n..])
  }

  /** Joining the lines gives back the corpus, byte for byte. */
  lemma {:induction false} JoinSplitLines(corpus: string)
    ensures Join(SplitLines(corpus)) == corpus
    decreases |corpus|
  {
    if corpus != [] {
      var n := FirstLineLength(corpus);
      JoinSplitLines(corpus[n..]);
      assert corpus[..n] + corpus[n..] == corpus;
    }
  }

  /** The length of the first line of a joined line sequence is that of
      its first line. */
  lemma FirstLineOfJoin(lines: seq<string>)
    requires lines != [] && IsLineSequence(lines)
    ensures Join(lines) != []
    ensures FirstLineLength(Join(lines)) == |lines[0]|
    ensures Join(lines)[..|lines[0]|] == lines[0]
    ensures Join(lines)[|lines[0]|..] == Join(lines[1..])
  {
    var s := Join(lines);
    var l := lines[0];
    assert s == l + Join(lines[1..]);
    var n := FirstLineLength(s);
    assert n <= |l| by {
      if |lines| > 1 {
        assert IsTerminated(lines[0]) && s[|l| - 1] == l[|l| - 1];
      }
    }
  }

  /** Splitting a joined line sequence gives the same lines back. */
  lemma {:induction false} SplitLinesJoin(lines: seq<string>)
    requires IsLineSequence(lines)
    ensures SplitLines(Join(lines)) == lines
    decreases |lines|
  {
    if lines != [] {
      FirstLineOfJoin(lines);
      assert IsLineSequence(lines[1..]);
      SplitLinesJoin(lines[1..]);
    }
  }
}
