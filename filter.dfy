/**
 * The signature filter of `_write_clean_email` (Parser.py): one left-to-right
 * pass over the body's lines carrying two flags, `signature_mode` and
 * `recent_delimiter`, that writes or drops each line.
 *
 * `Step` is one iteration of the loop, `Scan` the whole pass as a fold, and
 * `WriteCleanEmail` the loop itself, with the output file replaced by the
 * sequence of lines it would receive.
 */
module SignatureFilter {
  import opened Text
  import opened Rules

  /** The two flags of the loop. */
  datatype State = State(signatureMode: bool, recentDelimiter: bool)

  /** Both flags start out false. */
  const Initial: State := State(false, false)

  /** `_prob_block(line, tagger)`: the share of tokens the part-of-speech
      tagger does not tag as verbs, and the number of tokens. */
  type Scorer = string -> (real, nat)

  /** The tagger-derived score and the `threshold` the loop compares it to. */
  datatype Config = Config(scorer: Scorer, threshold: real)

  /** What one iteration does with its line: the flags afterwards, and
      whether the line is written. */
  datatype Decision = Decision(next: State, keep: bool)

  /** The reachable states: signature mode is only ever entered with
      `recent_delimiter` cleared, and nothing sets it while it lasts. */
  predicate Reachable(st: State)
  {
    st.signatureMode ==> !st.recentDelimiter
  }

  /** The part of the loop body after the signature-mode block, reached with
      `signature_mode` false; `stripped` is the stripped line. */
  function ConversationStep(recentDelimiter: bool, stripped: string): (d: Decision)
    ensures Reachable(d.next)
  {
    if stripped == [] then Decision(State(false, recentDelimiter), true)
    else if IsSignatureStart(stripped) then Decision(State(true, false), false)
    else if IsQuoteDelimiter(stripped) then Decision(State(false, true), true)
    else if IsQuoteHeader(stripped) then Decision(State(false, false), true)
    else if recentDelimiter && LooksLikeContactInfo(stripped) then Decision(State(true, false), false)
    else if IsEmailHeaderLine(stripped) then Decision(State(false, recentDelimiter), true)
    else Decision(State(false, false), true)
  }

  /** One iteration of the loop on `sentence`. In signature mode a header
      line clears both flags and falls through to the conversation rules;
      every other line that is not a terminator is dropped, whatever the
      tagger says. */
  function Step(cfg: Config, st: State, sentence: string): Decision
  {
    var stripped := Strip(sentence);
    if st.signatureMode then
      if IsSignatureTerminator(stripped) then
        Decision(State(false, IsQuoteDelimiter(stripped)), true)
      else if IsEmailHeaderLine(stripped) then
        ConversationStep(false, stripped)
      else if stripped == [] then Decision(st, false)
      else if LooksLikeContactInfo(stripped) then Decision(st, false)
      else if ShouldConsiderProbability(stripped) && ScoredAsSignature(cfg, stripped) then
        Decision(st, false)
      else Decision(st, false)
    else
      ConversationStep(st.recentDelimiter, stripped)
  }

  /** `token_count and score >= threshold` */
  predicate ScoredAsSignature(cfg: Config, stripped: string)
  {
    var (score, tokenCount) := cfg.scorer(stripped);
    tokenCount > 0 && score >= cfg.threshold
  }

  /** The flags after a run of lines, and the lines written. */
  datatype Outcome = Outcome(final: State, written: seq<string>)

  /** The lines `Step` writes, `sentence` or nothing. */
  function Emitted(d: Decision, sentence: string): seq<string>
  {
    if d.keep then [sentence] else []
  }

  /** A loop body: the decision taken on a line in a given state. */
  type Body = (State, string) -> Decision

  /** The loop over `sentences` with body `body`, started in state `st`:
      the flags it ends with and the lines it writes, in order. */
  function Run(body: Body, st: State, sentences: seq<string>): Outcome
    decreases |sentences|
  {
    if sentences == [] then Outcome(st, [])
    else
      var last := sentences[|sentences| - 1];
      var before := Run(body, st, sentences[..|sentences| - 1]);
      var d := body(before.final, last);
      Outcome(d.next, before.written + Emitted(d, last))
  }

  /** The loop of `_write_clean_email` over `sentences`, started in `st`. */
  function Scan(cfg: Config, st: State, sentences: seq<string>): Outcome
  {
    Run((s, sentence) => Step(cfg, s, sentence), st, sentences)
  }

  /** The lines `_write_clean_email` writes for `sentences`. */
  function Clean(cfg: Config, sentences: seq<string>): seq<string>
  {
    Scan(cfg, Initial, sentences).written
  }

  // ---------------------------------------------------------------------
  // The loop

  /** `_write_clean_email(sentences, output_path, tagger, threshold)`, with
      `scorer(line)` standing for `_prob_block(line, tagger)` and the lines
      written to the output file returned in order. */
  method WriteCleanEmail(sentences: seq<string>, scorer: Scorer, threshold: real)
    returns (written: seq<string>)
    ensures written == Clean(Config(scorer, threshold), sentences)
  {
    ghost var cfg := Config(scorer, threshold);
    var signatureMode := false;
    var recentDelimiter := false;
    written := [];
    for i := 0 to |sentences|
      invariant Scan(cfg, Initial, sentences[..i]) == Outcome(State(signatureMode, recentDelimiter), written)
    {
      var sentence := sentences[i];
      ghost var d := Step(cfg, State(signatureMode, recentDelimiter), sentence);
      ScanLast(cfg, sentences, i);
      ghost var before := written;
      assert Scan(cfg, Initial, sentences[..i + 1]) == Outcome(d.next, before + Emitted(d, sentence));
      var stripped := Strip(sentence);

      if signatureMode {
        if IsSignatureTerminator(stripped) {
          signatureMode := false;
          recentDelimiter := IsQuoteDelimiter(stripped);
          written := written + [sentence];
          assert d == Decision(State(signatureMode, recentDelimiter), true);
          continue;
        }

        if IsEmailHeaderLine(stripped) {
          signatureMode := false;
          recentDelimiter := false;
          assert d == ConversationStep(false, stripped);
        } else {
          assert d == Decision(State(signatureMode, recentDelimiter), false);
          if stripped == [] {
            continue;
          }
          if LooksLikeContactInfo(stripped) {
            continue;
          }
          if ShouldConsiderProbability(stripped) {
            var (score, tokenCount) := scorer(stripped);
            if tokenCount > 0 && score >= threshold {
              continue;
            }
          }
          continue;
        }
      } else {
        assert d == ConversationStep(recentDelimiter, stripped);
      }

      assert !signatureMode && d == ConversationStep(recentDelimiter, stripped);
      if stripped == [] {
        written := written + [sentence];
        assert d == Decision(State(signatureMode, recentDelimiter), true);
        continue;
      }
      if IsSignatureStart(stripped) {
        signatureMode := true;
        recentDelimiter := false;
        assert d == Decision(State(signatureMode, recentDelimiter), false);
        continue;
      }
      if IsQuoteDelimiter(stripped) {
        recentDelimiter := true;
        written := written + [sentence];
        assert d == Decision(State(signatureMode, recentDelimiter), true);
        continue;
      }
      if IsQuoteHeader(stripped) {
        recentDelimiter := false;
        written := written + [sentence];
        assert d == Decision(State(signatureMode, recentDelimiter), true);
        continue;
      }
      if recentDelimiter && LooksLikeContactInfo(stripped) {
        signatureMode := true;
        recentDelimiter := false;
        assert d == Decision(State(signatureMode, recentDelimiter), false);
        continue;
      }
      if IsEmailHeaderLine(stripped) {
        written := written + [sentence];
        assert d == Decision(State(signatureMode, recentDelimiter), true);
        continue;
      }
      recentDelimiter := false;
      written := written + [sentence];
      assert d == Decision(State(signatureMode, recentDelimiter), true);
    }
    assert sentences[..|sentences|] == sentences;
  }

  /** One more line: the pass over `xs[..i + 1]` is the pass over `xs[..i]`
      followed by one step on `xs[i]`. */
  lemma ScanLast(cfg: Config, xs: seq<string>, i: nat)
    requires i < |xs|
    ensures var before := Scan(cfg, Initial, xs[..i]);
            var d := Step(cfg, before.final, xs[i]);
            Scan(cfg, Initial, xs[..i + 1]) == Outcome(d.next, before.written + Emitted(d, xs[i]))
  {
    assert xs[..i + 1][..i] == xs[..i];
  }

  // ---------------------------------------------------------------------
  // The pass as a whole

  /** `xs` is `ys` with some elements deleted: each element of `xs` is an
      unmodified element of `ys`, used at most once, in the same order. */
  predicate IsSubsequence(xs: seq<string>, ys: seq<string>)
    decreases |ys|
  {
    if xs == [] then true
    else if ys == [] then false
    else
      (xs[|xs| - 1] == ys[|ys| - 1] && IsSubsequence(xs[..|xs| - 1], ys[..|ys| - 1]))
      || IsSubsequence(xs, ys[..|ys| - 1])
  }

  /** The lines written are an in-order subsequence of the lines read:
      nothing is altered, duplicated, reordered or inserted. */
  lemma {:induction false} RunSubsequence(body: Body, st: State, sentences: seq<string>)
    ensures IsSubsequence(Run(body, st, sentences).written, sentences)
    decreases |sentences|
  {
    if sentences != [] {
      var prefix := sentences[..|sentences| - 1];
      var before := Run(body, st, prefix);
      RunSubsequence(body, st, prefix);
      var d := body(before.final, sentences[|sentences| - 1]);
      var written := Run(body, st, sentences).written;
      if d.keep {
        assert written[..|written| - 1] == before.written;
      } else {
        assert written == before.written;
      }
    }
  }

  /** `_write_clean_email` writes a subsequence of its input lines. */
  lemma CleanIsSubsequence(cfg: Config, sentences: seq<string>)
    ensures IsSubsequence(Clean(cfg, sentences), sentences)
  {
    RunSubsequence((s, sentence) => Step(cfg, s, sentence), Initial, sentences);
  }

  /** Single pass: the lines written for `xs + ys` are those written for
      `xs`, followed by those written for `ys` from the state `xs` left;
      the decision on a line depends on no later line. */
  lemma {:induction false} RunAppend(body: Body, st: State, xs: seq<string>, ys: seq<string>)
    ensures var first := Run(body, st, xs);
            var second := Run(body, first.final, ys);
            Run(body, st, xs + ys) == Outcome(second.final, first.written + second.written)
    decreases |ys|
  {
    var first := Run(body, st, xs);
    if ys == [] {
      assert xs + ys == xs;
    } else {
      var ys' := ys[..|ys| - 1];
      var last := ys[|ys| - 1];
      assert (xs + ys)[..|xs + ys| - 1] == xs + ys';
      assert (xs + ys)[|xs + ys| - 1] == last;
      RunAppend(body, st, xs, ys');
      var second' := Run(body, first.final, ys');
      var e := Emitted(body(second'.final, last), last);
      assert (first.written + second'.written) + e == first.written + (second'.written + e);
    }
  }

  /** Single pass, for `_write_clean_email`: what it writes for `xs + ys` is
      what it writes for `xs`, then what the loop writes for `ys` from the
      flags `xs` left. */
  lemma CleanAppend(cfg: Config, xs: seq<string>, ys: seq<string>)
    ensures Clean(cfg, xs + ys)
            == Clean(cfg, xs) + Scan(cfg, Scan(cfg, Initial, xs).final, ys).written
  {
    RunAppend((s, sentence) => Step(cfg, s, sentence), Initial, xs, ys);
  }

  /** `Clean` on a prefix is a prefix of `Clean`: lines already written are
      never taken back. */
  lemma CleanPrefix(cfg: Config, xs: seq<string>, ys: seq<string>)
    ensures Clean(cfg, xs) <= Clean(cfg, xs + ys)
  {
    RunAppend((s, sentence) => Step(cfg, s, sentence), Initial, xs, ys);
  }

  /** Two loop bodies that agree on every state and line give the same run. */
  lemma {:induction false} RunAgree(body1: Body, body2: Body, st: State, sentences: seq<string>)
    requires forall s, sentence :: body1(s, sentence) == body2(s, sentence)
    ensures Run(body1, st, sentences) == Run(body2, st, sentences)
    decreases |sentences|
  {
    if sentences != [] {
      RunAgree(body1, body2, st, sentences[..|sentences| - 1]);
    }
  }

  /** The scorer and the threshold never change a step: in signature mode
      the scored branch drops the line exactly as the fall-through after it
      does. */
  lemma StepIgnoresScorer(cfg1: Config, cfg2: Config, st: State, sentence: string)
    ensures Step(cfg1, st, sentence) == Step(cfg2, st, sentence)
  {
  }

  /** Hence the scorer and the threshold never change what is written. */
  lemma ScanIgnoresScorer(cfg1: Config, cfg2: Config, st: State, sentences: seq<string>)
    ensures Scan(cfg1, st, sentences) == Scan(cfg2, st, sentences)
  {
    forall s, sentence ensures Step(cfg1, s, sentence) == Step(cfg2, s, sentence) {
      StepIgnoresScorer(cfg1, cfg2, s, sentence);
    }
    RunAgree((s, sentence) => Step(cfg1, s, sentence), (s, sentence) => Step(cfg2, s, sentence), st, sentences);
  }

  /** Every step keeps the state reachable. */
  lemma StepReachable(cfg: Config, st: State, sentence: string)
    requires Reachable(st)
    ensures Reachable(Step(cfg, st, sentence).next)
  {
  }

  /** A loop whose body keeps the state reachable ends in a reachable state. */
  lemma {:induction false} RunReachable(body: Body, st: State, sentences: seq<string>)
    requires Reachable(st)
    requires forall s, sentence :: Reachable(s) ==> Reachable(body(s, sentence).next)
    ensures Reachable(Run(body, st, sentences).final)
    decreases |sentences|
  {
    if sentences != [] {
      RunReachable(body, st, sentences[..|sentences| - 1]);
    }
  }

  /** The pass only visits reachable states. */
  lemma ScanReachable(cfg: Config, st: State, sentences: seq<string>)
    requires Reachable(st)
    ensures Reachable(Scan(cfg, st, sentences).final)
  {
    forall s, sentence | Reachable(s) ensures Reachable(Step(cfg, s, sentence).next) {
      StepReachable(cfg, s, sentence);
    }
    RunReachable((s, sentence) => Step(cfg, s, sentence), st, sentences);
  }

  /** A loop whose body writes every line and stays in `st` writes
      everything and ends in `st`. */
  lemma {:induction false} RunKeepsAll(body: Body, st: State, sentences: seq<string>)
    requires forall i :: 0 <= i < |sentences| ==> body(st, sentences[i]) == Decision(st, true)
    ensures Run(body, st, sentences) == Outcome(st, sentences)
    decreases |sentences|
  {
    if sentences != [] {
      var prefix := sentences[..|sentences| - 1];
      var last := sentences[|sentences| - 1];
      RunKeepsAll(body, st, prefix);
      assert body(st, last) == Decision(st, true);
      assert prefix + [last] == sentences;
    }
  }

  /** Outside signature mode and with `recent_delimiter` clear, a line that
      is neither a signature start nor a quote delimiter is written and
      leaves both flags clear. */
  lemma StepWithoutCues(cfg: Config, sentence: string)
    requires !IsSignatureStart(Strip(sentence)) && !IsQuoteDelimiter(Strip(sentence))
    ensures Step(cfg, Initial, sentence) == Decision(Initial, true)
  {
  }

  /** Without a closing, an auto-signature or a quote delimiter among the
      lines, signature mode is never entered and every line is written:
      `recent_delimiter` is only set by a delimiter, and without it the
      contact rule cannot fire. */
  lemma ScanWithoutCues(cfg: Config, sentences: seq<string>)
    requires forall i :: 0 <= i < |sentences| ==>
               !IsSignatureStart(Strip(sentences[i])) && !IsQuoteDelimiter(Strip(sentences[i]))
    ensures Scan(cfg, Initial, sentences) == Outcome(Initial, sentences)
  {
    forall i | 0 <= i < |sentences| ensures Step(cfg, Initial, sentences[i]) == Decision(Initial, true) {
      StepWithoutCues(cfg, sentences[i]);
    }
    RunKeepsAll((s, sentence) => Step(cfg, s, sentence), Initial, sentences);
  }

  /** A loop whose body drops every line and stays in `st` writes nothing
      and ends in `st`. */
  lemma {:induction false} RunDropsAll(body: Body, st: State, sentences: seq<string>)
    requires forall i :: 0 <= i < |sentences| ==> body(st, sentences[i]) == Decision(st, false)
    ensures Run(body, st, sentences) == Outcome(st, [])
    decreases |sentences|
  {
    if sentences != [] {
      var prefix := sentences[..|sentences| - 1];
      RunDropsAll(body, st, prefix);
      assert body(st, sentences[|sentences| - 1]) == Decision(st, false);
    }
  }

  /** Once signature mode is on, lines that are neither terminators nor
      header lines are all dropped and signature mode stays on. */
  lemma ScanSignatureBlock(cfg: Config, sentences: seq<string>)
    requires forall i :: 0 <= i < |sentences| ==>
               !IsSignatureTerminator(Strip(sentences[i])) && !IsEmailHeaderLine(Strip(sentences[i]))
    ensures Scan(cfg, State(true, false), sentences) == Outcome(State(true, false), [])
  {
    var st := State(true, false);
    forall i | 0 <= i < |sentences| ensures Step(cfg, st, sentences[i]) == Decision(st, false) {
      SignatureModeStep(cfg, st, sentences[i]);
    }
    RunDropsAll((s, sentence) => Step(cfg, s, sentence), st, sentences);
  }

  /** A loop that writes every line of `xs` staying in `st`, then drops `x`
      moving to `st'`, then drops every line of `ys` staying in `st'`,
      writes exactly `xs`. */
  lemma RunKeepThenDrop(body: Body, st: State, st': State, xs: seq<string>, x: string, ys: seq<string>)
    requires forall i :: 0 <= i < |xs| ==> body(st, xs[i]) == Decision(st, true)
    requires body(st, x) == Decision(st', false)
    requires forall i :: 0 <= i < |ys| ==> body(st', ys[i]) == Decision(st', false)
    ensures Run(body, st, xs + [x] + ys).written == xs
  {
    RunKeepsAll(body, st, xs);
    RunAppend(body, st, xs, [x]);
    assert [x][..0] == [];
    RunDropsAll(body, st', ys);
    RunAppend(body, st, xs + [x], ys);
  }

  /** A message body without signature cues, then a closing or an
      auto-signature, then a signature block of lines that are neither
      terminators nor header lines: only the body is written. The closing
      itself is dropped with the block. */
  lemma SignatureBlockRemoved(cfg: Config, body: seq<string>, closing: string, block: seq<string>)
    requires forall i :: 0 <= i < |body| ==>
               !IsSignatureStart(Strip(body[i])) && !IsQuoteDelimiter(Strip(body[i]))
    requires IsSignatureStart(Strip(closing))
    requires forall i :: 0 <= i < |block| ==>
               !IsSignatureTerminator(Strip(block[i])) && !IsEmailHeaderLine(Strip(block[i]))
    ensures Clean(cfg, body + [closing] + block) == body
  {
    var signature := State(true, false);
    forall i | 0 <= i < |body| ensures Step(cfg, Initial, body[i]) == Decision(Initial, true) {
      StepWithoutCues(cfg, body[i]);
    }
    SignatureStartInConversation(cfg, Initial, closing);
    forall i | 0 <= i < |block| ensures Step(cfg, signature, block[i]) == Decision(signature, false) {
      SignatureModeStep(cfg, signature, block[i]);
    }
    RunKeepThenDrop((s, sentence) => Step(cfg, s, sentence), Initial, signature, body, closing, block);
  }

  // ---------------------------------------------------------------------
  // One step

  /** In conversation mode a blank line is written and changes neither flag. */
  lemma BlankLineInConversation(cfg: Config, st: State, sentence: string)
    requires !st.signatureMode && Strip(sentence) == []
    ensures Step(cfg, st, sentence) == Decision(st, true)
  {
  }

  /** In conversation mode a closing or an auto-signature is dropped and
      opens signature mode, clearing `recent_delimiter`. */
  lemma SignatureStartInConversation(cfg: Config, st: State, sentence: string)
    requires !st.signatureMode && IsSignatureStart(Strip(sentence))
    ensures Step(cfg, st, sentence) == Decision(State(true, false), false)
  {
    EmptyIsNotSignatureStart();
  }

  /** In signature mode a line is written exactly when it is a quote
      delimiter, a quote header or a header line; a written line ends
      signature mode, and a dropped one leaves both flags as they were. */
  lemma SignatureModeStep(cfg: Config, st: State, sentence: string)
    requires st.signatureMode
    ensures var d := Step(cfg, st, sentence);
            var stripped := Strip(sentence);
            && (d.keep <==> IsSignatureTerminator(stripped) || IsEmailHeaderLine(stripped))
            && (d.keep ==> !d.next.signatureMode)
            && (!d.keep ==> d.next == st)
  {
    var stripped := Strip(sentence);
    if !IsSignatureTerminator(stripped) && IsEmailHeaderLine(stripped) {
      HeaderIsNotSignatureStart(stripped);
    }
  }

  /** After a terminator, `recent_delimiter` says whether it was a quote
      delimiter (rather than a quote header). */
  lemma TerminatorInSignature(cfg: Config, st: State, sentence: string)
    requires st.signatureMode && IsSignatureTerminator(Strip(sentence))
    ensures Step(cfg, st, sentence) == Decision(State(false, IsQuoteDelimiter(Strip(sentence))), true)
  {
  }

  /** A header line in signature mode is written and clears both flags. */
  lemma HeaderLineInSignature(cfg: Config, st: State, sentence: string)
    requires st.signatureMode && IsEmailHeaderLine(Strip(sentence))
    requires !IsSignatureTerminator(Strip(sentence))
    ensures Step(cfg, st, sentence) == Decision(State(false, false), true)
  {
    HeaderIsNotSignatureStart(Strip(sentence));
  }

  /** In conversation mode a header line that is not a terminator, and is
      not read as contact information after a delimiter, is written and
      leaves both flags as they were: `recent_delimiter` survives it. */
  lemma HeaderLineInConversation(cfg: Config, st: State, sentence: string)
    requires !st.signatureMode && IsEmailHeaderLine(Strip(sentence))
    requires !IsSignatureTerminator(Strip(sentence))
    requires !(st.recentDelimiter && LooksLikeContactInfo(Strip(sentence)))
    ensures Step(cfg, st, sentence) == Decision(st, true)
  {
    var stripped := Strip(sentence);
    HeaderIsNotSignatureStart(stripped);
    var p :| p in EmailHeaderPrefixes && StartsWith(Lower(stripped), p);
    HeaderPrefixLetters(p);
  }

  /** A quoted closing such as `> Thanks` is a quote delimiter, yet in
      conversation mode the closing rule comes first: the line is dropped
      and opens signature mode. */
  lemma QuotedClosingInConversation(cfg: Config, st: State, c: string)
    requires !st.signatureMode && Lower(c) in SignatureClosings
    ensures IsQuoteDelimiter("> " + c)
    ensures Step(cfg, st, "> " + c) == Decision(State(true, false), false)
  {
    QuotedClosingIsSignatureStart(c);
    SignatureStartInConversation(cfg, st, "> " + c);
    QuotedClosingIsDelimiter(c);
  }

  /** In conversation mode a quote delimiter that is not a closing or an
      auto-signature is written and sets `recent_delimiter`. */
  lemma QuoteDelimiterInConversation(cfg: Config, st: State, sentence: string)
    requires !st.signatureMode && IsQuoteDelimiter(Strip(sentence))
    requires !IsSignatureStart(Strip(sentence))
    ensures Step(cfg, st, sentence) == Decision(State(false, true), true)
  {
    assert Strip(sentence) != [] by {
      assert Strip([]) == [];
    }
  }

  /** In conversation mode a quote header that is neither a signature start
      nor a quote delimiter is written and clears `recent_delimiter`. */
  lemma QuoteHeaderInConversation(cfg: Config, st: State, sentence: string)
    requires !st.signatureMode && IsQuoteHeader(Strip(sentence))
    requires !IsSignatureStart(Strip(sentence)) && !IsQuoteDelimiter(Strip(sentence))
    ensures Step(cfg, st, sentence) == Decision(State(false, false), true)
  {
    assert |Lower(Strip(sentence))| >= 3;
  }

  /** In signature mode a line `On <date>, <name> wrote:` is written and
      ends signature mode. */
  lemma QuoteHeaderInSignature(cfg: Config, st: State, x: string)
    requires st.signatureMode
    ensures Step(cfg, st, "On " + x + " wrote:")
            == Decision(State(false, IsQuoteDelimiter(Strip("On " + x + " wrote:"))), true)
  {
    QuoteHeaderLine(x);
    TerminatorInSignature(cfg, st, "On " + x + " wrote:");
  }

  /** In conversation mode, right after a quote delimiter (with only blank
      or header lines between), a line that is contact information and
      neither a signature start nor a terminator is dropped and opens
      signature mode, clearing `recent_delimiter`. */
  lemma ContactAfterDelimiter(cfg: Config, st: State, sentence: string)
    requires !st.signatureMode && st.recentDelimiter
    requires Strip(sentence) != [] && !IsSignatureStart(Strip(sentence))
    requires !IsSignatureTerminator(Strip(sentence))
    requires LooksLikeContactInfo(Strip(sentence))
    ensures Step(cfg, st, sentence) == Decision(State(true, false), false)
  {
  }

  /** The contact rule comes before the header rule: after a delimiter such
      as `---------- Forwarded message ----------`, a header line that is
      also contact information, such as `From: Jane <jane@example.org>`, is
      dropped and opens signature mode. */
  lemma HeaderContactAfterDelimiter(cfg: Config, st: State, sentence: string)
    requires !st.signatureMode && st.recentDelimiter
    requires IsEmailHeaderLine(Strip(sentence)) && !IsSignatureTerminator(Strip(sentence))
    requires LooksLikeContactInfo(Strip(sentence))
    ensures Step(cfg, st, sentence) == Decision(State(true, false), false)
  {
    var stripped := Strip(sentence);
    HeaderIsNotSignatureStart(stripped);
    var p :| p in EmailHeaderPrefixes && StartsWith(Lower(stripped), p);
    HeaderPrefixLetters(p);
    ContactAfterDelimiter(cfg, st, sentence);
  }

  /** In signature mode a line opening with a header name, such as the
      `Date:` line of a forwarded message, is written and ends signature
      mode. */
  lemma HeaderPrefixEndsSignature(cfg: Config, st: State, pre: string, h: string, rest: string)
    requires st.signatureMode
    requires forall k :: 0 <= k < |pre| ==> pre[k] in Whitespace
    requires Lower(h) in EmailHeaderPrefixes
    requires h != [] && h[0] !in Whitespace && h[|h| - 1] !in Whitespace
    ensures var d := Step(cfg, st, pre + h + rest);
            d.keep && !d.next.signatureMode
  {
    HeaderPrefixLine(pre, h, rest);
    SignatureModeStep(cfg, st, pre + h + rest);
  }
}
