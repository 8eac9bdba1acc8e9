# EmailParser signature filter, modelled in Dafny

EmailParser (`Parser.py`) turns a plaintext email into a copy with the
signature block removed. Its core is `_write_clean_email`. It makes one
left-to-right pass over the body's lines and carries two flags:

- `signature_mode`: inside a signature block.
- `recent_delimiter`: a quote delimiter was seen and nothing since has
  cleared the flag.

In signature mode the loop tests, in order:

1. A terminator (a quote delimiter or a quote header) is written. It ends
   signature mode and sets `recent_delimiter` exactly when it is a quote
   delimiter.
2. An email header line ends signature mode, clears `recent_delimiter`
   and goes on to the conversation rules below.
3. Every other line is dropped, and both flags stay as they are.

In conversation mode it tests, in order:

1. A blank line is written, and both flags stay as they are.
2. A closing or an auto-signature is dropped. It turns signature mode on
   and clears `recent_delimiter`.
3. A quote delimiter is written and sets `recent_delimiter`. This covers a
   header line that is also a delimiter, such as
   `Subject: Fwd: forwarded message`.
4. A quote header is written and clears `recent_delimiter`.
5. While `recent_delimiter` is set, contact information is dropped. It
   turns signature mode on and clears the flag. Blank lines and
   non-contact header lines in between do not clear the flag.
6. An email header line is written, and both flags stay as they are.
7. Any other line is written and clears `recent_delimiter`.

The rules rest on a set of string predicates:

- closings and auto-signatures: `_is_signature_start`, `_normalize_sentence`;
- contact-card lines: `_looks_like_contact_info`;
- quoted replies: `_is_quote_delimiter`, `_is_quote_header`,
  `_is_signature_terminator`;
- raw header lines: `_is_email_header_line`;
- the length test that gates the part-of-speech score:
  `_should_consider_probability`.

The body is cut into lines by `_corpus_to_sentences`.

The project has four modules:

- `Text` (`text.dfy`): the Python `str` built-ins the predicates use.
  These are `strip`, `strip(chars)`, `lower`, `split()`, `startswith` and
  the substring test `in`.
- `Splitter` (`splitter.dfy`): `_corpus_to_sentences`, with the round trip
  between splitting and joining in both directions.
- `Rules` (`rules.dfy`): the constants and the line predicates. Each regex
  is an existential predicate over character indices. This module also
  proves facts about the predicates: which lines are quote delimiters,
  which lines are closings or auto-signatures, which lines count as
  contact information, and that a header line never opens a signature.
- `SignatureFilter` (`filter.dfy`): the loop.
  - `State` holds the two flags.
  - `Step` is one iteration of the loop body.
  - `Run` folds a loop body over the lines, and `Scan` and `Clean` are that
    fold applied to `Step`.
  - `WriteCleanEmail` is the loop itself, written imperatively with the
    same branches and `continue`s. Its loop invariant ties it to the fold.
  - The output file becomes the returned sequence of written lines.

The part-of-speech tagger is a parameter. `scorer(line)` stands for
`_prob_block(line, tagger)` and returns the score and the token count; the
threshold is a `real`.

The model follows the code in five places where a reader might expect
otherwise:

- The line that opens a signature (a closing such as `Best,` or an
  auto-signature such as `Sent from my phone`) is dropped, not kept
  (Parser.py:216-219).
- Signature mode ends only on a terminator line (Parser.py:188) or an
  email header line (Parser.py:194). No length or word-count rule brings a
  line back, and the score branch (Parser.py:204-207) drops the line
  exactly as the fall-through at Parser.py:209 does. So whenever the
  tagger returns, neither its score nor the threshold changes the output
  (`ScanIgnoresScorer`). A tagger that raises is not modelled (see
  "Left out").
- In signature mode, a header line clears both flags and falls through
  to the conversation rules. There it is always written
  (`HeaderLineInSignature`).
- The contact rule comes before the header rule. After a delimiter such
  as `---------- Forwarded message ----------`, the header line
  `From: Jane Doe <jane@example.org>` is contact information. It is
  dropped and turns signature mode on (`HeaderContactAfterDelimiter`).
  Signature mode then ends at the next terminator or email header line.
  In Gmail's forward layout that is the `Date:` line right after `From:`,
  which is written (`HeaderPrefixEndsSignature`). Until then, lines
  outside the header prefixes, such as Outlook's `Sent:` or `Cc:`, are
  dropped too (`SignatureModeStep`).
- The closing rule comes before the quote-delimiter rule, and
  normalisation strips the `>` of a quoted line. A quoted closing such as
  `> Thanks` is therefore dropped in conversation mode and opens signature
  mode, although it is a quote delimiter (`QuotedClosingInConversation`).

## Model

| member | source | states |
|---|---|---|
| Text.Lower | Parser.py:277 | `lower()`: each ASCII upper-case letter is mapped to its lower-case letter, and every other character is kept |
| Text.StartsWith | Parser.py:307 | `startswith`: the text begins with the given prefix |
| Text.Contains | Parser.py:309 | the substring test `in`: the text occurs at some position |
| Text.TrimLeft | Parser.py:185 | the result is a suffix of the input with no trimmed character at its front, and every character dropped is a trimmed character |
| Text.TrimRight | Parser.py:185 | the result is a prefix of the input with no trimmed character at its end, and every character dropped is a trimmed character |
| Text.StripBy | Parser.py:322 | `strip(chars)` is empty exactly when every character is in `chars`; otherwise it neither starts nor ends with one |
| Text.Strip | Parser.py:185 | `strip()`: `strip(chars)` with the ASCII whitespace characters |
| Text.StripByIdempotent | Parser.py:300-301 | stripping an already stripped line (as `_is_quote_delimiter` does with its argument) changes nothing |
| Text.StripIdempotent | Parser.py:300-301 | `strip()` of an already stripped line changes nothing |
| Text.StripByBounds | Parser.py:322 | `strip(chars)` is one contiguous slice of the line, with only characters of `chars` before and after it |
| Text.StripByPadded | Parser.py:322 | stripping a text around a core that starts and ends with kept characters keeps the core whole; the core is the whole result when only strippable characters surround it |
| Text.StripByKeepsPrefix | Parser.py:322 | after strippable characters, a core with kept ends is a prefix of the stripped text, whatever follows it |
| Text.StripBounds | Parser.py:185 | the stripped line is one contiguous slice of the line, with only whitespace before and after it |
| Text.Words | Parser.py:260 | every element of `split()` is a non-empty run of non-whitespace characters |
| Text.WordsFirst | Parser.py:260 | after leading whitespace, a word followed by whitespace or by nothing is the first element of `split()`, and the rest are the words of what follows |
| Text.WordsOfBlank | Parser.py:260 | a line of whitespace only has no words |
| Text.WordsOfWord | Parser.py:260 | a word followed by whitespace only splits into that word alone |
| Text.WordsSeparated | Parser.py:260 | `split()` of a word, a non-empty whitespace separator and a rest is that word followed by the words of the rest |
| Text.WordsSingle | Parser.py:260 | a single word with whitespace around it splits into exactly that word |
| Text.WordsPair | Parser.py:285 | two words with whitespace around and between them split into exactly those two words, so `len(split())` is 2 |
| Text.WordsEmptyIffBlank | Parser.py:258-261 | a line has no words exactly when it strips to the empty string |
| Text.ContainsLowerStrip | Parser.py:304-309 | a word that starts and ends with non-whitespace and occurs in the lower-cased line also occurs in the lower-cased stripped line |
| Splitter.FirstLineLength | Parser.py:126 | the first line is non-empty, holds no `\n` before its end, and ends in `\n` unless it is the rest of the corpus |
| Splitter.SplitLines | Parser.py:125-126 | `splitlines(keepends=True)` returns non-empty lines, each with at most a final `\n`, and all but the last end in `\n` |
| Splitter.JoinSplitLines | Parser.py:125-126 | joining the lines gives back the corpus exactly |
| Splitter.SplitLinesJoin | Parser.py:125-126 | splitting the concatenation of a valid line sequence gives back the same lines |
| Rules.NormalizeSentence | Parser.py:321-322 | `_normalize_sentence`: punctuation and spaces stripped from both ends, then lower-cased |
| Rules.IsSignatureStart | Parser.py:264-268 | `_is_signature_start`: the normalised line is a closing or starts with an auto-signature prefix |
| Rules.EmailMatch | Parser.py:58 | one match of CONTACT_EMAIL_RE: local part, `@`, domain, `.`, two or more letters |
| Rules.ContainsEmail | Parser.py:58 | `CONTACT_EMAIL_RE.search`: some substring is a match |
| Rules.PhoneMatch | Parser.py:59 | one match of CONTACT_PHONE_RE: a digit, six or more digits, whitespace, brackets, dots or dashes, and a digit |
| Rules.ContainsPhone | Parser.py:59 | `CONTACT_PHONE_RE.search`: some substring is a match |
| Rules.IsCapitalized | Parser.py:284 | `word[:1].isupper()`: the word is non-empty and starts with an upper-case letter |
| Rules.LooksLikeContactInfo | Parser.py:271-288 | `_looks_like_contact_info`: an email address, a phone number, a contact keyword within 80 characters, a `\|` within 120 characters, or at most four words of which two or more are capitalised |
| Rules.IsQuoteHeader | Parser.py:295-297 | `_is_quote_header`: the lower-cased line starts with "on " and contains " wrote:" |
| Rules.IsQuoteDelimiter | Parser.py:300-301 | `_is_quote_delimiter`: its tests run on the line stripped once more |
| Rules.QuoteDelimiterShape | Parser.py:302-313 | the tests of `_is_quote_delimiter`: non-empty, and `--` or `---`, a leading `>`, a forwarding keyword, or a run of three or more of one delimiter character |
| Rules.IsSignatureTerminator | Parser.py:291-292 | `_is_signature_terminator`: a quote delimiter or a quote header |
| Rules.IsEmailHeaderLine | Parser.py:316-318 | `_is_email_header_line`: the lower-cased line starts with one of EMAIL_HEADER_PREFIXES |
| Rules.ShouldConsiderProbability | Parser.py:258-261 | `_should_consider_probability`: at most 60 characters and at most four words |
| Rules.CapitalizedCount | Parser.py:284 | the number of capitalised words is at most the number of words; it is 0 exactly when no word is capitalised, and equals the number of words exactly when all are |
| Rules.CapitalizedCountAppend | Parser.py:284 | counting capitalised words is additive over concatenation, so together with the one-word case it fixes the count |
| Rules.NormalizeKeepsLetterPrefix | Parser.py:321-322 | `_normalize_sentence` keeps a leading run of letters in place, lower-cased |
| Rules.HeaderStemIsNotSignatureStart | Parser.py:23-46 | a text that starts like a header prefix is neither one of the SIGNATURE_CLOSINGS nor starts with a SIGNATURE_START_PREFIXES entry |
| Rules.HeaderIsNotSignatureStart | Parser.py:264-268 | a line for which `_is_email_header_line` holds is never a signature start |
| Rules.EmptyIsNotSignatureStart | Parser.py:264-268 | the empty line is not a signature start |
| Rules.QuoteDelimiterOfStripped | Parser.py:300-301 | `_is_quote_delimiter` on the stripped line decides as on the raw line, because stripping twice is stripping once |
| Rules.BlankIsNotQuoteDelimiter | Parser.py:300-303 | a line made of whitespace only is not a quote delimiter, raw or stripped |
| Rules.QuotedLineIsDelimiter | Parser.py:307-308 | a line whose first non-whitespace character is `>` is a quote delimiter, and its stripped form is a signature terminator |
| Rules.DashLineIsDelimiter | Parser.py:305-306 | `--` or `---` with only whitespace around it is a quote delimiter, raw or stripped |
| Rules.KeywordLineIsDelimiter | Parser.py:309-310 | a line containing "original message", "forwarded message" or "forwarded by" in any mix of ASCII case is a quote delimiter |
| Rules.DelimiterRunIsDelimiter | Parser.py:311-312 | three or more copies of one of `- _ · = * #` form a quote delimiter |
| Rules.EmailAddressIsContact | Parser.py:58 | any line holding local-part characters, `@`, domain characters, `.` and two or more letters looks like contact information |
| Rules.PhoneNumberIsContact | Parser.py:59 | any line holding a digit, six or more digits, whitespace, brackets, dots or dashes, and a digit looks like contact information |
| Rules.CapitalizedPairIsContact | Parser.py:284-286 | two capitalised words with whitespace around and between them (a name on its own line) look like contact information |
| Rules.ClosingIsSignatureStart | Parser.py:264-266 | a closing in any mix of ASCII case, with punctuation and spaces on either side (`Best,`, `  THANKS!`), is a signature start |
| Rules.AutoSignatureIsSignatureStart | Parser.py:264-268 | a line that starts, after punctuation and spaces, with an auto-signature prefix in any case is a signature start, whatever follows |
| Rules.ClosingLineIsSignatureStart | Parser.py:264-266 | the stripped form of such a closing line, as the loop tests it, is a signature start |
| Rules.AutoSignatureLineIsSignatureStart | Parser.py:264-268 | the stripped form of such an auto-signature line is a signature start |
| Rules.QuotedClosingIsSignatureStart | Parser.py:321-322 | `> ` followed by a closing is, stripped, a signature start, because normalisation removes the `>` |
| Rules.QuoteMarkIsDelimiter | Parser.py:307-308 | a line that begins with `>` is a quote delimiter |
| Rules.QuotedClosingIsDelimiter | Parser.py:307-308 | `> ` followed by a closing is a quote delimiter |
| Rules.HeaderPrefixLine | Parser.py:316-318 | a line whose first non-blank text is a header name in any ASCII case (`Date:`, `TO:`) is an email header line once stripped |
| Rules.QuoteHeaderLine | Parser.py:295-297 | a line `On <date>, <name> wrote:` is a quote header, and its stripped form is a signature terminator |
| SignatureFilter.Step | Parser.py:185-241 | one iteration: in signature mode a terminator is written, a header line falls through to the conversation rules, and every other line is dropped; outside it the conversation rules decide |
| SignatureFilter.Run | Parser.py:184-241 | a loop over the lines with a given body: the final flags and the lines written, in order |
| SignatureFilter.Scan | Parser.py:180-241 | the loop of `_write_clean_email` from given flags |
| SignatureFilter.Clean | Parser.py:180-241 | the lines `_write_clean_email` writes, starting with both flags false |
| SignatureFilter.ConversationStep | Parser.py:211-241 | the conversation rules never set `recent_delimiter` together with `signature_mode` |
| SignatureFilter.WriteCleanEmail | Parser.py:172-241 | the loop writes exactly the lines `Clean` selects, in order |
| SignatureFilter.RunSubsequence | Parser.py:184-241 | a loop that only writes its current line or nothing writes an in-order subsequence of its input lines |
| SignatureFilter.CleanIsSubsequence | Parser.py:184-241 | the lines written are an in-order subsequence of the input: none is altered, repeated, reordered or invented |
| SignatureFilter.RunAppend | Parser.py:184-241 | running over `xs + ys` is running over `xs`, then over `ys` from the flags `xs` left |
| SignatureFilter.CleanAppend | Parser.py:180-241 | what is written for `xs + ys` is what is written for `xs`, followed by what the loop writes for `ys` from the flags `xs` left |
| SignatureFilter.CleanPrefix | Parser.py:180-241 | the output for a prefix of the lines is a prefix of the output: whether a line is written depends on no later line |
| SignatureFilter.RunAgree | Parser.py:184 | two loop bodies that agree everywhere give the same run |
| SignatureFilter.StepIgnoresScorer | Parser.py:204-209 | one iteration takes the same decision whatever the score and the threshold |
| SignatureFilter.ScanIgnoresScorer | Parser.py:204-209 | the flags and the lines written do not depend on the tagger or the threshold |
| SignatureFilter.StepReachable | Parser.py:187-241 | an iteration never leaves both flags set if they were not both set before |
| SignatureFilter.RunReachable | Parser.py:184 | a loop whose body preserves reachability ends in a reachable state |
| SignatureFilter.ScanReachable | Parser.py:180-241 | `recent_delimiter` is never set while `signature_mode` is |
| SignatureFilter.RunKeepsAll | Parser.py:184-241 | a loop whose body writes every line and keeps its state writes all lines |
| SignatureFilter.StepWithoutCues | Parser.py:211-241 | with both flags clear, a line that is neither a signature start nor a quote delimiter is written and leaves both flags clear |
| SignatureFilter.ScanWithoutCues | Parser.py:180-241 | without signature starts and quote delimiters, every line is written and signature mode is never entered |
| SignatureFilter.RunDropsAll | Parser.py:184-241 | a loop whose body drops every line and keeps its state writes nothing |
| SignatureFilter.ScanSignatureBlock | Parser.py:187-209 | in signature mode, lines that are neither terminators nor header lines are all dropped and signature mode stays on |
| SignatureFilter.RunKeepThenDrop | Parser.py:184-241 | a loop that writes the lines of `xs`, drops `x` and changes state, then drops the lines of `ys`, writes exactly `xs` |
| SignatureFilter.SignatureBlockRemoved | Parser.py:180-241 | a body without signature cues, a closing or auto-signature, and a block of non-terminator, non-header lines: only the body is written, and the closing is dropped with the block |
| SignatureFilter.BlankLineInConversation | Parser.py:211-214 | outside signature mode a blank line is written and both flags stay as they were |
| SignatureFilter.SignatureStartInConversation | Parser.py:216-219 | outside signature mode a signature start is dropped, sets `signature_mode` and clears `recent_delimiter` |
| SignatureFilter.SignatureModeStep | Parser.py:187-209 | in signature mode a line is written exactly when it is a terminator or a header line; a written line ends signature mode, and a dropped line leaves both flags unchanged |
| SignatureFilter.TerminatorInSignature | Parser.py:188-192 | a terminator in signature mode is written, ends signature mode, and sets `recent_delimiter` to whether it is a quote delimiter |
| SignatureFilter.HeaderLineInSignature | Parser.py:194-196 | a header line in signature mode that is not a terminator is written and clears both flags |
| SignatureFilter.HeaderLineInConversation | Parser.py:236-238 | in conversation mode a header line that is not a terminator, and is not read as contact information after a delimiter, is written and leaves both flags, `recent_delimiter` included, as they were |
| SignatureFilter.QuotedClosingInConversation | Parser.py:216-219 | `> ` followed by a closing is a quote delimiter, yet in conversation mode it is dropped and opens signature mode |
| SignatureFilter.QuoteDelimiterInConversation | Parser.py:221-224 | in conversation mode a quote delimiter that is not a signature start is written and sets `recent_delimiter` |
| SignatureFilter.QuoteHeaderInConversation | Parser.py:226-229 | in conversation mode a quote header that is neither a signature start nor a quote delimiter is written and clears `recent_delimiter` |
| SignatureFilter.QuoteHeaderInSignature | Parser.py:187-192 | in signature mode a line `On <date>, <name> wrote:` is written and ends signature mode |
| SignatureFilter.ContactAfterDelimiter | Parser.py:231-234 | with `recent_delimiter` set, a non-blank line that is contact information and neither a signature start nor a terminator is dropped, turns signature mode on and clears the flag |
| SignatureFilter.HeaderContactAfterDelimiter | Parser.py:231-238 | with `recent_delimiter` set, a header line that is also contact information (a forwarded `From:` line) is dropped and turns signature mode on, because the contact rule comes first |
| SignatureFilter.HeaderPrefixEndsSignature | Parser.py:194-196 | in signature mode a line opening with a header name, such as a forwarded message's `Date:` line, is written and ends signature mode |

## Left out

- `convert` (Parser.py:103-115) and `_derive_output_path` (Parser.py:118-122) are left out. They check the filesystem and build a path.
- `_extract_email_body` and `_parse_body_with_mailparser` (Parser.py:129-169) are left out. They read files and call the external `mailparser` library.
- `_html_to_text` (Parser.py:325-338) is left out. It relies on `html.unescape`, whose entity table is not part of this model.
- `_get_tagger` and `_prob_block` (Parser.py:244-255) are left out. The spaCy model, the tagger and the floating-point ratio become the `scorer` parameter, and the threshold becomes a `real`; the result is discarded in any case.
- SignatureFilter.ScanIgnoresScorer: `scorer` is a total function, so a tagger call that raises (Parser.py:205, 245) is not modelled. In the source such an exception ends the pass with the output file partly written; the model only covers calls that return.
- Creating the output directory, opening the output file and calling `new_file.write` (Parser.py:178, 183, 191 and later) are not modelled. The written lines are returned as a sequence instead.
- Character classes cover ASCII only. This applies to whitespace for `strip()` and `split()`, to `lower()`, `isupper()` and `\d`, and to the letters that `re.IGNORECASE` matches. Python also treats non-ASCII whitespace, digits and case pairs as such, and a few lower-case mappings change a string's length; none of this is modelled.
- Splitter.SplitLines: only `\n` ends a line. Python's `splitlines` also splits at `\r`, `\v`, `\f`, `\x1c`-`\x1e`, `\x85`, `\u2028` and `\u2029`. `\r\n` has already been rewritten to `\n` upstream (Parser.py:143).
- Rules.PhoneMatch: the optional leading `\+?` of the phone regex is left out. It never decides whether a match exists.
- `sentences` is an iterable in the source; here it is a finite sequence.
