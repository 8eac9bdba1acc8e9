/**
 * The line predicates the signature filter is built from (Parser.py):
 * closing salutations and auto-signatures, contact-card lines, quoted-reply
 * delimiters and headers, and raw email header lines.
 */
module Rules {
  import opened Text

  /** SIGNATURE_CLOSINGS */
  const SignatureClosings: set<string> := {
    "best", "best regards", "best wishes", "thanks", "thank you", "thanks a lot",
    "regards", "kind regards", "warm regards", "cheers", "sincerely",
    "yours truly", "yours sincerely", "many thanks"
  }

  /** SIGNATURE_START_PREFIXES */
  const SignatureStartPrefixes: seq<string> := [
    "sent from my", "sent from mail for", "sent from outlook for",
    "sent from windows", "get outlook for", "sent with my"
  ]

  /** CONTACT_KEYWORDS */
  const ContactKeywords: set<string> := {
    "tel", "phone", "mobile", "cell", "fax", "email", "www", "http", "linkedin"
  }

  /** QUOTE_DELIMITER_KEYWORDS */
  const QuoteDelimiterKeywords: seq<string> := [
    "original message", "forwarded message", "forwarded by"
  ]

  /** EMAIL_HEADER_PREFIXES */
  const EmailHeaderPrefixes: seq<string> := [
    "from ", "from:", "to:", "subject:", "date:", "message-id", "in-reply-to",
    "references:", "mime-version", "content-type"
  ]

  /** Python's `string.punctuation`: the printable ASCII characters that
      are neither letters, digits nor the space. */
  predicate IsPunctuation(c: char)
  {
    '!' <= c <= '/' || ':' <= c <= '@' || '[' <= c <= '`' || '{' <= c <= '~'
  }

  /** The characters whose runs of three or more are a delimiter line. */
  const DelimiterRunChars: set<char> := {'-', '_', '·', '=', '*', '#'}

  /** The characters `_normalize_sentence` strips from both ends. */
  const NormalizeTrimmed: set<char> := set c: char | ' ' <= c <= '~' && (c == ' ' || IsPunctuation(c))

  /** `_normalize_sentence`: strip punctuation and spaces from both ends,
      then lower-case. */
  function NormalizeSentence(s: string): string
  {
    Lower(StripBy(s, NormalizeTrimmed))
  }

  /** `_is_signature_start` */
  predicate IsSignatureStart(s: string)
  {
    var normalized := NormalizeSentence(s);
    normalized in SignatureClosings ||
    exists p :: p in SignatureStartPrefixes && StartsWith(normalized, p)
  }

  // ---------------------------------------------------------------------
  // Contact information

  /** `[A-Z0-9._%+-]` under re.IGNORECASE */
  predicate IsEmailLocalChar(c: char)
  {
    IsLetter(c) || IsDigit(c) || c in {'.', '_', '%', '+', '-'}
  }

  /** `[A-Z0-9.-]` under re.IGNORECASE */
  predicate IsEmailDomainChar(c: char)
  {
    IsLetter(c) || IsDigit(c) || c in {'.', '-'}
  }

  /** `s[start..end]` matches CONTACT_EMAIL_RE with its `@` at `at` and the
      `.` before the final letters at `dot`. */
  predicate EmailMatch(s: string, start: nat, at: nat, dot: nat, end: nat)
  {
    start < at < dot && dot + 3 <= end <= |s| &&
    (forall k :: start <= k < at ==> IsEmailLocalChar(s[k])) &&
    s[at] == '@' &&
    at + 1 < dot &&
    (forall k :: at < k < dot ==> IsEmailDomainChar(s[k])) &&
    s[dot] == '.' &&
    forall k :: dot < k < end ==> IsLetter(s[k])
  }

  /** `CONTACT_EMAIL_RE.search(s)` */
  predicate ContainsEmail(s: string)
  {
    exists start: nat, at: nat, dot: nat, end: nat | start < at < dot < end <= |s| ::
      EmailMatch(s, start, at, dot, end)
  }

  /** `[\d\s().-]` */
  predicate IsPhoneChar(c: char)
  {
    IsDigit(c) || c in Whitespace || c in {'(', ')', '.', '-'}
  }

  /** `s[first..last + 1]` matches `\d[\d\s().-]{6,}\d`. The optional leading
      `\+?` of CONTACT_PHONE_RE never decides whether a match exists. */
  predicate PhoneMatch(s: string, first: nat, last: nat)
  {
    first + 7 <= last < |s| &&
    IsDigit(s[first]) && IsDigit(s[last]) &&
    forall k :: first < k < last ==> IsPhoneChar(s[k])
  }

  /** `CONTACT_PHONE_RE.search(s)` */
  predicate ContainsPhone(s: string)
  {
    exists first: nat, last: nat | first < last < |s| :: PhoneMatch(s, first, last)
  }

  /** `sum(word[:1].isupper() for word in words)` */
  function CapitalizedCount(words: seq<string>): (n: nat)
    ensures n <= |words|
    ensures n == 0 <==> forall i :: 0 <= i < |words| ==> !IsCapitalized(words[i])
    ensures n == |words| <==> forall i :: 0 <= i < |words| ==> IsCapitalized(words[i])
  {
    if words == [] then 0
    else (if IsCapitalized(words[0]) then 1 else 0) + CapitalizedCount(words[1..])
  }

  /** `word[:1].isupper()` */
  predicate IsCapitalized(word: string)
  {
    word != [] && IsUpper(word[0])
  }

  /** `_looks_like_contact_info` */
  predicate LooksLikeContactInfo(s: string)
  {
    ContainsEmail(s) ||
    ContainsPhone(s) ||
    ((exists kw :: kw in ContactKeywords && Contains(Lower(s), kw)) && |s| <= 80) ||
    ('|' in s && |s| <= 120) ||
    (|Words(s)| <= 4 && CapitalizedCount(Words(s)) >= 2)
  }

  // ---------------------------------------------------------------------
  // Quoted replies, forwarded messages and header lines

  /** `_is_quote_header`: "On <date>, <name> wrote:" in any case. */
  predicate IsQuoteHeader(s: string)
  {
    var lower := Lower(s);
    StartsWith(lower, "on ") && Contains(lower, " wrote:")
  }

  /** `len(set(t)) == 1 and t[0] in {...}` with `len(t) >= 3` */
  predicate IsDelimiterRun(t: string)
  {
    |t| >= 3 && t[0] in DelimiterRunChars && forall k :: 0 <= k < |t| ==> t[k] == t[0]
  }

  /** `_is_quote_delimiter`: the tests run on the stripped line. */
  predicate IsQuoteDelimiter(s: string)
  {
    QuoteDelimiterShape(Strip(s))
  }

  /** The body of `_is_quote_delimiter` after its own `strip()`. */
  predicate QuoteDelimiterShape(stripped: string)
  {
    if stripped == [] then false
    else
      var lower := Lower(stripped);
      stripped == "---" || stripped == "--" ||
      StartsWith(stripped, ">") ||
      (exists kw :: kw in QuoteDelimiterKeywords && Contains(lower, kw)) ||
      IsDelimiterRun(stripped)
  }

  /** `_is_signature_terminator` */
  predicate IsSignatureTerminator(s: string)
  {
    IsQuoteDelimiter(s) || IsQuoteHeader(s)
  }

  /** `_is_email_header_line` */
  predicate IsEmailHeaderLine(s: string)
  {
    exists p :: p in EmailHeaderPrefixes && StartsWith(Lower(s), p)
  }

  /** `_should_consider_probability`: at most 60 characters and 4 words. */
  predicate ShouldConsiderProbability(s: string)
  {
    |s| <= 60 && |Words(s)| <= 4
  }

  // ---------------------------------------------------------------------
  // Facts about the predicates

  /** Normalisation leaves a leading run of letters in place, lower-cased. */
  lemma NormalizeKeepsLetterPrefix(s: string, k: nat)
    requires k <= |s| && forall i :: 0 <= i < k ==> IsLetter(s[i])
    ensures |NormalizeSentence(s)| >= k
    ensures forall i :: 0 <= i < k ==> NormalizeSentence(s)[i] == LowerChar(s[i])
  {
    if k > 0 {
      assert TrimLeft(s, NormalizeTrimmed) == s;
      var r := TrimRight(s, NormalizeTrimmed);
      assert s[k - 1] !in NormalizeTrimmed;
      assert |r| >= k;
    }
  }

  /** A normalised line that starts with the first two letters of a header
      prefix (three for every prefix but `to:` and `in-reply-to`) is neither
      a closing nor an auto-signature. */
  lemma HeaderStemIsNotSignatureStart(n: string, p: string)
    requires p in EmailHeaderPrefixes
    requires |n| >= 3 || ((p == "to:" || p == "in-reply-to") && |n| >= 2)
    requires n[0] == p[0] && n[1] == p[1]
    requires p != "to:" && p != "in-reply-to" ==> n[2] == p[2]
    ensures n !in SignatureClosings
    ensures forall q :: q in SignatureStartPrefixes ==> !StartsWith(n, q)
  {
    forall c | c in SignatureClosings ensures n != c {
      HeaderStemIsNotClosing(n, p, c);
    }
    forall q | q in SignatureStartPrefixes ensures !StartsWith(n, q) {
      assert q[0] == 's' || q[0] == 'g';
      assert q[0] != p[0] || q[1] != p[1] || q[2] != p[2];
    }
  }

  /** One closing at a time: a closing differs from every header prefix in
      one of the first two letters, or the third. */
  lemma HeaderStemIsNotClosing(n: string, p: string, c: string)
    requires p in EmailHeaderPrefixes && c in SignatureClosings
    requires |n| >= 3 || ((p == "to:" || p == "in-reply-to") && |n| >= 2)
    requires n[0] == p[0] && n[1] == p[1]
    requires p != "to:" && p != "in-reply-to" ==> n[2] == p[2]
    ensures n != c
  {
    if c[0] == p[0] && c[1] == p[1] {
      assert c[..2] == "re" && p == "references:";
    }
  }

  /** Every header prefix starts with two letters, and all but `to:` and
      `in-reply-to` with three. */
  lemma HeaderPrefixLetters(p: string)
    requires p in EmailHeaderPrefixes
    ensures |p| >= 3 && IsLetter(p[0]) && IsLetter(p[1])
    ensures p != "to:" && p != "in-reply-to" ==> IsLetter(p[2])
  {
  }

  /** An email header line never opens a signature: after a header line
      ends signature mode, the conversation rules cannot re-enter it
      through a closing or an auto-signature. */
  lemma HeaderIsNotSignatureStart(s: string)
    requires IsEmailHeaderLine(s)
    ensures !IsSignatureStart(s)
  {
    var p :| p in EmailHeaderPrefixes && StartsWith(Lower(s), p);
    HeaderPrefixLetters(p);
    var k := if p == "to:" || p == "in-reply-to" then 2 else 3;
    assert forall i :: 0 <= i < k ==> LowerChar(s[i]) == p[i] by {
      assert Lower(s)[..|p|] == p;
    }
    NormalizeKeepsLetterPrefix(s, k);
    var n := NormalizeSentence(s);
    HeaderStemIsNotSignatureStart(n, p);
  }

  /** The empty line opens no signature. */
  lemma EmptyIsNotSignatureStart()
    ensures !IsSignatureStart([])
  {
    assert NormalizeSentence([]) == [];
  }

  /** `_is_quote_delimiter` strips its argument again, which changes
      nothing: on a stripped line it decides as on the raw line. */
  lemma QuoteDelimiterOfStripped(s: string)
    ensures IsQuoteDelimiter(Strip(s)) == IsQuoteDelimiter(s)
  {
    StripIdempotent(s);
    assert QuoteDelimiterShape(Strip(Strip(s))) == QuoteDelimiterShape(Strip(s));
  }

  /** A line made of whitespace only is never a quote delimiter. */
  lemma BlankIsNotQuoteDelimiter(s: string)
    requires forall k :: 0 <= k < |s| ==> s[k] in Whitespace
    ensures !IsQuoteDelimiter(s) && !IsQuoteDelimiter(Strip(s))
  {
    QuoteDelimiterOfStripped(s);
  }

  /** A line whose first non-whitespace character is `>` is a quote
      delimiter, and stripped it is a signature terminator. */
  lemma QuotedLineIsDelimiter(pre: string, rest: string)
    requires forall k :: 0 <= k < |pre| ==> pre[k] in Whitespace
    ensures IsQuoteDelimiter(pre + ">" + rest)
    ensures IsSignatureTerminator(Strip(pre + ">" + rest))
  {
    var s := pre + ">" + rest;
    StripByKeepsPrefix(pre, ">", rest, Whitespace);
    assert Strip(s) != [];
    QuoteDelimiterOfStripped(s);
  }

  /** `--` or `---` with only whitespace around it is a quote delimiter. */
  lemma DashLineIsDelimiter(pre: string, dashes: string, post: string)
    requires forall k :: 0 <= k < |pre| ==> pre[k] in Whitespace
    requires dashes == "--" || dashes == "---"
    requires forall k :: 0 <= k < |post| ==> post[k] in Whitespace
    ensures IsQuoteDelimiter(pre + dashes + post)
    ensures IsQuoteDelimiter(Strip(pre + dashes + post))
  {
    var s := pre + dashes + post;
    StripByOfPadded(pre, dashes, post, Whitespace);
    QuoteDelimiterOfStripped(s);
  }

  /** A line mentioning "original message", "forwarded message" or
      "forwarded by", in any mix of cases, is a quote delimiter. */
  lemma KeywordLineIsDelimiter(s: string, kw: string, i: nat)
    requires kw in QuoteDelimiterKeywords && OccursAt(Lower(s), kw, i)
    ensures IsQuoteDelimiter(s)
  {
    assert kw[0] == 'o' || kw[0] == 'f';
    assert kw[|kw| - 1] == 'e' || kw[|kw| - 1] == 'y';
    ContainsLowerStrip(s, kw, i);
  }

  /** Three or more copies of one of `- _ · = * #` form a delimiter line. */
  lemma DelimiterRunIsDelimiter(c: char, n: nat)
    requires c in DelimiterRunChars && n >= 3
    ensures IsQuoteDelimiter(seq(n, _ => c))
  {
    var run := seq(n, _ => c);
    assert c !in Whitespace;
    assert run[0] == c && run[n - 1] == c;
    assert TrimLeft(run, Whitespace) == run;
    assert TrimRight(run, Whitespace) == run;
    assert Strip(run) == run;
    assert IsDelimiterRun(run);
  }

  /** A line holding an email address (local part, `@`, domain, `.`, two or
      more letters) looks like contact information. */
  lemma EmailAddressIsContact(pre: string, local: string, domain: string, tld: string, post: string)
    requires local != [] && forall k :: 0 <= k < |local| ==> IsEmailLocalChar(local[k])
    requires domain != [] && forall k :: 0 <= k < |domain| ==> IsEmailDomainChar(domain[k])
    requires |tld| >= 2 && forall k :: 0 <= k < |tld| ==> IsLetter(tld[k])
    ensures LooksLikeContactInfo(pre + local + "@" + domain + "." + tld + post)
  {
    var s := pre + local + "@" + domain + "." + tld + post;
    var start := |pre|;
    var at := start + |local|;
    var dot := at + 1 + |domain|;
    var end := dot + 1 + |tld|;
    forall k | start <= k < at ensures IsEmailLocalChar(s[k]) {
      assert s[k] == local[k - start];
    }
    forall k | at < k < dot ensures IsEmailDomainChar(s[k]) {
      assert s[k] == domain[k - at - 1];
    }
    forall k | dot < k < end ensures IsLetter(s[k]) {
      assert s[k] == tld[k - dot - 1];
    }
    assert s[at] == '@' && s[dot] == '.';
    assert EmailMatch(s, start, at, dot, end);
  }

  /** A digit, six or more digits, blanks, brackets, dots or dashes, and a
      digit form a phone number: the line looks like contact information. */
  lemma PhoneNumberIsContact(pre: string, first: char, middle: string, last: char, post: string)
    requires IsDigit(first) && IsDigit(last)
    requires |middle| >= 6 && forall k :: 0 <= k < |middle| ==> IsPhoneChar(middle[k])
    ensures LooksLikeContactInfo(pre + [first] + middle + [last] + post)
  {
    var s := pre + [first] + middle + [last] + post;
    var i := |pre|;
    var j := i + 1 + |middle|;
    forall k | i < k < j ensures IsPhoneChar(s[k]) {
      assert s[k] == middle[k - i - 1];
    }
    assert PhoneMatch(s, i, j);
  }

  /** Counting capitalised words is additive over concatenation. */
  lemma {:induction false} CapitalizedCountAppend(xs: seq<string>, ys: seq<string>)
    ensures CapitalizedCount(xs + ys) == CapitalizedCount(xs) + CapitalizedCount(ys)
    decreases |xs|
  {
    if xs == [] {
      assert xs + ys == ys;
    } else {
      assert (xs + ys)[0] == xs[0];
      assert (xs + ys)[1..] == xs[1..] + ys;
      CapitalizedCountAppend(xs[1..], ys);
    }
  }

  /** Two capitalised words with whitespace around and between them, such
      as a name on a line of its own, look like contact information. */
  lemma CapitalizedPairIsContact(pre: string, w1: string, sep: string, w2: string, post: string)
    requires forall k :: 0 <= k < |pre| ==> pre[k] in Whitespace
    requires IsWord(w1) && IsUpper(w1[0])
    requires sep != [] && forall k :: 0 <= k < |sep| ==> sep[k] in Whitespace
    requires IsWord(w2) && IsUpper(w2[0])
    requires forall k :: 0 <= k < |post| ==> post[k] in Whitespace
    ensures LooksLikeContactInfo(pre + w1 + sep + w2 + post)
  {
    var s := pre + w1 + sep + w2 + post;
    WordsPair(pre, w1, sep, w2, post);
    assert CapitalizedCount([w1, w2]) == 2 by {
      assert [w1, w2][1..] == [w2];
      assert [w2][1..] == [];
    }
    assert |Words(s)| <= 4 && CapitalizedCount(Words(s)) >= 2;
  }

  // ---------------------------------------------------------------------
  // Closings and auto-signatures

  /** Every closing starts and ends with a lower-case letter. */
  lemma ClosingLetters(c: string)
    requires c in SignatureClosings
    ensures c != [] && 'a' <= c[0] <= 'z' && 'a' <= c[|c| - 1] <= 'z'
  {
  }

  /** Every auto-signature prefix starts and ends with a lower-case letter. */
  lemma AutoSignatureLetters(p: string)
    requires p in SignatureStartPrefixes
    ensures p != [] && 'a' <= p[0] <= 'z' && 'a' <= p[|p| - 1] <= 'z'
  {
  }

  /** A character that lower-cases to a lower-case letter is a letter:
      neither normalisation nor `strip()` removes it. */
  lemma LowersToLetter(c: char)
    requires 'a' <= LowerChar(c) <= 'z'
    ensures c !in NormalizeTrimmed && c !in Whitespace
  {
  }

  /** A word whose lower-cased form starts and ends with a lower-case letter
      starts and ends with characters no stripping removes. */
  lemma LetterEnds(w: string)
    requires w != [] && 'a' <= LowerChar(w[0]) <= 'z' && 'a' <= LowerChar(w[|w| - 1]) <= 'z'
    ensures w[0] !in NormalizeTrimmed && w[|w| - 1] !in NormalizeTrimmed
    ensures w[0] !in Whitespace && w[|w| - 1] !in Whitespace
  {
    LowersToLetter(w[0]);
    LowersToLetter(w[|w| - 1]);
  }

  /** A closing in any mix of ASCII case, with punctuation and spaces on
      either side (`Best,`, `  THANKS!`), opens a signature. */
  lemma ClosingIsSignatureStart(pre: string, c: string, post: string)
    requires forall k :: 0 <= k < |pre| ==> pre[k] in NormalizeTrimmed
    requires Lower(c) in SignatureClosings
    requires forall k :: 0 <= k < |post| ==> post[k] in NormalizeTrimmed
    ensures IsSignatureStart(pre + c + post)
  {
    ClosingLetters(Lower(c));
    LetterEnds(c);
    StripByOfPadded(pre, c, post, NormalizeTrimmed);
  }

  /** A line that starts, after punctuation and spaces, with an
      auto-signature prefix in any mix of ASCII case opens a signature,
      whatever follows it. */
  lemma AutoSignatureIsSignatureStart(pre: string, p: string, rest: string)
    requires forall k :: 0 <= k < |pre| ==> pre[k] in NormalizeTrimmed
    requires Lower(p) in SignatureStartPrefixes
    ensures IsSignatureStart(pre + p + rest)
  {
    AutoSignatureLetters(Lower(p));
    LetterEnds(p);
    StripByKeepsPrefix(pre, p, rest, NormalizeTrimmed);
    LowerStartsWith(StripBy(pre + p + rest, NormalizeTrimmed), p);
    assert StartsWith(NormalizeSentence(pre + p + rest), Lower(p));
  }

  /** The stripped form of a closing line, as the filter tests it, opens a
      signature. */
  lemma ClosingLineIsSignatureStart(pre: string, c: string, post: string)
    requires forall k :: 0 <= k < |pre| ==> pre[k] in NormalizeTrimmed
    requires Lower(c) in SignatureClosings
    requires forall k :: 0 <= k < |post| ==> post[k] in NormalizeTrimmed
    ensures IsSignatureStart(Strip(pre + c + post))
  {
    ClosingLetters(Lower(c));
    LetterEnds(c);
    var i, j := StripByPadded(pre, c, post, Whitespace);
    ClosingIsSignatureStart(pre[i..], c, post[..j]);
  }

  /** The stripped form of an auto-signature line opens a signature. */
  lemma AutoSignatureLineIsSignatureStart(pre: string, p: string, rest: string)
    requires forall k :: 0 <= k < |pre| ==> pre[k] in NormalizeTrimmed
    requires Lower(p) in SignatureStartPrefixes
    ensures IsSignatureStart(Strip(pre + p + rest))
  {
    AutoSignatureLetters(Lower(p));
    LetterEnds(p);
    var i, j := StripByPadded(pre, p, rest, Whitespace);
    AutoSignatureIsSignatureStart(pre[i..], p, rest[..j]);
  }

  /** A quoted closing such as `> Thanks`, once stripped, is a signature
      start: `>` is punctuation, which normalisation removes. */
  lemma QuotedClosingIsSignatureStart(c: string)
    requires Lower(c) in SignatureClosings
    ensures IsSignatureStart(Strip("> " + c))
  {
    var quote := "> ";
    var none: string := [];
    assert quote[0] in NormalizeTrimmed && quote[1] in NormalizeTrimmed;
    assert quote + c + none == "> " + c;
    ClosingLineIsSignatureStart(quote, c, none);
  }

  /** A line starting with `>` and nothing before it is a quote delimiter. */
  lemma QuoteMarkIsDelimiter(rest: string)
    ensures IsQuoteDelimiter(">" + rest)
  {
    var none: string := [];
    assert none + ">" + rest == ">" + rest;
    QuotedLineIsDelimiter(none, rest);
  }

  /** A quoted closing such as `> Thanks` is a quote delimiter. */
  lemma QuotedClosingIsDelimiter(c: string)
    ensures IsQuoteDelimiter("> " + c)
  {
    var mark: string := ">";
    var space: string := " ";
    assert mark + space == "> ";
    Regroup([], [], mark, space, c);
    QuoteMarkIsDelimiter(space + c);
  }

  // ---------------------------------------------------------------------
  // Quote headers

  /** `"On ".lower()` */
  lemma LowerOn()
    ensures Lower("On ") == "on "
  {
    assert LowerChar('O') == 'o';
  }

  /** `" wrote:".lower()` */
  lemma LowerWrote()
    ensures Lower(" wrote:") == " wrote:"
  {
  }

  /** A line whose first non-blank text is a header name in any ASCII case,
      such as `Date: Mon, 3 Jun` or `TO: jane`, is an email header line once
      stripped. */
  lemma HeaderPrefixLine(pre: string, h: string, rest: string)
    requires forall k :: 0 <= k < |pre| ==> pre[k] in Whitespace
    requires Lower(h) in EmailHeaderPrefixes
    requires h != [] && h[0] !in Whitespace && h[|h| - 1] !in Whitespace
    ensures IsEmailHeaderLine(Strip(pre + h + rest))
  {
    var stripped := Strip(pre + h + rest);
    StripByKeepsPrefix(pre, h, rest, Whitespace);
    LowerStartsWith(stripped, h);
    assert Lower(h) in EmailHeaderPrefixes && StartsWith(Lower(stripped), Lower(h));
  }

  /** A line `On <date>, <name> wrote:` is a quote header, and so is its
      stripped form, which is the line itself: it is a signature
      terminator. */
  lemma QuoteHeaderLine(x: string)
    ensures IsQuoteHeader("On " + x + " wrote:")
    ensures IsSignatureTerminator(Strip("On " + x + " wrote:"))
  {
    var line := "On " + x + " wrote:";
    var n := |line|;
    assert line[..3] == "On ";
    assert line[n - 7..] == " wrote:";
    LowerOn();
    LowerWrote();
    LowerSlice(line, 0, 3);
    LowerSlice(line, n - 7, n);
    assert OccursAt(Lower(line), " wrote:", n - 7);
    var none: string := [];
    assert none + line + none == line;
    assert line[0] == 'O' && line[n - 1] == ':';
    StripByOfPadded(none, line, none, Whitespace);
  }
}
