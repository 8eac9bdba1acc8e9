/**
 * The handful of Python `str` built-ins the line filter relies on: `strip`,
 * `strip(chars)`, `lower`, `split()`, `startswith` and the `in` substring test.
 * Character classes are restricted to ASCII (see README, "Left out").
 */
module Text {

  /** The ASCII characters for which Python's `str.isspace()` holds:
      space, `\t \n \v \f \r` and the separators `\x1c`..`\x1f`. */
  const Whitespace: set<char> :=
    set c: char | '\t' <= c <= ' ' && (c <= '\r' || '\U{1C}' <= c)

  predicate IsDigit(c: char) { '0' <= c <= '9' }

  predicate IsLetter(c: char) { 'a' <= c <= 'z' || 'A' <= c <= 'Z' }

  /** `c.isupper()` on a one-character string. */
  predicate IsUpper(c: char) { 'A' <= c <= 'Z' }

  function LowerChar(c: char): char
  {
    if IsUpper(c) then (c as int + 32) as char else c
  }

  /** `s.lower()` */
  function Lower(s: string): string
  {
    seq(|s|, k requires 0 <= k < |s| => LowerChar(s[k]))
  }

  /** `s.startswith(p)` */
  predicate StartsWith(s: string, p: string)
  {
    |p| <= |s| && s[..|p|] == p
  }

  /** `sub` occurs in `s` starting at index `i`. */
  predicate OccursAt(s: string, sub: string, i: nat)
  {
    i + |sub| <= |s| && s[i..i + |sub|] == sub
  }

  /** `sub in s` */
  predicate Contains(s: string, sub: string)
  {
    exists i: nat :: i <= |s| && OccursAt(s, sub, i)
  }

  /** `s.lstrip(chars)`: drops the longest prefix made of characters in `cs`. */
  function TrimLeft(s: string, cs: set<char>): (r: string)
    ensures |r| <= |s| && r == s[|s| - |r|..]
    ensures r == [] || r[0] !in cs
    ensures forall k :: 0 <= k < |s| - |r| ==> s[k] in cs
  {
    if s != [] && s[0] in cs then
      var r := TrimLeft(s[1..], cs);
      assert forall k :: 1 <= k < |s| - |r| ==> s[k] == s[1..][k - 1];
      r
    else s
  }

  /** `s.rstrip(chars)`: drops the longest suffix made of characters in `cs`. */
  function TrimRight(s: string, cs: set<char>): (r: string)
    ensures |r| <= |s| && r == s[..|r|]
    ensures r == [] || r[|r| - 1] !in cs
    ensures forall k :: |r| <= k < |s| ==> s[k] in cs
  {
    if s != [] && s[|s| - 1] in cs then TrimRight(s[..|s| - 1], cs) else s
  }

  /** `s.strip(chars)`: the middle of `s` left after dropping characters of
      `cs` from both ends; it is empty exactly when every character is in `cs`. */
  function StripBy(s: string, cs: set<char>): (r: string)
    ensures r == [] <==> forall k :: 0 <= k < |s| ==> s[k] in cs
    ensures r != [] ==> r[0] !in cs && r[|r| - 1] !in cs
  {
    var t := TrimLeft(s, cs);
    var r := TrimRight(t, cs);
    assert r != [] ==> r[0] == t[0];
    r
  }

  /** `s.strip()` */
  function Strip(s: string): string
  {
    StripBy(s, Whitespace)
  }

  /** Stripping twice is stripping once. */
  lemma StripByIdempotent(s: string, cs: set<char>)
    ensures StripBy(StripBy(s, cs), cs) == StripBy(s, cs)
  {
    var r := StripBy(s, cs);
    assert TrimLeft(r, cs) == r;
    assert TrimRight(r, cs) == r;
  }

  /** `strip()` twice is `strip()` once. */
  lemma StripIdempotent(s: string)
    ensures Strip(Strip(s)) == Strip(s)
  {
    StripByIdempotent(s, Whitespace);
  }

  /** Characters of `cs` in front of `x` are all trimmed away. */
  lemma {:induction false} TrimLeftSkipsPrefix(ws: string, x: string, cs: set<char>)
    requires forall k :: 0 <= k < |ws| ==> ws[k] in cs
    ensures TrimLeft(ws + x, cs) == TrimLeft(x, cs)
    decreases |ws|
  {
    if ws == [] {
      assert ws + x == x;
    } else {
      assert (ws + x)[0] == ws[0];
      assert (ws + x)[1..] == ws[1..] + x;
      TrimLeftSkipsPrefix(ws[1..], x, cs);
    }
  }

  /** Left-trimming `pre + y`, where `y` starts with a kept character, stops
      inside `pre` or at the start of `y`, after a kept character. */
  lemma {:induction false} TrimLeftStops(pre: string, y: string, cs: set<char>) returns (i: nat)
    requires y != [] && y[0] !in cs
    ensures i <= |pre| && TrimLeft(pre + y, cs) == pre[i..] + y
    ensures i < |pre| ==> pre[i] !in cs
    decreases |pre|
  {
    if pre == [] {
      assert pre + y == y;
      i := 0;
    } else if pre[0] in cs {
      assert (pre + y)[0] == pre[0];
      assert (pre + y)[1..] == pre[1..] + y;
      var i' := TrimLeftStops(pre[1..], y, cs);
      i := i' + 1;
      assert pre[1..][i'..] == pre[i..];
    } else {
      assert (pre + y)[0] == pre[0];
      i := 0;
    }
  }

  /** Right-trimming `y + post`, where `y` ends with a kept character, stops
      inside `post` or at the end of `y`, before a kept character. */
  lemma {:induction false} TrimRightStops(y: string, post: string, cs: set<char>) returns (j: nat)
    requires y != [] && y[|y| - 1] !in cs
    ensures j <= |post| && TrimRight(y + post, cs) == y + post[..j]
    ensures 0 < j ==> post[j - 1] !in cs
    decreases |post|
  {
    if post == [] {
      assert y + post == y;
      j := 0;
    } else {
      var post' := post[..|post| - 1];
      assert (y + post)[|y + post| - 1] == post[|post| - 1];
      assert (y + post)[..|y + post| - 1] == y + post';
      if post[|post| - 1] in cs {
        j := TrimRightStops(y, post', cs);
        assert post'[..j] == post[..j];
      } else {
        j := |post|;
        assert post[..j] == post;
      }
    }
  }

  /** Stripping `pre + x + post`, where `x` starts and ends with kept
      characters, keeps `x` whole together with a suffix of `pre` and a
      prefix of `post` that end in kept characters; when `pre` and `post`
      consist of stripped characters only, it gives exactly `x`. */
  lemma StripByPadded(pre: string, x: string, post: string, cs: set<char>) returns (i: nat, j: nat)
    requires x != [] && x[0] !in cs && x[|x| - 1] !in cs
    ensures i <= |pre| && j <= |post|
    ensures StripBy(pre + x + post, cs) == pre[i..] + x + post[..j]
    ensures (forall k :: 0 <= k < |pre| ==> pre[k] in cs) ==> i == |pre|
    ensures (forall k :: 0 <= k < |post| ==> post[k] in cs) ==> j == 0
  {
    assert pre + x + post == pre + (x + post);
    i := TrimLeftStops(pre, x + post, cs);
    var y := pre[i..] + x;
    assert y[|y| - 1] == x[|x| - 1];
    assert pre[i..] + (x + post) == y + post;
    j := TrimRightStops(y, post, cs);
  }

  /** Stripping characters of `cs` from `pre + x + rest`, where `pre` is made
      of them and `x` starts and ends with other characters, leaves a text
      that starts with `x`. */
  lemma StripByKeepsPrefix(pre: string, x: string, rest: string, cs: set<char>)
    requires forall k :: 0 <= k < |pre| ==> pre[k] in cs
    requires x != [] && x[0] !in cs && x[|x| - 1] !in cs
    ensures StartsWith(StripBy(pre + x + rest, cs), x)
  {
    var i, j := StripByPadded(pre, x, rest, cs);
    assert pre[i..] == [];
    assert (x + rest[..j])[..|x|] == x;
  }

  /** When `pre` and `post` are made of characters of `cs` and `x` starts
      and ends with other characters, stripping `pre + x + post` gives `x`. */
  lemma StripByOfPadded(pre: string, x: string, post: string, cs: set<char>)
    requires forall k :: 0 <= k < |pre| ==> pre[k] in cs
    requires x != [] && x[0] !in cs && x[|x| - 1] !in cs
    requires forall k :: 0 <= k < |post| ==> post[k] in cs
    ensures StripBy(pre + x + post, cs) == x
  {
    var i, j := StripByPadded(pre, x, post, cs);
    assert pre[i..] == [] && post[..j] == [];
  }

  /** Lower-casing keeps prefixes. */
  lemma LowerStartsWith(t: string, x: string)
    requires StartsWith(t, x)
    ensures StartsWith(Lower(t), Lower(x))
  {
    LowerSlice(t, 0, |x|);
  }

  /** A prefix `r` of a suffix `t` of `s` that starts at `lo` is the slice of
      `s` at `lo`; what `t` has after `r` is what `s` has after the slice. */
  lemma SliceOfSuffix(s: string, t: string, r: string, lo: nat, cs: set<char>)
    requires lo <= |s| && t == s[lo..] && |r| <= |t| && r == t[..|r|]
    requires forall k :: |r| <= k < |t| ==> t[k] in cs
    ensures lo + |r| <= |s| && forall k :: 0 <= k < |r| ==> r[k] == s[lo + k]
    ensures forall k :: lo + |r| <= k < |s| ==> s[k] in cs
  {
    forall k | lo + |r| <= k < |s| ensures s[k] in cs {
      assert s[k] == t[k - lo];
    }
  }

  /** `StripBy(s, cs)` is the slice of `s` between two runs of characters
      of `cs`; `lo` is where it starts. */
  lemma StripByBounds(s: string, cs: set<char>) returns (lo: nat)
    ensures lo + |StripBy(s, cs)| <= |s|
    ensures forall k :: 0 <= k < |StripBy(s, cs)| ==> StripBy(s, cs)[k] == s[lo + k]
    ensures forall k :: 0 <= k < lo ==> s[k] in cs
    ensures forall k :: lo + |StripBy(s, cs)| <= k < |s| ==> s[k] in cs
  {
    var t := TrimLeft(s, cs);
    lo := |s| - |t|;
    var r := TrimRight(t, cs);
    SliceOfSuffix(s, t, r, lo, cs);
  }

  /** `Strip(s)` is the slice of `s` between two runs of whitespace; `lo`
      is where it starts. */
  lemma StripBounds(s: string) returns (lo: nat)
    ensures lo + |Strip(s)| <= |s|
    ensures forall k :: 0 <= k < |Strip(s)| ==> Strip(s)[k] == s[lo + k]
    ensures forall k :: 0 <= k < lo ==> s[k] in Whitespace
    ensures forall k :: lo + |Strip(s)| <= k < |s| ==> s[k] in Whitespace
  {
    lo := StripByBounds(s, Whitespace);
  }

  /** Lower-casing keeps whitespace and non-whitespace apart. */
  lemma LowerCharWhitespace(c: char)
    ensures LowerChar(c) in Whitespace <==> c in Whitespace
  {
  }

  /** Lower-casing commutes with slicing. */
  lemma LowerSlice(s: string, a: nat, b: nat)
    requires a <= b <= |s|
    ensures Lower(s[a..b]) == Lower(s)[a..b]
  {
  }

  /** An occurrence inside a slice is an occurrence in the slice, shifted. */
  lemma OccursInSlice(s: string, sub: string, i: nat, lo: nat, hi: nat)
    requires OccursAt(s, sub, i) && lo <= i && i + |sub| <= hi <= |s|
    ensures OccursAt(s[lo..hi], sub, i - lo)
  {
    var t := s[lo..hi];
    forall m | 0 <= m < |sub| ensures t[i - lo + m] == sub[m] {
      assert t[i - lo + m] == s[i + m];
    }
    assert t[i - lo..i - lo + |sub|] == sub;
  }

  /** The ends of an occurrence are the ends of what occurs. */
  lemma OccurrenceEnds(s: string, sub: string, i: nat)
    requires sub != [] && OccursAt(s, sub, i)
    ensures s[i] == sub[0] && s[i + |sub| - 1] == sub[|sub| - 1]
  {
    assert s[i..i + |sub|][0] == s[i];
    assert s[i..i + |sub|][|sub| - 1] == s[i + |sub| - 1];
  }

  /** Non-whitespace positions of a line fall between its leading and its
      trailing whitespace. */
  lemma BetweenBlankEnds(s: string, lo: nat, n: nat, first: nat, last: nat)
    requires lo + n <= |s| && first <= last < |s|
    requires forall k :: 0 <= k < lo ==> s[k] in Whitespace
    requires forall k :: lo + n <= k < |s| ==> s[k] in Whitespace
    requires s[first] !in Whitespace && s[last] !in Whitespace
    ensures lo <= first && last < lo + n
  {
  }

  /** A word that begins and ends with non-whitespace and occurs in the
      lower-cased line lies within the stripped part of the line. */
  lemma OccurrenceWithinStrip(s: string, w: string, i: nat) returns (lo: nat)
    requires w != [] && w[0] !in Whitespace && w[|w| - 1] !in Whitespace
    requires OccursAt(Lower(s), w, i)
    ensures lo <= i && i + |w| <= lo + |Strip(s)| <= |s|
    ensures forall k :: 0 <= k < |Strip(s)| ==> Strip(s)[k] == s[lo + k]
  {
    lo := StripBounds(s);
    var last := i + |w| - 1;
    OccurrenceEnds(Lower(s), w, i);
    LowerCharWhitespace(s[i]);
    LowerCharWhitespace(s[last]);
    BetweenBlankEnds(s, lo, |Strip(s)|, i, last);
  }

  /** An occurrence in the lower-cased line that lies inside the slice `t`
      of the line is an occurrence in the lower-cased slice. */
  lemma ContainsLowerInSlice(s: string, t: string, w: string, i: nat, lo: nat)
    requires lo + |t| <= |s| && lo <= i && i + |w| <= lo + |t|
    requires forall k :: 0 <= k < |t| ==> t[k] == s[lo + k]
    requires OccursAt(Lower(s), w, i)
    ensures Contains(Lower(t), w)
  {
    assert t == s[lo..lo + |t|];
    LowerSlice(s, lo, lo + |t|);
    OccursInSlice(Lower(s), w, i, lo, lo + |t|);
    assert OccursAt(Lower(t), w, i - lo);
  }

  /** A word that begins and ends with non-whitespace and occurs in the
      lower-cased line also occurs in the lower-cased stripped line. */
  lemma ContainsLowerStrip(s: string, w: string, i: nat)
    requires w != [] && w[0] !in Whitespace && w[|w| - 1] !in Whitespace
    requires OccursAt(Lower(s), w, i)
    ensures Contains(Lower(Strip(s)), w)
  {
    var lo := OccurrenceWithinStrip(s, w, i);
    ContainsLowerInSlice(s, Strip(s), w, i, lo);
  }

  /** The length of the run of non-whitespace characters that starts `s`. */
  function WordLength(s: string): (n: nat)
    ensures n <= |s|
    ensures forall k :: 0 <= k < n ==> s[k] !in Whitespace
    ensures n < |s| ==> s[n] in Whitespace
  {
    if s == [] || s[0] in Whitespace then 0 else 1 + WordLength(s[1..])
  }

  /** A non-empty run of non-whitespace characters. */
  predicate IsWord(w: string)
  {
    w != [] && forall k :: 0 <= k < |w| ==> w[k] !in Whitespace
  }

  /** The first run of non-whitespace in a line that does not start with
      whitespace is a word. */
  lemma FirstWord(t: string, n: nat)
    requires t != [] && t[0] !in Whitespace && n == WordLength(t)
    ensures 0 < n <= |t| && IsWord(t[..n])
  {
  }

  /** A word in front of a sequence of words gives a sequence of words. */
  lemma WordsCons(w: string, rest: seq<string>)
    requires IsWord(w) && forall i :: 0 <= i < |rest| ==> IsWord(rest[i])
    ensures forall i :: 0 <= i < |[w] + rest| ==> IsWord(([w] + rest)[i])
  {
  }

  /** `s.split()`: the maximal runs of non-whitespace characters, in order. */
  function Words(s: string): (ws: seq<string>)
    ensures forall i :: 0 <= i < |ws| ==> IsWord(ws[i])
    decreases |s|
  {
    var t := TrimLeft(s, Whitespace);
    if t == [] then []
    else
      var n := WordLength(t);
      FirstWord(t, n);
      var rest := Words(t[n..]);
      WordsCons(t[..n], rest);
      [t[..n]] + rest
  }

  /** Leading whitespace does not change the words of a line. */
  lemma WordsSkipBlank(ws: string, x: string)
    requires forall k :: 0 <= k < |ws| ==> ws[k] in Whitespace
    ensures Words(ws + x) == Words(x)
  {
    TrimLeftSkipsPrefix(ws, x, Whitespace);
  }

  /** A word followed by whitespace or by nothing is a whole run. */
  lemma WordLengthOfWord(w: string, post: string)
    requires IsWord(w) && (post == [] || post[0] in Whitespace)
    ensures WordLength(w + post) == |w|
  {
    var n := WordLength(w + post);
    assert |w| < |w + post| ==> (w + post)[|w|] == post[0];
    assert forall k :: 0 <= k < |w| ==> (w + post)[k] == w[k];
  }

  /** `split()` of whitespace, then a word, then text that is empty or
      starts with whitespace: that word, then the words of the text. */
  lemma WordsFirst(pre: string, w: string, post: string)
    requires forall k :: 0 <= k < |pre| ==> pre[k] in Whitespace
    requires IsWord(w) && (post == [] || post[0] in Whitespace)
    ensures Words(pre + w + post) == [w] + Words(post)
  {
    var t := w + post;
    assert pre + w + post == pre + t;
    TrimLeftSkipsPrefix(pre, t, Whitespace);
    assert t[0] == w[0];
    assert TrimLeft(t, Whitespace) == t;
    WordLengthOfWord(w, post);
    assert t[..|w|] == w && t[|w|..] == post;
  }

  /** Words separated by whitespace are split apart: the first one comes
      first, and the rest are the words after the separator. */
  lemma WordsSeparated(pre: string, w: string, sep: string, rest: string)
    requires forall k :: 0 <= k < |pre| ==> pre[k] in Whitespace
    requires IsWord(w)
    requires sep != [] && forall k :: 0 <= k < |sep| ==> sep[k] in Whitespace
    ensures Words(pre + w + sep + rest) == [w] + Words(rest)
  {
    assert pre + w + sep + rest == pre + w + (sep + rest);
    assert (sep + rest)[0] == sep[0];
    WordsFirst(pre, w, sep + rest);
    WordsSkipBlank(sep, rest);
  }

  /** A line of whitespace only has no words. */
  lemma WordsOfBlank(s: string)
    requires forall k :: 0 <= k < |s| ==> s[k] in Whitespace
    ensures Words(s) == []
  {
  }

  /** A word followed by whitespace only splits into that word alone. */
  lemma WordsOfWord(w: string, post: string)
    requires IsWord(w)
    requires forall k :: 0 <= k < |post| ==> post[k] in Whitespace
    ensures Words(w + post) == [w]
  {
    var t := w + post;
    assert t[0] == w[0];
    assert TrimLeft(t, Whitespace) == t;
    WordLengthOfWord(w, post);
    assert t[..|w|] == w && t[|w|..] == post;
    WordsOfBlank(post);
  }

  /** A single word with whitespace around it splits into that word alone. */
  lemma WordsSingle(pre: string, w: string, post: string)
    requires forall k :: 0 <= k < |pre| ==> pre[k] in Whitespace
    requires IsWord(w)
    requires forall k :: 0 <= k < |post| ==> post[k] in Whitespace
    ensures Words(pre + w + post) == [w]
  {
    WordsFirst(pre, w, post);
    WordsOfBlank(post);
  }

  /** Two words with whitespace around and between them split into those
      two words. */
  lemma WordsPair(pre: string, w1: string, sep: string, w2: string, post: string)
    requires forall k :: 0 <= k < |pre| ==> pre[k] in Whitespace
    requires IsWord(w1)
    requires sep != [] && forall k :: 0 <= k < |sep| ==> sep[k] in Whitespace
    requires IsWord(w2)
    requires forall k :: 0 <= k < |post| ==> post[k] in Whitespace
    ensures Words(pre + w1 + sep + w2 + post) == [w1, w2]
  {
    var tail := w2 + post;
    assert Words(pre + w1 + sep + w2 + post) == [w1] + Words(tail) by {
      Regroup(pre, w1, sep, w2, post);
      WordsSeparated(pre, w1, sep, tail);
    }
    assert Words(tail) == [w2] by {
      WordsOfWord(w2, post);
    }
    ConsPair(Words(pre + w1 + sep + w2 + post), w1, Words(tail), w2);
  }

  /** `[x] + [y]` is the pair `[x, y]`. */
  lemma ConsPair(xs: seq<string>, x: string, ys: seq<string>, y: string)
    requires xs == [x] + ys && ys == [y]
    ensures xs == [x, y]
  {
  }

  /** Concatenation regrouped so that the last two parts go together. */
  lemma Regroup(a: string, b: string, c: string, d: string, e: string)
    ensures a + b + c + d + e == a + b + c + (d + e)
  {
  }

  /** A line has no words exactly when it is blank. */
  lemma WordsEmptyIffBlank(s: string)
    ensures Words(s) == [] <==> Strip(s) == []
  {
  }
}
