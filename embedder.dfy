/*
 * A model of the text embedder of the product-recommendation pipeline
 * (src/utils/embedder.py): the whitespace normaliser `_clean_text` and the
 * per-text embedding loop `embed_texts`. The embedding model itself is an
 * opaque, possibly failing function passed in by the caller.
 */
module Embedder {

  /** Outcome of a call that may raise: the value, or the message of the
      exception that was raised. */
  datatype Result<T> = Success(value: T) | Failure(error: string)

  // ---------------------------------------------------------------------
  // Whitespace
  // ---------------------------------------------------------------------

  /** Python's whitespace test on a code point. The regular expression class
      `\s` (on str patterns) and `str.strip()` both use it: the ASCII
      characters TAB, LF, VT, FF, CR, the separators U+001C..U+001F and SPACE,
      and the Unicode spaces NEL, NO-BREAK SPACE, OGHAM SPACE MARK,
      U+2000..U+200A, LINE and PARAGRAPH SEPARATOR, NARROW NO-BREAK SPACE,
      MEDIUM MATHEMATICAL SPACE and IDEOGRAPHIC SPACE. */
  predicate IsWhitespace(c: char) {
    var n := c as int;
    (0x09 <= n <= 0x0D) || (0x1C <= n <= 0x20) || n == 0x85 || n == 0xA0 ||
    n == 0x1680 || (0x2000 <= n <= 0x200A) || n == 0x2028 || n == 0x2029 ||
    n == 0x202F || n == 0x205F || n == 0x3000
  }

  predicate AllWhitespace(s: string) {
    forall i :: 0 <= i < |s| ==> IsWhitespace(s[i])
  }

  /** A word: a non-empty run of non-whitespace characters. */
  predicate IsWord(w: string) {
    w != [] && forall i :: 0 <= i < |w| ==> !IsWhitespace(w[i])
  }

  /** Neither the first nor the last character is whitespace. */
  predicate NoEdgeWhitespace(s: string) {
    s == [] || (!IsWhitespace(s[0]) && !IsWhitespace(s[|s| - 1]))
  }

  /** At position `i`: a whitespace character is a plain space and is not
      followed by another whitespace character. */
  predicate SpacedAt(s: string, i: nat)
    requires i < |s|
  {
    IsWhitespace(s[i]) ==> s[i] == ' ' && (i + 1 == |s| || !IsWhitespace(s[i + 1]))
  }

  /** Every whitespace character is a plain space and no two are adjacent. */
  ghost predicate SingleSpaced(s: string) {
    forall i :: 0 <= i < |s| ==> SpacedAt(s, i)
  }

  /** The shape of normalised text. */
  ghost predicate IsClean(s: string) {
    NoEdgeWhitespace(s) && SingleSpaced(s)
  }

  lemma SingleSpacedSlice(s: string, lo: nat, hi: nat)
    requires lo <= hi <= |s| && SingleSpaced(s)
    ensures SingleSpaced(s[lo..hi])
  {
    forall i | 0 <= i < hi - lo
      ensures SpacedAt(s[lo..hi], i)
    {
      assert SpacedAt(s, lo + i);
    }
  }

  /** Two single-spaced texts that do not meet in two whitespace characters
      make a single-spaced text. */
  lemma SingleSpacedAppend(a: string, b: string)
    requires SingleSpaced(a) && SingleSpaced(b)
    requires a == [] || b == [] || !IsWhitespace(a[|a| - 1]) || !IsWhitespace(b[0])
    ensures SingleSpaced(a + b)
  {
    forall i | 0 <= i < |a + b|
      ensures SpacedAt(a + b, i)
    {
      if i < |a| {
        assert SpacedAt(a, i);
      } else {
        assert SpacedAt(b, i - |a|);
      }
    }
  }

  // ---------------------------------------------------------------------
  // Positions: leading whitespace, trailing whitespace, first word
  // ---------------------------------------------------------------------

  /** The number of leading whitespace characters: they are all whitespace
      and the character after them, if any, is not. */
  function LeadingWhitespace(s: string): (n: nat)
    ensures n <= |s|
    ensures forall i :: 0 <= i < n ==> IsWhitespace(s[i])
    ensures n == |s| || !IsWhitespace(s[n])
  {
    if s == [] || !IsWhitespace(s[0]) then 0 else 1 + LeadingWhitespace(s[1..])
  }

  /** Where the trailing whitespace begins: everything from there on is
      whitespace and the character before, if any, is not. */
  function TrailingWhitespace(s: string): (n: nat)
    ensures n <= |s|
    ensures forall i :: n <= i < |s| ==> IsWhitespace(s[i])
    ensures n == 0 || !IsWhitespace(s[n - 1])
  {
    if s == [] || !IsWhitespace(s[|s| - 1]) then |s| else TrailingWhitespace(s[..|s| - 1])
  }

  /** The length of the longest prefix without whitespace. */
  function WordLength(s: string): (n: nat)
    ensures n <= |s|
    ensures forall i :: 0 <= i < n ==> !IsWhitespace(s[i])
    ensures n == |s| || IsWhitespace(s[n])
  {
    if s == [] || IsWhitespace(s[0]) then 0 else 1 + WordLength(s[1..])
  }

  // The three contracts above determine their results.

  lemma LeadingWhitespaceUnique(s: string, m: nat)
    requires m <= |s| && (forall i :: 0 <= i < m ==> IsWhitespace(s[i]))
    requires m == |s| || !IsWhitespace(s[m])
    ensures LeadingWhitespace(s) == m
  {
  }

  lemma TrailingWhitespaceUnique(s: string, m: nat)
    requires m <= |s| && (forall i :: m <= i < |s| ==> IsWhitespace(s[i]))
    requires m == 0 || !IsWhitespace(s[m - 1])
    ensures TrailingWhitespace(s) == m
  {
  }

  lemma WordLengthUnique(s: string, m: nat)
    requires m <= |s| && (forall i :: 0 <= i < m ==> !IsWhitespace(s[i]))
    requires m == |s| || IsWhitespace(s[m])
    ensures WordLength(s) == m
  {
  }

  // ---------------------------------------------------------------------
  // `str.strip()`, one end at a time, and the first word
  // ---------------------------------------------------------------------

  function TrimStart(s: string): string {
    s[LeadingWhitespace(s)..]
  }

  function TrimEnd(s: string): string {
    s[..TrailingWhitespace(s)]
  }

  function Strip(s: string): string {
    TrimEnd(TrimStart(s))
  }

  function TakeWord(s: string): string {
    s[..WordLength(s)]
  }

  lemma TrimStartOfTrimmed(s: string)
    requires s == [] || !IsWhitespace(s[0])
    ensures TrimStart(s) == s
  {
    LeadingWhitespaceUnique(s, 0);
  }

  /** Trimming a run of whitespace off the front of a text that starts with
      a word. */
  lemma TrimStartGap(gap: string, x: string)
    requires AllWhitespace(gap)
    requires x == [] || !IsWhitespace(x[0])
    ensures TrimStart(gap + x) == x
  {
    LeadingWhitespaceUnique(gap + x, |gap|);
    assert (gap + x)[|gap|..] == x;
  }

  lemma TrimEndOfWord(w: string)
    requires IsWord(w)
    ensures TrimEnd(w) == w
  {
    TrailingWhitespaceUnique(w, |w|);
  }

  /** Trimming the end of `a + b` only touches `b` when `b` holds a
      non-whitespace character. */
  lemma TrimEndAppend(a: string, b: string, k: nat)
    requires k < |b| && !IsWhitespace(b[k])
    ensures TrimEnd(a + b) == a + TrimEnd(b)
  {
    var n := TrailingWhitespace(b);
    assert k < n;
    TrailingWhitespaceUnique(a + b, |a| + n);
    assert (a + b)[..|a| + n] == a + b[..n];
  }

  /** Trimming the end ignores an all-whitespace tail. */
  lemma TrimEndWhitespaceTail(a: string, b: string)
    requires AllWhitespace(b)
    ensures TrimEnd(a + b) == TrimEnd(a)
  {
    var n := TrailingWhitespace(a);
    TrailingWhitespaceUnique(a + b, n);
    assert (a + b)[..n] == a[..n];
  }

  /** The first word of a word followed by whitespace (or nothing). */
  lemma TakeWordOf(w: string, y: string)
    requires IsWord(w) && (y == [] || IsWhitespace(y[0]))
    ensures WordLength(w + y) == |w| && TakeWord(w + y) == w && (w + y)[|w|..] == y
  {
    assert |w| < |w + y| ==> (w + y)[|w|] == y[0];
    WordLengthUnique(w + y, |w|);
    assert (w + y)[..|w|] == w;
    assert (w + y)[|w|..] == y;
  }

  // ---------------------------------------------------------------------
  // `re.sub(r'\s+', ' ', text)`
  // ---------------------------------------------------------------------

  /** Replaces every maximal run of whitespace by one space, scanning left to
      right as the greedy `\s+` does: a word is copied, a run is replaced.
      The result is no longer than the input, empty only for the empty input,
      and starts with whitespace exactly when the input does. */
  function Collapse(s: string): (r: string)
    ensures |r| <= |s|
    ensures r == [] <==> s == []
    ensures s != [] ==> (IsWhitespace(r[0]) <==> IsWhitespace(s[0]))
    decreases |s|
  {
    if s == [] then []
    else if IsWhitespace(s[0]) then [' '] + Collapse(TrimStart(s))
    else TakeWord(s) + Collapse(s[WordLength(s)..])
  }

  /** The collapsed text is single-spaced. */
  lemma {:induction false} CollapseSingleSpaced(s: string)
    ensures SingleSpaced(Collapse(s))
    decreases |s|
  {
    if s != [] {
      if IsWhitespace(s[0]) {
        var rest := TrimStart(s);
        CollapseSingleSpaced(rest);
        assert SpacedAt([' '], 0);
        SingleSpacedAppend([' '], Collapse(rest));
      } else {
        var w := TakeWord(s);
        var rest := s[WordLength(s)..];
        CollapseSingleSpaced(rest);
        assert forall i :: 0 <= i < |w| ==> !IsWhitespace(w[i]);
        SingleSpacedAppend(w, Collapse(rest));
      }
    }
  }

  /** Stripping a single-spaced text leaves a clean one. */
  lemma StripClean(s: string)
    requires SingleSpaced(s)
    ensures IsClean(Strip(s)) && |Strip(s)| <= |s|
  {
    var lo := LeadingWhitespace(s);
    var front := TrimStart(s);
    SingleSpacedSlice(s, lo, |s|);
    assert s[lo..|s|] == front;
    SingleSpacedSlice(front, 0, TrailingWhitespace(front));
  }

  /** `Embedder._clean_text`: collapse the whitespace runs, then strip. The
      result is clean (no whitespace at either end, every whitespace
      character a single plain space) and no longer than the input. */
  function CleanText(text: string): (r: string)
    ensures IsClean(r)
    ensures |r| <= |text|
  {
    CollapseSingleSpaced(text);
    StripClean(Collapse(text));
    Strip(Collapse(text))
  }

  // ---------------------------------------------------------------------
  // Words: the reference view of a text
  // ---------------------------------------------------------------------

  /** The maximal runs of non-whitespace characters of `s`, in order (what
      Python's `s.split()` returns). */
  function Words(s: string): seq<string>
    decreases |s|
  {
    var u := TrimStart(s);
    if u == [] then []
    else
      var w := TakeWord(u);
      assert w != [] && w[0] == u[0];
      [w] + Words(u[|w|..])
  }

  /** The words separated by single spaces (Python's `" ".join(ws)`). */
  function JoinWords(ws: seq<string>): string {
    if ws == [] then []
    else if |ws| == 1 then ws[0]
    else ws[0] + " " + JoinWords(ws[1..])
  }

  /** Every element of `Words(s)` is a word. */
  lemma {:induction false} WordsAreWords(s: string)
    ensures forall i :: 0 <= i < |Words(s)| ==> IsWord(Words(s)[i])
    decreases |s|
  {
    var u := TrimStart(s);
    if u != [] {
      var w := TakeWord(u);
      WordsAreWords(u[|w|..]);
    }
  }

  lemma WordsOfNothing()
    ensures Words([]) == []
  {
  }

  /** A text has no words exactly when it is all whitespace. */
  lemma WordsEmpty(s: string)
    ensures Words(s) == [] <==> AllWhitespace(s)
  {
    var n := LeadingWhitespace(s);
    if n < |s| {
      assert !IsWhitespace(s[n]);
    }
  }

  lemma WordsSkipWhitespace(s: string)
    ensures Words(s) == Words(TrimStart(s))
  {
    TrimStartOfTrimmed(TrimStart(s));
  }

  /** Splitting off the first word. */
  lemma WordsStep(s: string)
    requires s != [] && !IsWhitespace(s[0])
    ensures Words(s) == [TakeWord(s)] + Words(s[WordLength(s)..])
  {
    TrimStartOfTrimmed(s);
  }

  /** A word followed by whitespace (or nothing) is split off whole. */
  lemma WordsAfterWord(w: string, y: string)
    requires IsWord(w) && (y == [] || IsWhitespace(y[0]))
    ensures Words(w + y) == [w] + Words(y)
  {
    TakeWordOf(w, y);
    WordsStep(w + y);
  }

  /** Whitespace before a word does not change the words. */
  lemma WordsAfterGap(gap: string, x: string)
    requires AllWhitespace(gap)
    requires x == [] || !IsWhitespace(x[0])
    ensures Words(gap + x) == Words(x)
  {
    TrimStartGap(gap, x);
    WordsSkipWhitespace(gap + x);
  }

  /** One space before a word does not change the words. */
  lemma WordsAfterSpace(x: string)
    requires x == [] || !IsWhitespace(x[0])
    ensures Words([' '] + x) == Words(x)
  {
    WordsAfterGap([' '], x);
  }

  /** A single word is its own list of words. */
  lemma WordsOfWord(w: string)
    requires IsWord(w)
    ensures Words(w) == [w]
  {
    assert w + [] == w;
    WordsAfterWord(w, []);
    WordsOfNothing();
  }

  /** A word, one space and a text that starts with a word (or nothing). */
  lemma WordsOfWordSpace(w: string, tail: string)
    requires IsWord(w) && (tail == [] || !IsWhitespace(tail[0]))
    ensures Words(w + " " + tail) == [w] + Words(tail)
  {
    assert w + " " + tail == w + ([' '] + tail);
    WordsAfterWord(w, [' '] + tail);
    WordsAfterSpace(tail);
  }

  /** A join of words starts with the first letter of the first word. */
  lemma JoinWordsStart(ws: seq<string>)
    requires ws != [] && IsWord(ws[0])
    ensures JoinWords(ws) != [] && JoinWords(ws)[0] == ws[0][0]
  {
  }

  lemma JoinWordsStep(w: string, ws: seq<string>)
    requires ws != []
    ensures JoinWords([w] + ws) == w + " " + JoinWords(ws)
  {
    assert ([w] + ws)[1..] == ws;
  }

  // ---------------------------------------------------------------------
  // What the normaliser does to the words of a text
  // ---------------------------------------------------------------------

  /** The last word of a text: only whitespace follows it. */
  lemma TrimEndCollapseLast(w: string, rest: string)
    requires IsWord(w) && AllWhitespace(rest)
    ensures TrimEnd(w + Collapse(rest)) == w
    ensures JoinWords([w] + Words(rest)) == w
  {
    assert Collapse(rest) == [] || Collapse(rest) == [' '];
    TrimEndWhitespaceTail(w, Collapse(rest));
    TrimEndOfWord(w);
    WordsEmpty(rest);
    assert [w] + Words(rest) == [w];
  }

  /** A word followed by a run of whitespace and more words. */
  lemma TrimEndCollapseStep(w: string, rest: string, v: string)
    requires IsWord(w) && rest != [] && IsWhitespace(rest[0])
    requires v == TrimStart(rest) && v != []
    ensures TrimEnd(w + Collapse(rest)) == w + " " + TrimEnd(Collapse(v))
    ensures JoinWords([w] + Words(rest)) == w + " " + JoinWords(Words(v))
  {
    assert Collapse(rest) == [' '] + Collapse(v);
    assert w + Collapse(rest) == (w + " ") + Collapse(v);
    TrimEndAppend(w + " ", Collapse(v), 0);
    WordsSkipWhitespace(rest);
    assert Words(v) != [] by { WordsEmpty(v); assert !IsWhitespace(v[0]); }
    JoinWordsStep(w, Words(v));
  }

  /** A text that starts with a word followed by whitespace only. */
  lemma TrimEndCollapseOne(u: string)
    requires u != [] && !IsWhitespace(u[0])
    requires TrimStart(u[WordLength(u)..]) == []
    ensures TrimEnd(Collapse(u)) == JoinWords(Words(u))
  {
    var k := WordLength(u);
    var w, rest := u[..k], u[k..];
    assert AllWhitespace(rest);
    assert Collapse(u) == w + Collapse(rest);
    WordsStep(u);
    TrimEndCollapseLast(w, rest);
  }

  /** A text that starts with a word, whitespace and a further word, at the
      start of `v`. */
  lemma TrimEndCollapseMore(u: string, v: string)
    requires u != [] && !IsWhitespace(u[0])
    requires v == TrimStart(u[WordLength(u)..]) && v != []
    ensures |v| < |u| && !IsWhitespace(v[0])
    ensures TrimEnd(Collapse(u)) == TakeWord(u) + " " + TrimEnd(Collapse(v))
    ensures JoinWords(Words(u)) == TakeWord(u) + " " + JoinWords(Words(v))
  {
    var k := WordLength(u);
    var w, rest := u[..k], u[k..];
    assert rest[0] == u[k];
    assert Collapse(u) == w + Collapse(rest);
    WordsStep(u);
    TrimEndCollapseStep(w, rest, v);
  }

  /** On a text that starts with a word, collapsing and trimming the end
      gives the words joined by single spaces. */
  lemma {:induction false} TrimEndCollapse(u: string)
    requires u == [] || !IsWhitespace(u[0])
    ensures TrimEnd(Collapse(u)) == JoinWords(Words(u))
    decreases |u|
  {
    if u != [] {
      var v := TrimStart(u[WordLength(u)..]);
      if v == [] {
        TrimEndCollapseOne(u);
      } else {
        TrimEndCollapseMore(u, v);
        TrimEndCollapse(v);
      }
    }
  }

  /** The normalised text is exactly the words of the input joined by single
      spaces. */
  lemma CleanTextIsJoinedWords(text: string)
    ensures CleanText(text) == JoinWords(Words(text))
  {
    var u := TrimStart(text);
    assert TrimStart(Collapse(text)) == Collapse(u) by {
      if text != [] && IsWhitespace(text[0]) {
        assert Collapse(text) == [' '] + Collapse(u);
        TrimStartGap([' '], Collapse(u));
      } else {
        TrimStartOfTrimmed(text);
        TrimStartOfTrimmed(Collapse(text));
      }
    }
    TrimEndCollapse(u);
    WordsSkipWhitespace(text);
  }

  /** Splitting words that were joined by single spaces gives them back. */
  lemma {:induction false} WordsOfJoin(ws: seq<string>)
    requires forall i :: 0 <= i < |ws| ==> IsWord(ws[i])
    ensures Words(JoinWords(ws)) == ws
  {
    if |ws| == 1 {
      WordsOfWord(ws[0]);
    } else if |ws| > 1 {
      WordsOfJoin(ws[1..]);
      JoinWordsStart(ws[1..]);
      WordsOfWordSpace(ws[0], JoinWords(ws[1..]));
      assert ws == [ws[0]] + ws[1..];
    }
  }

  /** Normalising keeps the words of the text, in order. */
  lemma CleanTextKeepsWords(text: string)
    ensures Words(CleanText(text)) == Words(text)
  {
    CleanTextIsJoinedWords(text);
    WordsAreWords(text);
    WordsOfJoin(Words(text));
  }

  /** After a space inside a clean text comes a clean text. */
  lemma CleanAfterSpace(s: string, k: nat)
    requires IsClean(s) && k < |s| && IsWhitespace(s[k])
    ensures k + 1 < |s| && s[k] == ' ' && IsClean(s[k + 1..])
  {
    assert SpacedAt(s, k);
    var tail := s[k + 1..];
    assert NoEdgeWhitespace(tail) by {
      assert tail[0] == s[k + 1] && tail[|tail| - 1] == s[|s| - 1];
    }
    assert SingleSpaced(tail) by {
      SingleSpacedSlice(s, k + 1, |s|);
      assert s[k + 1..|s|] == tail;
    }
  }

  /** A word, one space and a text that starts with a word. */
  lemma JoinWordsAfterSpace(w: string, tail: string)
    requires IsWord(w) && tail != [] && !IsWhitespace(tail[0])
    ensures JoinWords(Words(w + " " + tail)) == w + " " + JoinWords(Words(tail))
  {
    WordsOfWordSpace(w, tail);
    assert Words(tail) != [] by { WordsEmpty(tail); }
    JoinWordsStep(w, Words(tail));
  }

  /** A clean text is one word, or a word, one space and a shorter clean
      text whose join of words gives the whole text back. */
  lemma CleanJoinStep(s: string, k: nat)
    requires IsClean(s) && s != [] && k == WordLength(s)
    ensures k == |s| ==> JoinWords(Words(s)) == s
    ensures k < |s| ==> IsClean(s[k + 1..]) && |s[k + 1..]| < |s|
    ensures k < |s| && JoinWords(Words(s[k + 1..])) == s[k + 1..] ==> JoinWords(Words(s)) == s
  {
    var w := s[..k];
    if k == |s| {
      assert w == s;
      WordsOfWord(w);
    } else {
      CleanAfterSpace(s, k);
      var tail := s[k + 1..];
      assert s == w + " " + tail;
      JoinWordsAfterSpace(w, tail);
    }
  }

  /** A normalised text is the join of its own words. */
  lemma {:induction false} CleanIsJoinOfWords(s: string)
    requires IsClean(s)
    ensures JoinWords(Words(s)) == s
    decreases |s|
  {
    if s != [] {
      var k := WordLength(s);
      CleanJoinStep(s, k);
      if k < |s| {
        CleanIsJoinOfWords(s[k + 1..]);
      }
    }
  }

  /** The texts the normaliser leaves unchanged are exactly the clean ones. */
  lemma CleanTextFixedPoint(text: string)
    ensures CleanText(text) == text <==> IsClean(text)
  {
    if IsClean(text) {
      CleanTextIsJoinedWords(text);
      CleanIsJoinOfWords(text);
    }
  }

  /** `_clean_text` is idempotent. */
  lemma CleanTextIdempotent(text: string)
    ensures CleanText(CleanText(text)) == CleanText(text)
  {
    CleanTextFixedPoint(CleanText(text));
  }

  /** `_clean_text` yields the empty string exactly on all-whitespace text
      (the empty text included). */
  lemma CleanTextEmpty(text: string)
    ensures CleanText(text) == [] <==> AllWhitespace(text)
  {
    CleanTextIsJoinedWords(text);
    WordsEmpty(text);
    var ws := Words(text);
    if ws != [] {
      WordsAreWords(text);
      JoinWordsStart(ws);
    }
  }

  /** Whitespace, a word, and whitespace or nothing after it. */
  lemma WordsGapWord(gap: string, w: string, y: string)
    requires AllWhitespace(gap) && IsWord(w) && (y == [] || IsWhitespace(y[0]))
    ensures Words(gap + (w + y)) == [w] + Words(y)
  {
    assert (w + y)[0] == w[0];
    WordsAfterGap(gap, w + y);
    WordsAfterWord(w, y);
  }

  // The three-word lemmas nest their concatenations to the right, so that no
  // step needs to re-associate a long sequence.

  /** The words of three words surrounded and separated by whitespace. */
  lemma WordsOfThree(lead: string, a: string, g1: string, b: string, g2: string, c: string, trail: string)
    requires IsWord(a) && IsWord(b) && IsWord(c)
    requires AllWhitespace(lead) && AllWhitespace(trail)
    requires g1 != [] && AllWhitespace(g1) && g2 != [] && AllWhitespace(g2)
    ensures Words(lead + (a + (g1 + (b + (g2 + (c + trail)))))) == [a, b, c]
  {
    var y2 := g2 + (c + trail);
    var y1 := g1 + (b + y2);
    assert y1[0] == g1[0] && y2[0] == g2[0];
    WordsGapWord(lead, a, y1);
    WordsGapWord(g1, b, y2);
    WordsGapWord(g2, c, trail);
    WordsEmpty(trail);
    assert [a] + ([b] + ([c] + [])) == [a, b, c];
  }

  lemma JoinThree(a: string, b: string, c: string)
    ensures JoinWords([a, b, c]) == a + (" " + (b + (" " + c)))
  {
    assert [a, b, c] == [a] + [b, c] && [b, c] == [b] + [c];
    JoinWordsStep(a, [b, c]);
    JoinWordsStep(b, [c]);
  }

  /** Runs of whitespace between three words become single spaces, and runs
      at either end are dropped. */
  lemma CleanTextThreeWords(lead: string, a: string, g1: string, b: string, g2: string, c: string, trail: string)
    requires IsWord(a) && IsWord(b) && IsWord(c)
    requires AllWhitespace(lead) && AllWhitespace(trail)
    requires g1 != [] && AllWhitespace(g1) && g2 != [] && AllWhitespace(g2)
    ensures CleanText(lead + (a + (g1 + (b + (g2 + (c + trail)))))) == a + (" " + (b + (" " + c)))
  {
    WordsOfThree(lead, a, g1, b, g2, c, trail);
    JoinThree(a, b, c);
    CleanTextIsJoinedWords(lead + (a + (g1 + (b + (g2 + (c + trail))))));
  }

  // The literal strings of the example are split into parts here, in a
  // context of their own: a lemma that mentions `CleanText` on a literal
  // would make the verifier evaluate it through every definition.
  lemma ExampleParts(a: string, g1: string, b: string, g2: string, c: string)
    requires a == "a" && g1 == "   " && b == "b" && g2 == "\n\t" && c == "c"
    ensures AllWhitespace(g1) && AllWhitespace(g2)
    ensures [] + (a + (g1 + (b + (g2 + (c + []))))) == "a   b\n\tc"
    ensures a + (" " + (b + (" " + c))) == "a b c"
  {
  }

  /** A run of spaces, and a newline followed by a tab, each become one
      space. */
  lemma CleanTextExample()
    ensures CleanText("a   b\n\tc") == "a b c"
  {
    var a, g1, b, g2, c := "a", "   ", "b", "\n\t", "c";
    ExampleParts(a, g1, b, g2, c);
    CleanTextThreeWords([], a, g1, b, g2, c, []);
  }

  // ---------------------------------------------------------------------
  // `Embedder.embed_texts`
  // ---------------------------------------------------------------------

  /** The text handed to the model: normalised when `clean` is set. */
  function Prepared(text: string, clean: bool): string {
    if clean then CleanText(text) else text
  }

  /** `Embedder.embed_texts`: encodes the texts one by one, in order. It
      succeeds exactly when every encoding succeeds, and then returns one
      embedding per text; otherwise it re-raises the error of the first text
      that failed and returns no embeddings at all. Cleaning is on unless
      the caller turns it off. */
  method EmbedTexts<E>(encode: string -> Result<E>, texts: seq<string>, clean: bool := true)
    returns (r: Result<seq<E>>)
    ensures r.Success? <==>
      forall i :: 0 <= i < |texts| ==> encode(Prepared(texts[i], clean)).Success?
    ensures r.Success? ==> |r.value| == |texts|
    ensures r.Success? ==>
      forall i :: 0 <= i < |texts| ==> encode(Prepared(texts[i], clean)) == Success(r.value[i])
    ensures r.Failure? ==>
      exists k :: 0 <= k < |texts| && encode(Prepared(texts[k], clean)) == Failure(r.error) &&
        forall j :: 0 <= j < k ==> encode(Prepared(texts[j], clean)).Success?
    ensures texts == [] ==> r == Success([])
  {
    var embeddings: seq<E> := [];
    for i := 0 to |texts|
      invariant |embeddings| == i
      invariant forall j :: 0 <= j < i ==> encode(Prepared(texts[j], clean)) == Success(embeddings[j])
    {
      var text := texts[i];
      if clean {
        text := CleanText(text);
      }
      assert text == Prepared(texts[i], clean);
      var embedding := encode(text);
      if embedding.Failure? {
        assert encode(Prepared(texts[i], clean)) == Failure(embedding.error);
        return Failure(embedding.error);
      }
      embeddings := embeddings + [embedding.value];
    }
    return Success(embeddings);
  }
}
