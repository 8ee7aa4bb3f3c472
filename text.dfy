/** Text normalisation: the `normalize` and `toUpper` helpers of content.js (and the identical
    `clean` and `upper` closures inside `parseStandings`), plus the few string relations the
    other modules compare with. */
module Text {

  /** U+00A0, the non-breaking space that `normalize` rewrites first. */
  const NBSP: char := '\U{00A0}'

  /** The characters that JavaScript's `\s` class and `String.prototype.trim` treat as white
      space: the WhiteSpace and LineTerminator productions of ECMAScript. */
  predicate IsWhitespace(c: char) {
    c == '\t' || c == '\n' || c == '\U{000B}' || c == '\U{000C}' || c == '\r' || c == ' ' ||
    c == NBSP || c == '\U{1680}' || ('\U{2000}' <= c <= '\U{200A}') ||
    c == '\U{2028}' || c == '\U{2029}' || c == '\U{202F}' || c == '\U{205F}' ||
    c == '\U{3000}' || c == '\U{FEFF}'
  }

  /** Every white-space character of `s` is the plain space. */
  predicate SpacesOnly(s: string) {
    forall i :: 0 <= i < |s| && IsWhitespace(s[i]) ==> s[i] == ' '
  }

  /** No two adjacent characters of `s` are both white space. */
  predicate NoDoubleSpace(s: string) {
    forall i :: 0 <= i < |s| - 1 ==> !(IsWhitespace(s[i]) && IsWhitespace(s[i + 1]))
  }

  /** `s` neither starts nor ends with white space. */
  predicate Trimmed(s: string) {
    s != [] ==> !IsWhitespace(s[0]) && !IsWhitespace(s[|s| - 1])
  }

  /** The shape of every string `Normalize` returns. */
  predicate IsNormalized(s: string) {
    SpacesOnly(s) && NoDoubleSpace(s) && Trimmed(s)
  }

  /** `a` and `b` differ at most in which white-space character stands at a white-space
      position (an NBSP where the other has a tab, say). */
  predicate WhitespaceVariants(a: string, b: string) {
    |a| == |b| &&
    forall i :: 0 <= i < |a| ==> a[i] == b[i] || (IsWhitespace(a[i]) && IsWhitespace(b[i]))
  }

  /** Rewrites every NBSP to a plain space, the first step of `normalize`. */
  function ReplaceNbsp(s: string): (r: string)
    ensures WhitespaceVariants(s, r)
    ensures NBSP !in r
  {
    seq(|s|, i requires 0 <= i < |s| => if s[i] == NBSP then ' ' else s[i])
  }

  /** Drops the leading white space of `s`. */
  function TrimStart(s: string): (r: string)
    ensures |r| <= |s|
    decreases |s|
  {
    if s != [] && IsWhitespace(s[0]) then TrimStart(s[1..]) else s
  }

  /** Drops the trailing white space of `s`. */
  function TrimEnd(s: string): (r: string)
    ensures |r| <= |s|
    decreases |s|
  {
    if s != [] && IsWhitespace(s[|s| - 1]) then TrimEnd(s[..|s| - 1]) else s
  }

  /** `String.prototype.trim`. */
  function Trim(s: string): (r: string)
    ensures |r| <= |s|
  {
    TrimEnd(TrimStart(s))
  }

  /** `.replace(/\s+/g, " ")`: every maximal run of white space becomes one plain space (a
      white-space character followed by another is dropped; the last of a run becomes " "). */
  function Collapse(s: string): (r: string)
    decreases |s|
    ensures |r| <= |s|
  {
    if s == [] then []
    else if IsWhitespace(s[0]) && |s| > 1 && IsWhitespace(s[1]) then Collapse(s[1..])
    else [if IsWhitespace(s[0]) then ' ' else s[0]] + Collapse(s[1..])
  }

  /** `normalize(text)`: "" for a falsy (empty) argument; otherwise NBSP becomes a space, the
      ends are trimmed and inner white-space runs collapse to one space. */
  function Normalize(text: string): (r: string)
    ensures |r| <= |text|
  {
    if text == "" then "" else Collapse(Trim(ReplaceNbsp(text)))
  }

  // ---------------------------------------------------------------------------------------
  // The shape of each step of Normalize

  /** `TrimStart` keeps a suffix of `s`, drops only white space, and stops at a character
      that is not white space. */
  lemma {:induction false} TrimStartShape(s: string)
    ensures var r := TrimStart(s);
      r == s[|s| - |r|..] &&
      (forall i :: 0 <= i < |s| - |r| ==> IsWhitespace(s[i])) &&
      (r != [] ==> !IsWhitespace(r[0]))
    decreases |s|
  {
    if s != [] && IsWhitespace(s[0]) {
      TrimStartShape(s[1..]);
      var r := TrimStart(s[1..]);
      assert forall i :: 1 <= i < |s| - |r| ==> s[i] == s[1..][i - 1];
    }
  }

  /** `TrimEnd` keeps a prefix of `s`, drops only white space, and stops at a character that
      is not white space. */
  lemma {:induction false} TrimEndShape(s: string)
    ensures var r := TrimEnd(s);
      r == s[..|r|] &&
      (forall i :: |r| <= i < |s| ==> IsWhitespace(s[i])) &&
      (r != [] ==> !IsWhitespace(r[|r| - 1]))
    decreases |s|
  {
    if s != [] && IsWhitespace(s[|s| - 1]) {
      TrimEndShape(s[..|s| - 1]);
    }
  }

  /** Every character of `s` is white space (the empty text included). */
  predicate AllWhitespace(s: string) {
    forall i :: 0 <= i < |s| ==> IsWhitespace(s[i])
  }

  /** `trim` leaves no white space at either end, and gives "" exactly for a blank text. */
  lemma TrimShape(s: string)
    ensures Trimmed(Trim(s))
    ensures Trim(s) == [] <==> AllWhitespace(s)
  {
    var t := TrimStart(s);
    TrimStartShape(s);
    TrimEndShape(t);
    var r := TrimEnd(t);
    assert r != [] ==> r[0] == t[0];
  }

  /** `Collapse` keeps emptiness and the first and last characters, up to white space
      becoming a plain space. */
  lemma {:induction false} CollapseEnds(s: string)
    ensures var r := Collapse(s);
      (r == [] <==> s == []) &&
      (s != [] ==> r[0] == (if IsWhitespace(s[0]) then ' ' else s[0])) &&
      (s != [] && !IsWhitespace(s[|s| - 1]) ==> r[|r| - 1] == s[|s| - 1])
    decreases |s|
  {
    if s != [] {
      CollapseEnds(s[1..]);
      if |s| > 1 {
        assert s[1..][|s| - 2] == s[|s| - 1];
      }
    }
  }

  /** Every white-space character `Collapse` leaves is a plain space. */
  lemma {:induction false} CollapseSpacesOnly(s: string)
    ensures SpacesOnly(Collapse(s))
    decreases |s|
  {
    if s != [] {
      CollapseSpacesOnly(s[1..]);
      var t := Collapse(s[1..]);
      if !(IsWhitespace(s[0]) && |s| > 1 && IsWhitespace(s[1])) {
        var r := [if IsWhitespace(s[0]) then ' ' else s[0]] + t;
        assert forall i :: 1 <= i < |r| ==> r[i] == t[i - 1];
      }
    }
  }

  /** `Collapse` leaves no two adjacent white-space characters. */
  lemma {:induction false} CollapseNoDoubleSpace(s: string)
    ensures NoDoubleSpace(Collapse(s))
    decreases |s|
  {
    if s != [] {
      CollapseNoDoubleSpace(s[1..]);
      CollapseEnds(s[1..]);
      var t := Collapse(s[1..]);
      if !(IsWhitespace(s[0]) && |s| > 1 && IsWhitespace(s[1])) {
        var r := [if IsWhitespace(s[0]) then ' ' else s[0]] + t;
        assert forall i :: 1 <= i < |r| ==> r[i] == t[i - 1];
      }
    }
  }

  /** `Collapse` keeps emptiness and the white-space status of the first and last
      characters, and leaves only single plain spaces. */
  lemma CollapseShape(s: string)
    ensures var r := Collapse(s);
      (r == [] <==> s == []) &&
      (s != [] ==> r[0] == (if IsWhitespace(s[0]) then ' ' else s[0])) &&
      (s != [] && !IsWhitespace(s[|s| - 1]) ==> r[|r| - 1] == s[|s| - 1]) &&
      SpacesOnly(r) && NoDoubleSpace(r)
  {
    CollapseEnds(s);
    CollapseSpacesOnly(s);
    CollapseNoDoubleSpace(s);
  }

  /** Collapsing a trimmed text gives a normalized text. */
  lemma CollapseTrimmed(t: string)
    requires Trimmed(t)
    ensures IsNormalized(Collapse(t))
  {
    CollapseShape(t);
  }

  /** A text whose only white space is the plain space has no NBSP. */
  lemma SpacesOnlyNoNbsp(r: string)
    requires SpacesOnly(r)
    ensures NBSP !in r
  {
    assert IsWhitespace(NBSP);
    assert forall i :: 0 <= i < |r| ==> r[i] != NBSP;
  }

  /** Rewriting NBSP keeps a text blank or not blank. */
  lemma ReplaceNbspBlank(text: string)
    ensures AllWhitespace(ReplaceNbsp(text)) <==> AllWhitespace(text)
  {
    var p := ReplaceNbsp(text);
    assert forall i :: 0 <= i < |text| ==> (IsWhitespace(text[i]) <==> IsWhitespace(p[i]));
  }

  /** `normalize` returns a normalized text free of NBSP, and "" exactly for a blank text. */
  lemma NormalizeShape(text: string)
    ensures IsNormalized(Normalize(text))
    ensures NBSP !in Normalize(text)
    ensures Normalize(text) == [] <==> AllWhitespace(text)
  {
    if text != "" {
      var p := ReplaceNbsp(text);
      ReplaceNbspBlank(text);
      TrimShape(p);
      CollapseTrimmed(Trim(p));
      CollapseEnds(Trim(p));
      SpacesOnlyNoNbsp(Normalize(text));
    }
  }

  /** The upper case of one character: `toUpperCase` restricted to ASCII letters. */
  function UpperChar(c: char): char {
    if 'a' <= c <= 'z' then (c as int - 32) as char else c
  }

  /** `toUpperCase` of a whole string, one character at a time. */
  function Upper(s: string): string {
    seq(|s|, i requires 0 <= i < |s| => UpperChar(s[i]))
  }

  lemma UpperCharShape(c: char)
    ensures IsWhitespace(UpperChar(c)) <==> IsWhitespace(c)
    ensures IsWhitespace(c) ==> UpperChar(c) == c
    ensures UpperChar(UpperChar(c)) == UpperChar(c)
  {
  }

  lemma UpperPreservesShape(n: string)
    requires IsNormalized(n)
    ensures IsNormalized(Upper(n)) && Upper(Upper(n)) == Upper(n)
  {
    var r := Upper(n);
    forall i | 0 <= i < |n|
      ensures IsWhitespace(r[i]) <==> IsWhitespace(n[i])
      ensures IsWhitespace(n[i]) ==> r[i] == n[i]
      ensures UpperChar(r[i]) == r[i]
    {
      UpperCharShape(n[i]);
    }
  }

  /** `toUpper(text)`, the comparable form of a header cell or match-day label. */
  function ToUpper(text: string): string {
    Upper(Normalize(text))
  }

  /** `toUpper` returns a normalized text that upper-casing leaves as it is, as long as the
      normalized argument. */
  lemma ToUpperShape(text: string)
    ensures IsNormalized(ToUpper(text)) && Upper(ToUpper(text)) == ToUpper(text)
    ensures |ToUpper(text)| == |Normalize(text)|
  {
    NormalizeShape(text);
    UpperPreservesShape(Normalize(text));
  }

  /** `p` is a prefix of `s`. */
  predicate IsPrefix(p: string, s: string) {
    |p| <= |s| && s[..|p|] == p
  }

  /** `s.slice(0, n)` for `n >= 0`: clamped to the length of `s`. */
  function Head(s: string, n: nat): (r: string)
    ensures IsPrefix(r, s)
    ensures |r| == if n <= |s| then n else |s|
  {
    if n <= |s| then s[..n] else s
  }

  /** `h.includes(x)`: `x` occurs as a contiguous piece of `h`. */
  predicate Contains(h: string, x: string) {
    exists k :: 0 <= k <= |h| && IsPrefix(x, h[k..])
  }

  // ---------------------------------------------------------------------------------------
  // Properties of Normalize and ToUpper

  lemma {:induction false} CollapseFixpoint(s: string)
    requires SpacesOnly(s) && NoDoubleSpace(s)
    ensures Collapse(s) == s
    decreases |s|
  {
    if s != [] {
      CollapseFixpoint(s[1..]);
    }
  }

  /** A normalized string is left as it is. */
  lemma NormalizedFixpoint(s: string)
    requires IsNormalized(s)
    ensures Normalize(s) == s
  {
    if s != "" {
      assert ReplaceNbsp(s) == s by {
        forall i | 0 <= i < |s| ensures s[i] != NBSP {
          assert IsWhitespace(NBSP);
        }
      }
      assert TrimStart(s) == s;
      assert TrimEnd(s) == s;
      CollapseFixpoint(s);
    }
  }

  /** `normalize` is idempotent. */
  lemma NormalizeIdempotent(s: string)
    ensures Normalize(Normalize(s)) == Normalize(s)
  {
    NormalizeShape(s);
    NormalizedFixpoint(Normalize(s));
  }

  /** `toUpper` is idempotent. */
  lemma ToUpperIdempotent(s: string)
    ensures ToUpper(ToUpper(s)) == ToUpper(s)
  {
    ToUpperShape(s);
    NormalizedFixpoint(ToUpper(s));
  }

  lemma {:induction false} TrimStartVariants(a: string, b: string)
    requires WhitespaceVariants(a, b)
    ensures WhitespaceVariants(TrimStart(a), TrimStart(b))
    decreases |a|
  {
    if a != [] && IsWhitespace(a[0]) {
      assert IsWhitespace(b[0]);
      TrimStartVariants(a[1..], b[1..]);
    } else if a != [] {
      assert !IsWhitespace(b[0]);
    }
  }

  lemma {:induction false} TrimEndVariants(a: string, b: string)
    requires WhitespaceVariants(a, b)
    ensures WhitespaceVariants(TrimEnd(a), TrimEnd(b))
    decreases |a|
  {
    if a != [] && IsWhitespace(a[|a| - 1]) {
      assert IsWhitespace(b[|b| - 1]);
      TrimEndVariants(a[..|a| - 1], b[..|b| - 1]);
    } else if a != [] {
      assert !IsWhitespace(b[|b| - 1]);
    }
  }

  lemma {:induction false} CollapseVariants(a: string, b: string)
    requires WhitespaceVariants(a, b)
    ensures Collapse(a) == Collapse(b)
    decreases |a|
  {
    if a != [] {
      CollapseVariants(a[1..], b[1..]);
    }
  }

  /** Texts that differ only in which white-space characters they use (NBSP against space,
      tab against space) normalize identically. */
  lemma NormalizeWhitespaceVariants(a: string, b: string)
    requires WhitespaceVariants(a, b)
    ensures Normalize(a) == Normalize(b)
  {
    if a != "" {
      var pa, pb := ReplaceNbsp(a), ReplaceNbsp(b);
      assert WhitespaceVariants(pa, pb);
      TrimStartVariants(pa, pb);
      TrimEndVariants(TrimStart(pa), TrimStart(pb));
      CollapseVariants(Trim(pa), Trim(pb));
    }
  }

  // ---------------------------------------------------------------------------------------
  // The words of a text: what `normalize` keeps, described without trimming or collapsing

  /** The length of the leading run of characters of `s` that are not white space. */
  function WordLength(s: string): (n: nat)
    ensures n <= |s|
    ensures forall i :: 0 <= i < n ==> !IsWhitespace(s[i])
    ensures n < |s| ==> IsWhitespace(s[n])
    decreases |s|
  {
    if s == [] || IsWhitespace(s[0]) then 0 else 1 + WordLength(s[1..])
  }

  /** The words of `s`: its maximal runs of characters that are not white space, in order. */
  function Words(s: string): seq<string>
    decreases |s|
  {
    if s == [] then []
    else if IsWhitespace(s[0]) then Words(s[1..])
    else
      var n := WordLength(s);
      assert n > 0;
      [s[..n]] + Words(s[n..])
  }

  /** The words joined with one plain space between neighbours. */
  function JoinSpaced(ws: seq<string>): string {
    if ws == [] then "" else if |ws| == 1 then ws[0] else ws[0] + " " + JoinSpaced(ws[1..])
  }

  /** Every word is non-empty and free of white space. */
  lemma {:induction false} WordsAreWords(s: string)
    ensures forall k :: 0 <= k < |Words(s)| ==>
      Words(s)[k] != [] && forall i :: 0 <= i < |Words(s)[k]| ==> !IsWhitespace(Words(s)[k][i])
    decreases |s|
  {
    if s != [] {
      if IsWhitespace(s[0]) {
        WordsAreWords(s[1..]);
      } else {
        var n := WordLength(s);
        WordsAreWords(s[n..]);
        var ws := Words(s[n..]);
        assert Words(s) == [s[..n]] + ws;
        assert forall k :: 1 <= k < |Words(s)| ==> Words(s)[k] == ws[k - 1];
      }
    }
  }

  /** A word followed by anything collapses to the word followed by the collapsed rest. */
  lemma {:induction false} CollapseWord(a: string, b: string)
    requires forall i :: 0 <= i < |a| ==> !IsWhitespace(a[i])
    ensures Collapse(a + b) == a + Collapse(b)
    decreases |a|
  {
    if a == [] {
      assert a + b == b;
    } else {
      assert (a + b)[0] == a[0];
      assert (a + b)[1..] == a[1..] + b;
      CollapseWord(a[1..], b);
      assert a == [a[0]] + a[1..];
    }
  }

  /** A run of white space before a text that starts with a word collapses to one space. */
  lemma {:induction false} CollapseGap(w: string, b: string)
    requires w != [] && AllWhitespace(w)
    requires b != [] && !IsWhitespace(b[0])
    ensures Collapse(w + b) == " " + Collapse(b)
    decreases |w|
  {
    assert (w + b)[0] == w[0];
    if |w| == 1 {
      assert (w + b)[1] == b[0];
      assert (w + b)[1..] == b;
    } else {
      assert (w + b)[1] == w[1];
      assert (w + b)[1..] == w[1..] + b;
      CollapseGap(w[1..], b);
    }
  }

  /** Leading white space carries no word. */
  lemma {:induction false} WordsSkip(w: string, b: string)
    requires AllWhitespace(w)
    ensures Words(w + b) == Words(b)
    decreases |w|
  {
    if w == [] {
      assert w + b == b;
    } else {
      assert (w + b)[0] == w[0];
      assert (w + b)[1..] == w[1..] + b;
      WordsSkip(w[1..], b);
    }
  }

  /** Trailing white space does not change the length of the first word. */
  lemma {:induction false} WordLengthAppend(a: string, w: string)
    requires AllWhitespace(w)
    ensures WordLength(a + w) == WordLength(a)
    decreases |a|
  {
    if a == [] {
      assert a + w == w;
    } else {
      assert (a + w)[0] == a[0];
      if !IsWhitespace(a[0]) {
        assert (a + w)[1..] == a[1..] + w;
        WordLengthAppend(a[1..], w);
      }
    }
  }

  /** Trailing white space carries no word. */
  lemma {:induction false} WordsAppendSpace(a: string, w: string)
    requires AllWhitespace(w)
    ensures Words(a + w) == Words(a)
    decreases |a|
  {
    if a == [] {
      assert a + w == w + [];
      WordsSkip(w, []);
    } else if IsWhitespace(a[0]) {
      assert (a + w)[0] == a[0];
      assert (a + w)[1..] == a[1..] + w;
      WordsAppendSpace(a[1..], w);
    } else {
      assert (a + w)[0] == a[0];
      var n := WordLength(a);
      WordLengthAppend(a, w);
      assert (a + w)[..n] == a[..n];
      assert (a + w)[n..] == a[n..] + w;
      WordsAppendSpace(a[n..], w);
    }
  }

  /** Texts that differ only in which white-space characters they use have the same first
      word length. */
  lemma {:induction false} WordLengthVariants(a: string, b: string)
    requires WhitespaceVariants(a, b)
    ensures WordLength(a) == WordLength(b)
    decreases |a|
  {
    if a != [] && !IsWhitespace(a[0]) {
      WordLengthVariants(a[1..], b[1..]);
    }
  }

  /** Texts that differ only in which white-space characters they use have the same words. */
  lemma {:induction false} WordsVariants(a: string, b: string)
    requires WhitespaceVariants(a, b)
    ensures Words(a) == Words(b)
    decreases |a|
  {
    if a != [] {
      if IsWhitespace(a[0]) {
        WordsVariants(a[1..], b[1..]);
      } else {
        var n := WordLength(a);
        WordLengthVariants(a, b);
        assert a[..n] == b[..n];
        WordsVariants(a[n..], b[n..]);
      }
    }
  }

  /** Trimming the start drops no word. */
  lemma {:induction false} WordsOfTrimStart(p: string)
    ensures Words(TrimStart(p)) == Words(p)
    decreases |p|
  {
    if p != [] && IsWhitespace(p[0]) {
      WordsOfTrimStart(p[1..]);
    }
  }

  /** Trimming the end drops no word. */
  lemma {:induction false} WordsOfTrimEnd(p: string)
    ensures Words(TrimEnd(p)) == Words(p)
    decreases |p|
  {
    if p != [] && IsWhitespace(p[|p| - 1]) {
      var q := p[..|p| - 1];
      WordsOfTrimEnd(q);
      assert p == q + [p[|p| - 1]];
      WordsAppendSpace(q, [p[|p| - 1]]);
    }
  }

  /** `trim` drops no word. */
  lemma WordsOfTrim(p: string)
    ensures Words(Trim(p)) == Words(p)
  {
    WordsOfTrimStart(p);
    WordsOfTrimEnd(TrimStart(p));
  }

  /** A text that starts with white space and ends with a word: the leading run carries no
      word, and what follows it is a shorter text that starts with a word and ends where the
      text ends. */
  lemma {:induction false} GapTrim(r: string)
    requires r != [] && IsWhitespace(r[0]) && !IsWhitespace(r[|r| - 1])
    ensures var t := TrimStart(r);
      Words(r) == Words(t) && t != [] && !IsWhitespace(t[0]) && t[|t| - 1] == r[|r| - 1] && |t| < |r|
    decreases |r|
  {
    var q := r[1..];
    assert q[|q| - 1] == r[|r| - 1];
    assert TrimStart(r) == TrimStart(q) && Words(r) == Words(q);
    if IsWhitespace(q[0]) {
      GapTrim(q);
    } else {
      assert TrimStart(q) == q;
    }
  }

  /** A text that starts with white space and ends with a word: collapsing turns the leading
      run into one space before the collapsed rest. */
  lemma {:induction false} GapCollapse(r: string)
    requires r != [] && IsWhitespace(r[0]) && !IsWhitespace(r[|r| - 1])
    ensures Collapse(r) == " " + Collapse(TrimStart(r))
    decreases |r|
  {
    var q := r[1..];
    assert q[|q| - 1] == r[|r| - 1];
    assert TrimStart(r) == TrimStart(q);
    if IsWhitespace(q[0]) {
      assert Collapse(r) == Collapse(q);
      GapCollapse(q);
    } else {
      assert Collapse(r) == [' '] + Collapse(q);
      assert TrimStart(q) == q;
    }
  }

  /** Joining a word in front of at least one more word puts one space after it. */
  lemma JoinSpacedCons(w: string, ws: seq<string>)
    requires ws != []
    ensures JoinSpaced([w] + ws) == w + (" " + JoinSpaced(ws))
  {
    var v := [w] + ws;
    assert v[0] == w && v[1..] == ws && |v| > 1;
    assert w + " " + JoinSpaced(ws) == w + (" " + JoinSpaced(ws));
  }

  /** A text that starts with a word has that word first. */
  lemma WordsCons(s: string)
    requires s != [] && !IsWhitespace(s[0])
    ensures Words(s) == [s[..WordLength(s)]] + Words(s[WordLength(s)..])
    ensures Words(s) != []
  {
  }

  /** On a trimmed text `Collapse` joins the words with single spaces. */
  lemma {:induction false} CollapseTrimmedWords(s: string)
    requires Trimmed(s)
    ensures Collapse(s) == JoinSpaced(Words(s))
    decreases |s|
  {
    if s != [] {
      var n := WordLength(s);
      var w, rest := s[..n], s[n..];
      assert s == w + rest;
      WordsCons(s);
      CollapseWord(w, rest);
      if rest == [] {
        assert w + rest == w;
        assert Collapse(s) == w;
        assert Words(s) == [w];
      } else {
        assert rest[|rest| - 1] == s[|s| - 1];
        GapTrim(rest);
        GapCollapse(rest);
        var t := TrimStart(rest);
        CollapseTrimmedWords(t);
        WordsCons(t);
        JoinSpacedCons(w, Words(t));
        assert Collapse(s) == w + (" " + JoinSpaced(Words(t)));
        assert Words(s) == [w] + Words(t);
      }
    }
  }

  /** `normalize` joins the words of its argument with single plain spaces: it keeps every
      character that is not white space, in order, and puts exactly one space between words. */
  lemma NormalizeWords(text: string)
    ensures Normalize(text) == JoinSpaced(Words(text))
  {
    if text != "" {
      var p := ReplaceNbsp(text);
      WordsVariants(text, p);
      WordsOfTrim(p);
      TrimShape(p);
      CollapseTrimmedWords(Trim(p));
    }
  }
}
