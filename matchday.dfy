/** `parseMatchDayNumber` (content.js:178-183): the leftmost match of
    `(?:MATCH\s*DAY|MD)\s*(\d{1,2})` in the comparable form of a match-day label, read with
    `parseInt`. The regular expression is written out as position functions. */
module MatchDay {
  import opened Wrappers
  import opened Text
  import opened Numbers

  /** Where the white-space run `\s*` starting at `p` ends. */
  function WsEnd(s: string, p: nat): (q: nat)
    requires p <= |s|
    ensures p <= q <= |s|
    ensures forall i :: p <= i < q ==> IsWhitespace(s[i])
    ensures q < |s| ==> !IsWhitespace(s[q])
    decreases |s| - p
  {
    if p < |s| && IsWhitespace(s[p]) then WsEnd(s, p + 1) else p
  }

  /** The literal `lit` stands in `s` at position `p`. */
  predicate LiteralAt(s: string, p: nat, lit: string) {
    p + |lit| <= |s| && s[p..p + |lit|] == lit
  }

  /** Where the part `(?:MATCH\s*DAY|MD)\s*` of a match starting at `p` ends, or `None` when
      neither alternative matches there. The greedy `\s*` never has to give characters back,
      because what follows each of them ("D" or a digit) is not white space, and the two
      alternatives cannot both start at one position. */
  function LabelEnd(s: string, p: nat): (r: Option<nat>)
    requires p <= |s|
    ensures r.Some? ==> p < r.value <= |s|
  {
    var afterMatch := if p + 5 <= |s| then WsEnd(s, p + 5) else p;
    if LiteralAt(s, p, "MATCH") && LiteralAt(s, afterMatch, "DAY") then Some(WsEnd(s, afterMatch + 3))
    else if LiteralAt(s, p, "MD") then Some(WsEnd(s, p + 2))
    else None
  }

  /** The text of the group `(\d{1,2})` of a match starting at `p`: two digits when two
      follow the label, else one; `None` when there is no match at `p`. */
  function GroupAt(s: string, p: nat): Option<string>
    requires p <= |s|
  {
    match LabelEnd(s, p)
    case None => None
    case Some(q) =>
      if q < |s| && IsDigit(s[q]) then
        if q + 1 < |s| && IsDigit(s[q + 1]) then Some(s[q..q + 2]) else Some(s[q..q + 1])
      else None
  }

  /** The leftmost position at or after `p` where a match starts. */
  function FirstMatch(s: string, p: nat): (r: Option<nat>)
    requires p <= |s|
    ensures r.Some? ==> p <= r.value <= |s| && GroupAt(s, r.value).Some?
    ensures r.Some? ==> forall j :: p <= j < r.value ==> GroupAt(s, j).None?
    ensures r.None? ==> forall j :: p <= j <= |s| ==> GroupAt(s, j).None?
    decreases |s| - p
  {
    if GroupAt(s, p).Some? then Some(p)
    else if p == |s| then None
    else FirstMatch(s, p + 1)
  }

  /** `s.match(re)` read by `parseInt`: `None` when no position starts a match, otherwise
      the reading of the digit group of the leftmost match. */
  function MatchNumber(s: string): Option<int> {
    match FirstMatch(s, 0)
    case None => None
    case Some(p) => ParseInt(GroupAt(s, p).value)
  }

  /** `parseMatchDayNumber(mdText)`: the match is looked for in the comparable form of the
      label; `parseInt` of a digit group is always a finite number. */
  function ParseMatchDayNumber(text: string): Option<int> {
    MatchNumber(ToUpper(text))
  }

  // ---------------------------------------------------------------------------------------
  // Properties

  /** A match starts at `p` and at no earlier position. */
  predicate Leftmost(s: string, p: nat) {
    p <= |s| && GroupAt(s, p).Some? && forall j :: 0 <= j < p ==> GroupAt(s, j).None?
  }

  /** At most one position is the leftmost start of a match. */
  lemma LeftmostUnique(s: string, p: nat, q: nat)
    requires Leftmost(s, p) && Leftmost(s, q)
    ensures p == q
  {
  }

  /** The digit group of a match is one or two digits. */
  lemma GroupDigits(s: string, p: nat)
    requires p <= |s| && GroupAt(s, p).Some?
    ensures var g := GroupAt(s, p).value; 1 <= |g| <= 2 && AllDigits(g)
  {
  }

  /** One or two digits are worth at most 99. */
  lemma SmallDigitsValue(g: string)
    requires 1 <= |g| <= 2 && AllDigits(g)
    ensures DigitsValue(g) <= 99
  {
    if |g| == 2 {
      assert AllDigits(g[..1]);
      assert DigitsValue(g[..1]) <= 9;
    }
  }

  /** The value of the digit group of a match starting at `p`. */
  function GroupValue(s: string, p: nat): (v: nat)
    requires p <= |s| && GroupAt(s, p).Some?
    ensures v <= 99
  {
    var g := GroupAt(s, p).value;
    GroupDigits(s, p);
    SmallDigitsValue(g);
    DigitsValue(g)
  }

  /** `parseInt` reads a whole string of digits as its value. */
  lemma AllDigitsRead(g: string)
    requires g != [] && AllDigits(g)
    ensures ParseInt(g) == Some(DigitsValue(g) as int)
  {
    assert g + "" == g;
    ParseIntOfDigits(g, "");
  }

  /** Without a match the result is null; with one it is the value, between 0 and 99, of the
      one or two digits of the leftmost match. */
  lemma MatchNumberSpec(s: string)
    ensures MatchNumber(s).None? <==> forall j :: 0 <= j <= |s| ==> GroupAt(s, j).None?
    ensures forall p :: Leftmost(s, p) ==> MatchNumber(s) == Some(GroupValue(s, p) as int)
  {
    match FirstMatch(s, 0)
    case None =>
    case Some(p) =>
      var g := GroupAt(s, p).value;
      GroupDigits(s, p);
      SmallDigitsValue(g);
      AllDigitsRead(g);
      forall q: nat | Leftmost(s, q) ensures q == p {
        LeftmostUnique(s, p, q);
      }
  }

  /** `parseMatchDayNumber` returns null exactly when no position of the comparable text
      starts a match; otherwise it returns the value, between 0 and 99, of the one or two
      digits of the leftmost match. */
  lemma ParseMatchDayNumberSpec(text: string)
    ensures var s := ToUpper(text);
      ParseMatchDayNumber(text).None? <==> forall j :: 0 <= j <= |s| ==> GroupAt(s, j).None?
    ensures var s := ToUpper(text);
      forall p :: Leftmost(s, p) ==>
        ParseMatchDayNumber(text) == Some(GroupValue(s, p) as int) && 0 <= GroupValue(s, p) <= 99
  {
    MatchNumberSpec(ToUpper(text));
  }

  /** "MATCH DAY 12" is match day 12. */
  lemma MatchDayExample()
    ensures MatchNumber("MATCH DAY 12") == Some(12)
  {
    var s := "MATCH DAY 12";
    assert s[0..5] == "MATCH";
    assert WsEnd(s, 5) == 6;
    assert s[6..9] == "DAY";
    assert WsEnd(s, 9) == 10;
    assert LabelEnd(s, 0) == Some(10);
    assert s[10..12] == "12";
    assert GroupAt(s, 0) == Some("12");
    assert Leftmost(s, 0);
    MatchNumberSpec(s);
    assert DigitsValue("12") == 12 by {
      assert "12"[..1] == "1";
    }
  }

  /** "MD 123": the group takes at most two digits. */
  lemma TwoDigitsExample()
    ensures MatchNumber("MD 123") == Some(12)
  {
    var s := "MD 123";
    assert !LiteralAt(s, 0, "MATCH") by {
      assert s[1] != "MATCH"[1];
    }
    assert s[0..2] == "MD";
    assert WsEnd(s, 2) == 3;
    assert LabelEnd(s, 0) == Some(3);
    assert s[3..5] == "12";
    assert GroupAt(s, 0) == Some("12");
    assert Leftmost(s, 0);
    MatchNumberSpec(s);
    assert DigitsValue("12") == 12 by {
      assert "12"[..1] == "1";
    }
  }
}
