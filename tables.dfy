/** The document abstraction and the two table locators of content.js:
    `findCurrentSeasonTable` (content.js:24-39) and `findResultsTable` (content.js:68-83),
    written as one search parameterised by candidate selector, required tokens and
    comparison mode. */
module Tables {
  import opened Wrappers
  import opened Text

  /** One `<table>` of a document: whether it carries the class `std` (and so matches
      `table.std`), the cell texts (`td` and `th`) of its first `thead tr` row, or `None` when
      it has none, and the `td` texts of each `tbody tr` row. */
  datatype Table = Table(std: bool, header: Option<seq<string>>, body: seq<seq<string>>)

  /** How a required token is looked for among the comparable header texts. */
  datatype Mode =
    | Exact      // `headers.includes(tok)`: some whole header equals the token
    | Substring  // `headers.some(x => x.includes(tok))`: some header contains it

  /** The headers `findCurrentSeasonTable` requires as whole cells. */
  const SeasonTokens: seq<string> := ["W", "L", "T", "PTS", "TMP", "TCA", "PCAA", "RANK"]

  /** The headers `findResultsTable` requires as pieces of cells. */
  const ResultsTokens: seq<string> := ["MATCH DAY", "OPPONENT", "RESULT", "RECORD", "RANK"]

  /** The comparable form (`toUpper`) of each header cell. */
  function Comparable(cells: seq<string>): (r: seq<string>)
    ensures |r| == |cells|
  {
    if cells == [] then [] else [ToUpper(cells[0])] + Comparable(cells[1..])
  }

  /** Cell `j` of the comparable form is `toUpper` of header cell `j`. */
  lemma {:induction false} ComparableAt(cells: seq<string>, j: nat)
    requires j < |cells|
    ensures Comparable(cells)[j] == ToUpper(cells[j])
    decreases |cells|
  {
    if j > 0 {
      ComparableAt(cells[1..], j - 1);
    }
  }

  predicate HasToken(mode: Mode, headers: seq<string>, tok: string) {
    match mode
    case Exact => tok in headers
    case Substring => exists j :: 0 <= j < |headers| && Contains(headers[j], tok)
  }

  /** Every token is found among the comparable header texts. */
  predicate AllTokens(mode: Mode, headers: seq<string>, tokens: seq<string>) {
    forall k :: 0 <= k < |tokens| ==> HasToken(mode, headers, tokens[k])
  }

  /** A table qualifies when it has a header row and every token is found in it. */
  predicate Qualifies(t: Table, mode: Mode, tokens: seq<string>) {
    t.header.Some? && AllTokens(mode, Comparable(t.header.value), tokens)
  }

  /** The candidates of the CSS selector: `table.std` when `stdOnly`, every table otherwise. */
  predicate Candidate(t: Table, stdOnly: bool) {
    !stdOnly || t.std
  }

  /** The token test the locators run on one header row. */
  method AllTokensFound(mode: Mode, headers: seq<string>, tokens: seq<string>) returns (ok: bool)
    ensures ok <==> AllTokens(mode, headers, tokens)
  {
    var k := 0;
    while k < |tokens|
      invariant 0 <= k <= |tokens|
      invariant forall k' :: 0 <= k' < k ==> HasToken(mode, headers, tokens[k'])
    {
      if !HasToken(mode, headers, tokens[k]) {
        return false;
      }
      k := k + 1;
    }
    return true;
  }

  /** The test the locators apply to one table of the candidate list. */
  method TableQualifies(t: Table, stdOnly: bool, mode: Mode, tokens: seq<string>) returns (ok: bool)
    ensures ok <==> Candidate(t, stdOnly) && Qualifies(t, mode, tokens)
  {
    if !Candidate(t, stdOnly) || t.header.None? {
      return false;
    }
    ok := AllTokensFound(mode, Comparable(t.header.value), tokens);
  }

  /** Scans the candidate tables in document order, skipping those without a header row,
      and returns the position of the first that qualifies. */
  method Locate(doc: seq<Table>, stdOnly: bool, mode: Mode, tokens: seq<string>) returns (r: Option<nat>)
    ensures r.Some? ==> r.value < |doc| && Candidate(doc[r.value], stdOnly) && Qualifies(doc[r.value], mode, tokens)
    ensures r.Some? ==> forall j :: 0 <= j < r.value && Candidate(doc[j], stdOnly) ==> !Qualifies(doc[j], mode, tokens)
    ensures r.None? ==> forall j :: 0 <= j < |doc| && Candidate(doc[j], stdOnly) ==> !Qualifies(doc[j], mode, tokens)
  {
    var i := 0;
    while i < |doc|
      invariant 0 <= i <= |doc|
      invariant forall j :: 0 <= j < i && Candidate(doc[j], stdOnly) ==> !Qualifies(doc[j], mode, tokens)
    {
      var ok := TableQualifies(doc[i], stdOnly, mode, tokens);
      if ok {
        return Some(i);
      }
      i := i + 1;
    }
    return None;
  }

  /** `findCurrentSeasonTable`: the first `table.std` whose header row has W, L, T, PTS, TMP,
      TCA, PCAA and RANK each as a whole comparable cell. */
  method FindCurrentSeasonTable(doc: seq<Table>) returns (r: Option<nat>)
    ensures r.Some? ==> r.value < |doc| && doc[r.value].std && doc[r.value].header.Some?
    ensures r.Some? ==> forall k :: 0 <= k < |SeasonTokens| ==> SeasonTokens[k] in Comparable(doc[r.value].header.value)
    ensures r.Some? ==> forall j :: 0 <= j < r.value && doc[j].std ==> !Qualifies(doc[j], Exact, SeasonTokens)
    ensures r.None? ==> forall j :: 0 <= j < |doc| && doc[j].std ==> !Qualifies(doc[j], Exact, SeasonTokens)
  {
    r := Locate(doc, true, Exact, SeasonTokens);
  }

  /** `findResultsTable`: the first table of the document whose header row contains
      MATCH DAY, OPPONENT, RESULT, RECORD and RANK, each inside some comparable cell
      (`SubstringModeIff` states the same test on the raw header cells). */
  method FindResultsTable(doc: seq<Table>) returns (r: Option<nat>)
    ensures r.Some? ==> r.value < |doc| && Qualifies(doc[r.value], Substring, ResultsTokens)
    ensures r.Some? ==> forall j :: 0 <= j < r.value ==> !Qualifies(doc[j], Substring, ResultsTokens)
    ensures r.None? ==> forall j :: 0 <= j < |doc| ==> !Qualifies(doc[j], Substring, ResultsTokens)
  {
    r := Locate(doc, false, Substring, ResultsTokens);
  }

  // ---------------------------------------------------------------------------------------
  // Properties of the two modes

  /** A token is found by the substring mode exactly when it is a piece of `toUpper` of
      some header cell. */
  lemma SubstringTokenIff(h: seq<string>, tok: string)
    ensures HasToken(Substring, Comparable(h), tok) <==> exists j :: 0 <= j < |h| && Contains(ToUpper(h[j]), tok)
  {
    if HasToken(Substring, Comparable(h), tok) {
      var j :| 0 <= j < |Comparable(h)| && Contains(Comparable(h)[j], tok);
      ComparableAt(h, j);
    }
    if exists j :: 0 <= j < |h| && Contains(ToUpper(h[j]), tok) {
      var j :| 0 <= j < |h| && Contains(ToUpper(h[j]), tok);
      ComparableAt(h, j);
    }
  }

  /** The substring mode, stated on the raw header cells: every token is a piece of `toUpper`
      of some header cell. */
  lemma SubstringModeIff(h: seq<string>, tokens: seq<string>)
    ensures AllTokens(Substring, Comparable(h), tokens) <==>
      forall k :: 0 <= k < |tokens| ==> exists j :: 0 <= j < |h| && Contains(ToUpper(h[j]), tokens[k])
  {
    if AllTokens(Substring, Comparable(h), tokens) {
      forall k | 0 <= k < |tokens|
        ensures exists j :: 0 <= j < |h| && Contains(ToUpper(h[j]), tokens[k])
      {
        SubstringTokenIff(h, tokens[k]);
      }
    }
    if forall k :: 0 <= k < |tokens| ==> exists j :: 0 <= j < |h| && Contains(ToUpper(h[j]), tokens[k]) {
      forall k | 0 <= k < |tokens|
        ensures HasToken(Substring, Comparable(h), tokens[k])
      {
        SubstringTokenIff(h, tokens[k]);
      }
    }
  }

  /** A whole cell equal to a token contains that token. */
  lemma ExactTokensContained(headers: seq<string>, tokens: seq<string>)
    requires AllTokens(Exact, headers, tokens)
    ensures AllTokens(Substring, headers, tokens)
  {
    forall k | 0 <= k < |tokens|
      ensures HasToken(Substring, headers, tokens[k])
    {
      var j :| 0 <= j < |headers| && headers[j] == tokens[k];
      var h := headers[j];
      assert h[0..] == h && IsPrefix(tokens[k], h[0..]);
      assert Contains(h, tokens[k]);
    }
  }

  /** A token present as a whole cell is present as a piece of that cell: every table the
      exact mode accepts, the substring mode accepts too. */
  lemma ExactImpliesSubstring(t: Table, tokens: seq<string>)
    requires Qualifies(t, Exact, tokens)
    ensures Qualifies(t, Substring, tokens)
  {
    ExactTokensContained(Comparable(t.header.value), tokens);
  }

  /** The comparable header texts, and so the verdict of either mode, do not depend on which
      white-space characters the header cells use. */
  lemma QualifiesIgnoresWhitespace(t: Table, u: Table, mode: Mode, tokens: seq<string>)
    requires t.header.Some? && u.header.Some? && |t.header.value| == |u.header.value|
    requires forall j :: 0 <= j < |t.header.value| ==> WhitespaceVariants(t.header.value[j], u.header.value[j])
    ensures Qualifies(t, mode, tokens) <==> Qualifies(u, mode, tokens)
  {
    var a, b := t.header.value, u.header.value;
    forall j | 0 <= j < |a|
      ensures Comparable(a)[j] == Comparable(b)[j]
    {
      NormalizeWhitespaceVariants(a[j], b[j]);
      ComparableAt(a, j);
      ComparableAt(b, j);
    }
    assert Comparable(a) == Comparable(b);
  }

  /** A header cell "Match Day #" satisfies the MATCH DAY requirement of the results table. */
  lemma MatchDayHeaderExample()
    ensures HasToken(Substring, ["MATCH DAY #"], "MATCH DAY")
  {
    var h := "MATCH DAY #";
    assert h[0..] == h;
    assert h[..9] == "MATCH DAY";
    assert Contains(h, "MATCH DAY");
    assert ["MATCH DAY #"][0] == h;
  }
}
