# ll-results-schedule-fill, modelled in Dafny

This is a verified model of the reconciliation engine in `content.js`. The engine is the
content script of a browser extension for LearnedLeague profile pages. On a player's profile
page, the results table usually has blank RESULT, RECORD and RANK cells for matches still to
come. The script fetches the standings page of the player's rundle. It builds an index from
each display name in the standings table to that player's record, and it fills the blanks.

For every eligible row, the script looks up the opponent in the index. It then writes into
each blank cell:

- in the record and rank cells, the opponent's record and rank;
- in the result cell, `OEPAA⋅PEPAA`:
  - OEPAA is the opponent's expected points against per game;
  - PEPAA is the player's expected points against per game;
  - a tooltip lists the inputs;
  - the background is shaded red on the left half when OEPAA is the larger value, and green
    on the right half when PEPAA is.

The model has one module per part of the engine:

| module | file | what it models |
|---|---|---|
| `Text` | text.dfy | `normalize`, `toUpper` and the `clean`/`upper` closures: NBSP replaced by a space, `trim`, white-space runs collapsed, ASCII upper case |
| `Numbers` | numbers.dfy | `parseInt(s, 10)`, `parseFloat`, `${n}` / `String(n)` for integers, and `toFixed(3)`, all as exact functions on strings, `int` and `real` |
| `Gate` | gate.dfy | the page gate on `pathname` and `search` |
| `Tables` | tables.dfy | the document as a sequence of tables; `findCurrentSeasonTable` and `findResultsTable` as loops over it |
| `Standings` | standings.dfy | `parseStandings`: the header scan, the per-row parse, and the JavaScript `Map` (insertion order, last write wins) |
| `MatchDay` | matchday.dfy | `parseMatchDayNumber`: the leftmost match of `(?:MATCH\s*DAY\|MD)\s*(\d{1,2})` written out as position functions |
| `Matcher` | matcher.dfy | `sliceBeforeDot`, and the opponent lookup inside `fillResults`: an exact hit first, then a scan in insertion order |
| `Metrics` | metrics.dfy | games played, PEPA/OEPA, PEPAA/OEPAA, and the two shading flags |
| `Reconcile` | reconcile.dfy | `fillResults`: a method over an `array` of rows that rewrites eligible rows in place and counts them |

Both the results page and the fetched standings page are modelled as `seq<Table>`:
- each `Table` records whether it has the class `std`;
- it holds the cell texts of its first `thead tr` row, or `None` when there is none;
- it holds the cell texts of each `tbody tr` row.

The `fillResults` method works on rows of `Cell` values. A `Cell` has a text, an optional
tooltip and a background.

Three behaviours of the code differ from the obvious reading of it, and the model keeps them:
- **Missing RANK column.** The rank column falls back to column 0, not to the row's
  position (`MissingRankUsesColumnZero`, `RankFallback`). The row position is used only when
  that cell is missing or blank.
- **Second truncation test.** It is guarded only by a non-empty key prefix. An opponent
  name that starts with "." therefore matches the first key with a non-empty prefix
  (`LeadingDotMatches`).
- **Negative counts.** `parseInt` accepts a sign, so W, L and T can be negative. The model
  does not assume counts of zero or more.

## Model

| member | source | states |
|---|---|---|
| Text.IsWhitespace | content.js:17 | the characters that `\s` and `trim` treat as white space (the ECMAScript WhiteSpace and LineTerminator characters, NBSP among them); every white-space fact below is stated with it |
| Text.ReplaceNbsp | content.js:17 | every NBSP becomes a plain space and every other character is kept, so no NBSP is left |
| Text.TrimStart | content.js:17 | the leading-white-space half of `trim` never lengthens its argument |
| Text.TrimEnd | content.js:17 | the trailing-white-space half of `trim` never lengthens its argument |
| Text.Trim | content.js:17 | `trim` never lengthens its argument |
| Text.Collapse | content.js:17 | `.replace(/\s+/g, " ")` never lengthens its argument |
| Text.Normalize | content.js:15-18 | `normalize` never lengthens its argument |
| Text.TrimStartShape | content.js:17 | the result is a suffix of the argument, everything dropped is white space, and the result does not start with white space |
| Text.TrimEndShape | content.js:17 | the result is a prefix of the argument, everything dropped is white space, and the result does not end with white space |
| Text.TrimShape | content.js:17 | `trim` leaves no white space at either end, and returns "" exactly when the text is all white space |
| Text.CollapseEnds | content.js:17 | collapsing keeps emptiness, turns a white-space first character into " ", and keeps a last character that is not white space |
| Text.CollapseSpacesOnly | content.js:17 | every white-space character left by collapsing is a plain space |
| Text.CollapseNoDoubleSpace | content.js:17 | collapsing leaves no two adjacent white-space characters |
| Text.CollapseShape | content.js:17 | the three facts above together |
| Text.AllWhitespace | content.js:16-17 | a text made only of white space, the case in which `normalize` returns "" (`TrimShape`, `NormalizeShape`) |
| Text.NormalizeShape | content.js:15-18 | the output has no NBSP, no white space at either end, no white space except single plain spaces, and is "" exactly when the input is empty or all white space |
| Text.CollapseFixpoint | content.js:17 | text that already has only single plain spaces is left as it is by collapsing |
| Text.NormalizedFixpoint | content.js:15-18 | `normalize` leaves normalized text as it is |
| Text.NormalizeIdempotent | content.js:15-18 | `normalize(normalize(x)) == normalize(x)` |
| Text.TrimStartVariants | content.js:17 | texts that differ only in which white-space characters they use stay so after trimming the start |
| Text.TrimEndVariants | content.js:17 | the same after trimming the end |
| Text.CollapseVariants | content.js:17 | texts that differ only in which white-space characters they use collapse to the same text |
| Text.NormalizeWhitespaceVariants | content.js:15-18 | texts that differ only in which white-space characters they use (NBSP against a space, a tab against a space) normalize identically |
| Text.WordLength | content.js:17 | the length of the leading run of non-white-space characters: none of them is white space, and the character after it is |
| Text.Words | content.js:15-18 | the maximal runs of non-white-space characters of a text, in order: the reference that `NormalizeWords` compares `normalize` with |
| Text.JoinSpaced | content.js:17 | words joined with one plain space between neighbours, the output form of `.replace(/\s+/g, " ")` on trimmed text |
| Text.WordsAreWords | content.js:15-18 | every word is non-empty and holds no white space |
| Text.WordsVariants | content.js:17 | texts that differ only in which white-space characters they use have the same words, so replacing NBSP keeps them |
| Text.WordsOfTrim | content.js:17 | `trim` drops no word |
| Text.CollapseTrimmedWords | content.js:17 | on a text with no white space at either end, collapsing joins its words with single spaces |
| Text.NormalizeWords | content.js:15-18 | `normalize(x)` is the words of `x` joined with single plain spaces: every non-white-space character is kept, in order, and exactly one space separates neighbouring words |
| Text.UpperCharShape | content.js:19 | upper-casing a character keeps its white-space status, leaves white space alone and is idempotent |
| Text.UpperPreservesShape | content.js:19 | upper-casing keeps a normalized text normalized and is idempotent on it |
| Text.Upper | content.js:19 | `toUpperCase` on ASCII letters, one character at a time; `UpperCharShape` and `UpperPreservesShape` state what it keeps |
| Text.ToUpper | content.js:19 | `toUpper(text)` is `normalize` then `toUpperCase`; `ToUpperShape` and `ToUpperIdempotent` state its properties |
| Text.ToUpperShape | content.js:19 | `toUpper(x)` is normalized, exactly as long as `normalize(x)`, and unchanged by further upper-casing |
| Text.ToUpperIdempotent | content.js:19 | `toUpper(toUpper(x)) == toUpper(x)` |
| Text.Head | content.js:225-227 | `s.slice(0, n)` is a prefix of `s` of length `min(n, \|s\|)` |
| Numbers.Decimal | content.js:148 | the decimal text of a natural number is non-empty, all digits, with no leading zero except for 0 itself |
| Numbers.IntToString | content.js:167 | the text of an integer is non-empty and starts with '-' exactly when the integer is negative |
| Numbers.ParseInt | content.js:159-161 | `parseInt(s, 10)`: leading white space skipped, one sign, the longest digit run, NaN (`None`) when that run is empty; the `ParseIntOf…` lemmas state its readings |
| Numbers.DigitRun | content.js:159-161 | the length of the leading run of digits: digits up to it, and no digit at it |
| Numbers.DigitPrefix | content.js:159-161 | the longest all-digit prefix: it is a prefix, made of digits, and followed by no digit |
| Numbers.Pad3 | content.js:259 | three digits for a value below 1000 |
| Numbers.DecimalValue | content.js:148 | the decimal text of `n` has the value `n` |
| Numbers.DigitPrefixOfDigits | content.js:159-161 | the digit prefix of digits followed by a non-digit is those digits |
| Numbers.ParseIntOfDigits | content.js:181 | `parseInt` reads a run of digits as its value, whatever non-digit text follows |
| Numbers.ParseIntOfNegatedDigits | content.js:159-161 | `parseInt` reads "-" and a run of digits as the negated value, whatever non-digit text follows |
| Numbers.ParseIntOfIntToString | content.js:167 | `parseInt` reads back the integer `${i}` prints, whatever non-digit text follows |
| Numbers.UnsignedDecimalOfFixed | content.js:162-163 | the unsigned literal `d.f` reads as its exact value |
| Numbers.ParseFloatNegative | content.js:162-163 | a leading "-" negates what `parseFloat` reads |
| Numbers.ParseFloatNonNegative | content.js:162-163 | unsigned text starting with a digit is read as its unsigned literal |
| Numbers.ParseFloat | content.js:162-163 | `parseFloat` on finite decimal literals: leading white space skipped, one sign, the longest literal read exactly, NaN (`None`) when there is none; the lemmas beside it state its readings |
| Numbers.Pad3Value | content.js:259 | the three padded digits of `m` are worth `m` thousandths as a fraction |
| Numbers.RoundingBound | content.js:259 | rounding a magnitude to the nearest thousandth moves it by at most 0.0005 |
| Numbers.ThousandthsSplit | content.js:259 | the whole thousands and the remaining thousandths of `n` add up to `n / 1000` |
| Numbers.ThousandthsRead | content.js:259 | the unsigned text of `n` thousandths reads back as `n / 1000` |
| Numbers.Fixed3DigitsChars | content.js:259 | the unsigned text of a number of thousandths starts with a digit and holds only digits and a decimal point |
| Numbers.SignedRead | content.js:162-163 | a leading "-" before an unsigned literal that starts with a digit negates what `parseFloat` reads, and no sign keeps it |
| Numbers.SignedThousandthsRead | content.js:259 | the text of `n` thousandths, with or without a minus sign, reads back as `n / 1000` with that sign |
| Numbers.ToFixed3 | content.js:259 | `x.toFixed(3)`: the magnitude rounded to the nearest thousandth (a tie goes up), three decimals, "-" for a negative `x`; `ToFixed3Accurate` and `ToFixed3Chars` state its properties |
| Numbers.ToFixed3Accurate | content.js:259 | `parseFloat(x.toFixed(3))` succeeds and is within 0.0005 of `x` |
| Numbers.ToFixed3Chars | content.js:259 | `toFixed(3)` prints only digits, '-' and '.' |
| Gate.DecimalOfId | content.js:10 | a string matching `^[1-9]\d*$` is the decimal text of its positive value |
| Gate.DecimalIsId | content.js:10 | the decimal text of a positive number matches `^[1-9]\d*$` |
| Gate.Allowed | content.js:6-13 | the page gate on `pathname` and `search`; `AllowedIff` states it without the regular expressions |
| Gate.AllowedIff | content.js:6-13 | the page is allowed exactly when the lower-cased path ends with "/profiles.php" and the query without its "?" is the decimal text of a positive number, alone or followed by exactly "&1" |
| Tables.Comparable | content.js:29 | one comparable text per header cell |
| Tables.Qualifies | content.js:26-36 | a table with a header row in which every token is found, as a whole comparable cell (exact mode, content.js:30-35) or inside one (substring mode, content.js:74-75) |
| Tables.AllTokensFound | content.js:30-36 | the token test succeeds exactly when every required token is found among the header texts |
| Tables.TableQualifies | content.js:26-36 | a table passes exactly when it is a candidate for the selector, has a header row, and every token is found |
| Tables.Locate | content.js:26-38 | the position returned is the first candidate table that qualifies; no earlier candidate qualifies; `None` exactly when no candidate qualifies |
| Tables.FindCurrentSeasonTable | content.js:24-39 | the first `table.std` whose header row has W, L, T, PTS, TMP, TCA, PCAA and RANK as whole comparable cells; tables without a header row are skipped; null when there is none |
| Tables.FindResultsTable | content.js:68-83 | the first table that `Qualifies` in substring mode for MATCH DAY, OPPONENT, RESULT, RECORD and RANK, that is, each token inside some `toUpper` header cell; no earlier table qualifies; null when none does |
| Tables.SubstringTokenIff | content.js:74-75 | the substring mode finds a token exactly when it occurs in `toUpper` of some header cell |
| Tables.SubstringModeIff | content.js:74-75 | the substring-mode verdict, stated on the raw header cells |
| Tables.ExactTokensContained | content.js:30-36 | tokens present as whole cells are present as substrings |
| Tables.ExactImpliesSubstring | content.js:30-36 | every table the exact mode accepts, the substring mode accepts |
| Tables.QualifiesIgnoresWhitespace | content.js:29 | either verdict is the same for header rows that differ only in which white-space characters they use |
| Tables.MatchDayHeaderExample | content.js:74-75 | a "MATCH DAY #" header meets the MATCH DAY requirement |
| Standings.Put | content.js:171 | `map.set`: the value becomes the new one, a new key is appended to the iteration order, an existing key keeps its place |
| Standings.IndexOf | content.js:111-117 | `indexOf` returns -1 or a position in the header row |
| Standings.IndexOfSpec | content.js:111-117 | `indexOf` reports the first position of the header, and -1 exactly when it is absent |
| Standings.HeaderColumns | content.js:109-131 | the column record of one comparable header row, `None` when an essential header is missing; `HeaderColumnsSpec` states it |
| Standings.HeaderColumnsSpec | content.js:109-131 | the header scan accepts a row of comparable header texts exactly when PLAYER, W, L, T, TCA and PCAA are all among them; each column is the first position of its header, and RANK is the first RANK position when there is one |
| Standings.MissingRankUsesColumnZero | content.js:124 | without a RANK header the rank column is column 0 |
| Standings.FirstStandingsTable | content.js:103-133 | the chosen table has a non-empty header row that the scan accepts, and every earlier table is rejected; `None` when all are rejected |
| Standings.FindStandingsTable | content.js:103-138 | the header-scan loop stops at exactly the first accepted table |
| Standings.Clean | content.js:97 | `clean` gives one text per cell |
| Standings.SkipIff | content.js:144-165 | a body row is dropped exactly when it has no cells, only blank cells, an empty player name, or a W, L, T, TCA or PCAA cell that does not parse |
| Standings.DecimalNormalized | content.js:148 | `clean(String(idx + 1))` is `String(idx + 1)` |
| Standings.Record | content.js:167 | the record text `${w}-${l}-${t}`; `KeptFields` states that a kept entry holds it |
| Standings.ParseRow | content.js:142-172 | the `forEach` callback for one body row: dropped or kept with its entry; `SkipIff`, `RankFallback`, `KeptName` and `KeptFields` state it |
| Standings.RankFallback | content.js:148-168 | the rank is the cleaned rank cell when it exists and is not blank, and otherwise the 1-based position of the row among all body rows |
| Standings.KeptName | content.js:149-151 | a kept row is stored under the cleaned, non-empty, normalized text of its player cell |
| Standings.KeptFields | content.js:153-168 | a kept entry holds the parsed W, L, T, TCA and PCAA, its record is "W-L-T", and its rank is never empty |
| Standings.Outcomes | content.js:142-172 | one outcome per body row |
| Standings.Insert | content.js:140-172 | the map built by the `set` calls is well formed: its iteration order lists distinct keys, and they are exactly the names with an entry |
| Standings.InsertMembership | content.js:171 | a name is a key exactly when some row kept it |
| Standings.InsertEmpty | content.js:174-175 | the map is empty exactly when no row was kept |
| Standings.InsertLastWins | content.js:171 | a later row with the same name overwrites an earlier one |
| Standings.InsertKeysPrefix | content.js:171 | later rows only append keys to the iteration order |
| Standings.InsertFirstPosition | content.js:171 | a name takes its iteration position at its first kept row, after the keys of earlier rows, and keeps it |
| Standings.ReadRows | content.js:140-172 | the `forEach` loop builds exactly the map of the kept rows in order |
| Standings.ReadNothing | content.js:142-175 | the map stays empty exactly when every body row is dropped |
| Standings.Standings | content.js:92-176 | a non-null result is a well-formed, non-empty map; when no table passes the header scan the result is null |
| Standings.ParseStandings | content.js:92-176 | the method returns the value of the `Standings` function: scan, then read the rows, then null for an empty map |
| Standings.StandingsNoneIff | content.js:135-175 | `parseStandings` returns null exactly when no table passes the header scan, or when every body row of the chosen table is dropped |
| MatchDay.WsEnd | content.js:179 | `\s*` consumes exactly the white-space run that starts at the position |
| MatchDay.LabelEnd | content.js:179 | a label that matches ends after the position where it starts |
| MatchDay.FirstMatch | content.js:179 | the leftmost position where a match starts, or `None` when no position starts one |
| MatchDay.GroupAt | content.js:179 | the text of the group `(\d{1,2})` of a match starting at a position, `None` when none starts there; `GroupDigits` and `GroupValue` state it |
| MatchDay.MatchNumber | content.js:179-182 | `parseInt` of the group of the leftmost match, `None` when there is no match; `MatchNumberSpec` states it |
| MatchDay.ParseMatchDayNumber | content.js:178-183 | `parseMatchDayNumber`: the match is taken on `toUpper(text)`; `ParseMatchDayNumberSpec` states it |
| MatchDay.GroupDigits | content.js:179 | the captured group is one or two digits |
| MatchDay.SmallDigitsValue | content.js:179 | one or two digits are worth at most 99 |
| MatchDay.GroupValue | content.js:179-181 | the value of the group is at most 99 |
| MatchDay.AllDigitsRead | content.js:181 | `parseInt` of a digit string is its value |
| MatchDay.MatchNumberSpec | content.js:179-182 | null exactly when no position starts a match; otherwise the value, 0..99, of the group of the leftmost match |
| MatchDay.ParseMatchDayNumberSpec | content.js:178-183 | `parseMatchDayNumber` returns null exactly when no position of `toUpper(text)` starts a match; otherwise the 0..99 value of the group of the leftmost match |
| MatchDay.MatchDayExample | content.js:178-183 | "MATCH DAY 12" reads as 12 |
| MatchDay.TwoDigitsExample | content.js:178-183 | "MD 123" reads as 12: the group takes at most two digits |
| Matcher.DotIndex | content.js:87 | `indexOf(".")` is -1 or a position in the string |
| Matcher.DotIndexSpec | content.js:87 | `indexOf(".")` finds the first dot, and is -1 exactly when there is none |
| Matcher.SliceBeforeDot | content.js:86-89 | `sliceBeforeDot`; `SliceBeforeDotSpec` states it |
| Matcher.SliceBeforeDotSpec | content.js:86-89 | `sliceBeforeDot` returns a dot-free prefix, ended by the end of the string or by its first dot |
| Matcher.TruncationMatch | content.js:223-228 | the truncation-aware test of one key against the opponent name; `TruncationMatchIff` states it in terms of prefixes |
| Matcher.TruncationMatchIff | content.js:223-228 | the truncation test passes exactly when the key's part before its dot is non-empty and either it is a prefix of the opponent name or the opponent's part before its dot is a prefix of the key |
| Matcher.LeadingDotMatches | content.js:221-228 | an opponent name starting with "." passes against every key whose part before its dot is non-empty |
| Matcher.TruncatedNameExample | content.js:223-228 | "B." matches the key "BOB" |
| Matcher.FirstTruncation | content.js:222-230 | the first key in iteration order that passes the truncation test, or `None` when none does |
| Matcher.Lookup | content.js:218-236 | the entry the matcher settles on; `ResolveOpponent`, `ExactHitWins` and `LookupScan` state it |
| Matcher.ResolveOpponent | content.js:219-231 | the lookup loop returns the entry of the exact key if present, otherwise of the first key that passes the truncation test, otherwise none |
| Matcher.ExactHitWins | content.js:219-220 | an exact key is used even when an earlier key would pass the truncation test |
| Matcher.LookupScan | content.js:219-231 | without an exact key: not found exactly when no key passes, and otherwise the entry of the first key that passes |
| Metrics.Compute | content.js:239-246 | games is W+L+T; PEPA and OEPA are the two cross products; with games played each average times the games gives its total; otherwise both averages are 0 |
| Metrics.NoGamesNoShade | content.js:245-246 | with no games played both averages are 0 and neither flag is set |
| Metrics.Flags | content.js:263-264 | the red and green flags; `FlagsExclusive`, `FlagsMirror` and `FlagsCompareTotals` state them |
| Metrics.FlagsExclusive | content.js:263-264 | the red and green flags are never both set; neither is set exactly when the averages are equal; green exactly when PEPAA > OEPAA |
| Metrics.FlagsMirror | content.js:263-264 | swapping the averages swaps the flags |
| Metrics.FlagsCompareTotals | content.js:245-264 | with games played, the flags compare PEPA and OEPA directly |
| Metrics.ShadeExample | content.js:239-264 | a 3-1-0 opponent with TCA 2.0 and PCAA 1.0 against a 1.0/1.0 player gives averages 0.25 and 0.5 and a red shading |
| Reconcile.PlanRow | content.js:205-246 | the eligibility tests of one row, the opponent lookup and the metrics of the entry found; `UntouchedIff`, `PlanFlags` and `PlanFillData` state it |
| Reconcile.ResultText | content.js:259 | the result text `OEPAA⋅PEPAA`; `ResultTextReadsBack` states it |
| Reconcile.ApplyHalfShade | content.js:186-197 | `applyHalfShade`: the background cleared with neither flag, the two-halves gradient otherwise; `ApplyWrites` states it |
| Reconcile.FilledResult | content.js:257-266 | the result cell after filling: text, tooltip and shading; `ApplyWrites` states it |
| Reconcile.Apply | content.js:256-269 | the writes a plan calls for; `ApplyWritesTargets`, `ApplyWrites` and `OnlyBlankTargetsChange` state them |
| Reconcile.FillRow | content.js:204-271 | one row as the loop leaves it; `ReconcileRow` computes it and `FillResults` applies it to every row |
| Reconcile.ReconcileRow | content.js:204-271 | the loop body returns the row as `FillRow` fills it, and reports "filled" exactly when the row's plan is a fill; an unfilled row is returned unchanged |
| Reconcile.FillRows | content.js:203-272 | one reconciled row per row |
| Reconcile.FillResults | content.js:199-275 | after the call the array holds every row as reconciled on its own, and the returned count is the number of filled rows |
| Reconcile.FillRowsAt | content.js:203-272 | row `i` of the result is row `i` reconciled alone: rows are processed independently and in order |
| Reconcile.UntouchedIff | content.js:205-236 | a row is left as it is exactly when it has fewer than six cells, no match day in 2..25, no blank target cell, an empty opponent name, or an opponent that is not found; such a row is unchanged |
| Reconcile.PlanFlags | content.js:210-213 | a filled row has six cells or more, and its three flags are the blankness of cells 3, 4 and 5 |
| Reconcile.PlanFillData | content.js:215-246 | a filled row uses the entry found for its normalized opponent name and that entry's metrics |
| Reconcile.ApplyWritesTargets | content.js:256-269 | applying a plan changes only cells 3, 4 and 5, and of those only the ones marked blank |
| Reconcile.ApplyWrites | content.js:256-269 | record and rank are copied verbatim; the result cell gets `OEPAA⋅PEPAA`, the tooltip, and a cleared background on a tie or else the two-halves shading |
| Reconcile.OnlyBlankTargetsChange | content.js:256-269 | filling keeps the row's length, every cell other than 3, 4 and 5, and every non-blank target cell |
| Reconcile.FilledCells | content.js:215-269 | for a filled row, the entry and metrics used and the contents written into each blank target cell |
| Reconcile.ResultTextReadsBack | content.js:259 | the result text has one dot operator; `parseFloat` reads each side back within 0.0005 of OEPAA and PEPAA |
| Reconcile.FilledCountBound | content.js:201-271 | no more rows are filled than exist |
| Reconcile.NothingFilledIff | content.js:201-271 | the count is 0 exactly when no row's plan is a fill |

## Left out

- background.js is not part of this model: it is a network fetch relay between extension contexts.
- `run` (content.js:277-306) is left out. It covers DOM readiness, the `fetch` of the rundle page and the try/catch orchestration. The fetched page is an input, and so is the player's TCA and PCAA.
- `getCurrentSeasonData` (content.js:42-66) is left out. It follows an anchor's `href` on the live page. The player's TCA and PCAA are parameters of `Reconcile.FillResults`.
- Logging (`log`, `warn`, `error`) has no functional effect and is left out. The `filled` counter that is logged is returned instead.
- HTML parsing and DOM queries are abstracted. `DOMParser`, `querySelectorAll` and `textContent` are replaced by `Table` values: a `std` flag, an optional header row and body rows of cell texts.
- CSS is abstracted. The gradient strings, `backgroundSize`, `backgroundRepeat` and `textAlign` set by `applyHalfShade` become the `Background` value: cleared, or the two flags.
- Tooltip text is abstracted. The tooltip is kept as the values it lists. Number-to-string printing of `${data.tca}` and the newline-joined layout are not modelled.
- Numbers.ParseFloat: reads decimal literals exactly as `real`. It does not model IEEE double rounding, the literal "Infinity", or overflow to Infinity.
- Numbers.ToFixed3: exact round-half-up of the magnitude on `real`. It does not model IEEE representation error of the argument, or the exponent form printed for magnitudes of 10^21 and more.
- Numbers.IntToString: prints every digit. JavaScript prints integers of magnitude 10^21 or more in exponent form ("1e+21"), which would change the record built at content.js:167.
- Numbers.ParseInt: unbounded integers. It does not model the precision loss of JavaScript numbers beyond 2^53.
- Metrics.Compute: exact `real` arithmetic, not IEEE doubles. NaN cannot arise because every parsed value is finite here.
- Text.ToUpper: upper-cases ASCII letters only. It does not model Unicode case mappings that change other letters or the length of a string (such as "ß" to "SS").
- Gate.Allowed: lower-cases ASCII letters only, and takes `pathname` and `search` as already-decoded strings. URL parsing is left out.
- Standings.ReadRows: the `Map` is a value that the loop reassigns. Aliasing of the `Map` object is not modelled; nothing else holds it.
