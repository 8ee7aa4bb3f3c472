/** The metric formulas of `fillResults` (content.js:238-246) and the shading decision of
    content.js:262-265, which `applyHalfShade` (content.js:187-197) turns into a background. */
module Metrics {
  import opened Standings

  /** The numbers computed for one opponent: games played, the player's and the opponent's
      expected points against, and their per-game averages. */
  datatype Metrics = Metrics(games: int, pepa: real, oepa: real, pepaa: real, oepaa: real)

  /** `PEPA / gamesPlayed` when games were played, else 0. */
  function PerGame(total: real, games: int): real {
    if games > 0 then total / (games as real) else 0.0
  }

  /** The metrics of content.js:238-246 for an opponent's entry and the player's own TCA and
      PCAA. */
  function Compute(e: Entry, playerTca: real, playerPcaa: real): (m: Metrics)
    ensures m.games == e.w + e.l + e.t
    ensures m.pepa == playerTca * e.pcaa && m.oepa == e.tca * playerPcaa
    ensures m.games > 0 ==> m.pepaa * (m.games as real) == m.pepa && m.oepaa * (m.games as real) == m.oepa
    ensures m.games <= 0 ==> m.pepaa == 0.0 && m.oepaa == 0.0
  {
    var games := e.w + e.l + e.t;
    var pepa := playerTca * e.pcaa;
    var oepa := e.tca * playerPcaa;
    Metrics(games, pepa, oepa, PerGame(pepa, games), PerGame(oepa, games))
  }

  /** The two halves of the result cell's background: red on the left when the opponent's
      average is the larger, green on the right when the player's is. */
  datatype Shade = Shade(leftRed: bool, rightGreen: bool)

  /** The flags of content.js:263-264. */
  function Flags(pepaa: real, oepaa: real): Shade {
    Shade(oepaa > pepaa, pepaa > oepaa)
  }

  // ---------------------------------------------------------------------------------------
  // Properties

  /** The flags are never both set, neither is set exactly when the averages are equal, and
      otherwise exactly one is set, on the side of the larger average. */
  lemma FlagsExclusive(pepaa: real, oepaa: real)
    ensures !(Flags(pepaa, oepaa).leftRed && Flags(pepaa, oepaa).rightGreen)
    ensures !Flags(pepaa, oepaa).leftRed && !Flags(pepaa, oepaa).rightGreen <==> pepaa == oepaa
    ensures Flags(pepaa, oepaa).rightGreen <==> pepaa > oepaa
  {
  }

  /** Exchanging the two averages exchanges the two flags. */
  lemma FlagsMirror(pepaa: real, oepaa: real)
    ensures Flags(oepaa, pepaa) == Shade(Flags(pepaa, oepaa).rightGreen, Flags(pepaa, oepaa).leftRed)
  {
  }

  /** With no games played (possible, since `parseInt` accepts negative counts) both averages
      are 0, so neither flag is set. */
  lemma NoGamesNoShade(e: Entry, playerTca: real, playerPcaa: real)
    requires e.w + e.l + e.t <= 0
    ensures var m := Compute(e, playerTca, playerPcaa);
      m.pepaa == 0.0 && m.oepaa == 0.0 && Flags(m.pepaa, m.oepaa) == Shade(false, false)
  {
  }

  /** With games played, the flags compare the totals, since both averages divide by the same
      positive count. */
  lemma FlagsCompareTotals(e: Entry, playerTca: real, playerPcaa: real)
    requires e.w + e.l + e.t > 0
    ensures var m := Compute(e, playerTca, playerPcaa);
      Flags(m.pepaa, m.oepaa) == Shade(m.oepa > m.pepa, m.pepa > m.oepa)
  {
    var m := Compute(e, playerTca, playerPcaa);
    var g := m.games as real;
    assert m.pepaa == m.pepa / g && m.oepaa == m.oepa / g;
    if m.pepa > m.oepa {
      assert m.pepa / g > m.oepa / g;
    } else if m.oepa > m.pepa {
      assert m.oepa / g > m.pepa / g;
    }
  }

  /** An opponent with record 3-1-0, TCA 2.0 and PCAA 1.0 against a player with TCA 1.0 and
      PCAA 1.0: PEPA 1.0, OEPA 2.0, four games, so the result cell is shaded red. */
  lemma ShadeExample()
    ensures var m := Compute(Entry(2.0, 1.0, 3, 1, 0, "3-1-0", "1"), 1.0, 1.0);
      m.games == 4 && m.pepaa == 0.25 && m.oepaa == 0.5 && Flags(m.pepaa, m.oepaa) == Shade(true, false)
  {
  }
}
