/** Win/loss/tie records (src/league/matchup.rs) and the three-way outcome of a
    finished game from one team's point of view (src/game/matchup.rs). */
module Records {

  datatype MatchupResult = Win | Loss | Tie

  /** `LeagueTeamRecord`: counts of wins, losses and ties. */
  datatype TeamRecord = TeamRecord(wins: nat, losses: nat, ties: nat)

  /** `LeagueTeamRecord::new` and `Default`: the 0-0-0 record. */
  function NewRecord(): TeamRecord {
    TeamRecord(0, 0, 0)
  }

  /** Total number of games a record accounts for. */
  function Games(r: TeamRecord): nat {
    r.wins + r.losses + r.ties
  }

  /** `increment_wins(n)`: adds `n` wins and touches nothing else. */
  function IncrementWins(r: TeamRecord, n: nat): (r': TeamRecord)
    ensures Games(r') == Games(r) + n
    ensures r'.losses == r.losses && r'.ties == r.ties
  {
    r.(wins := r.wins + n)
  }

  /** `increment_losses(n)`. */
  function IncrementLosses(r: TeamRecord, n: nat): (r': TeamRecord)
    ensures Games(r') == Games(r) + n
    ensures r'.wins == r.wins && r'.ties == r.ties
  {
    r.(losses := r.losses + n)
  }

  /** `increment_ties(n)`. */
  function IncrementTies(r: TeamRecord, n: nat): (r': TeamRecord)
    ensures Games(r') == Games(r) + n
    ensures r'.wins == r.wins && r'.losses == r.losses
  {
    r.(ties := r.ties + n)
  }

  /** Counts one game with the given outcome, as the `match` on a
      `FootballMatchupResult` does wherever a record is accumulated. */
  function Tally(r: TeamRecord, res: MatchupResult): (r': TeamRecord)
    ensures Games(r') == Games(r) + 1
  {
    match res
    case Win => IncrementWins(r, 1)
    case Loss => IncrementLosses(r, 1)
    case Tie => IncrementTies(r, 1)
  }

  /** Componentwise sum, the three `increment_*` calls of `LeagueMatchups::record`. */
  function Add(a: TeamRecord, b: TeamRecord): TeamRecord {
    TeamRecord(a.wins + b.wins, a.losses + b.losses, a.ties + b.ties)
  }

  /** Sum of a list of records, folded from the left starting at 0-0-0. */
  function Sum(rs: seq<TeamRecord>): (r: TeamRecord)
    decreases |rs|
  {
    if |rs| == 0 then TeamRecord(0, 0, 0) else Add(Sum(rs[..|rs| - 1]), rs[|rs| - 1])
  }

  /** The new record is the identity of `Add`, on both sides. */
  lemma NewRecordIsIdentity(r: TeamRecord)
    ensures Add(NewRecord(), r) == r
    ensures Add(r, NewRecord()) == r
  {
  }

  /** Summing a concatenation is adding the two sums: the order in which the
      per-season records are visited does not change the total. */
  lemma {:induction false} SumAppend(a: seq<TeamRecord>, b: seq<TeamRecord>)
    ensures Sum(a + b) == Add(Sum(a), Sum(b))
    decreases |b|
  {
    if |b| == 0 {
      assert a + b == a;
    } else {
      var b' := b[..|b| - 1];
      var last := b[|b| - 1];
      SumAppend(a, b');
      SumSnoc(a + b', last);
      assert a + b == (a + b') + [last];
      SumSnoc(b', last);
      assert b == b' + [last];
    }
  }

  /** Summing one more record adds it to the running total. */
  lemma SumSnoc(rs: seq<TeamRecord>, x: TeamRecord)
    ensures Sum(rs + [x]) == Add(Sum(rs), x)
  {
    assert (rs + [x])[..|rs|] == rs;
  }

  /** Each field of the sum is the sum of that field. */
  lemma {:induction false} SumGames(rs: seq<TeamRecord>)
    ensures Games(Sum(rs)) == SumOfGames(rs)
    decreases |rs|
  {
    if |rs| > 0 {
      SumGames(rs[..|rs| - 1]);
    }
  }

  function SumOfGames(rs: seq<TeamRecord>): nat
    decreases |rs|
  {
    if |rs| == 0 then 0 else SumOfGames(rs[..|rs| - 1]) + Games(rs[|rs| - 1])
  }
}
