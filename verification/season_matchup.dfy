/** One scheduled game of a season (src/league/season/matchup.rs): the two
    team IDs, the game context that tracks the game as it is simulated, and
    the finished game once there is one; and a team's list of games across
    the weeks of a season (`LeagueSeasonMatchups`). */
module SeasonMatchups {
  import opened Wrappers
  import opened Records
  import Context
  import Games

  datatype Matchup = Matchup(home: nat, away: nat, context: Context.GameContext, game: Option<Games.Game>)

  /** A matchup is complete once its context says the game is over. */
  predicate Complete(m: Matchup) {
    m.context.gameOver
  }

  /** `LeagueSeasonMatchup::new`. The coin flip deciding who kicks off is the
      parameter `homeOpeningKickoff`; the receiving side starts with the ball
      and drives toward yard line 100. The context is built from the two
      short names and unwrapped, so names over four characters panic, which
      is `None` here. */
  function NewMatchup(home: nat, away: nat, homeShort: string, awayShort: string, homeOpeningKickoff: bool)
    : (r: Option<Matchup>)
    ensures r.Some? <==> |homeShort| <= 4 && |awayShort| <= 4
    ensures r.Some? ==> r.value.home == home && r.value.away == away && r.value.game.None?
    ensures r.Some? ==> Context.Valid(r.value.context) && !Complete(r.value) && !Context.Started(r.value.context)
    ensures r.Some? ==> r.value.context.homeOpeningKickoff == homeOpeningKickoff
                        && r.value.context.homePossession == !homeOpeningKickoff
    ensures r.Some? ==> r.value.context.homeTeamShort == homeShort && r.value.context.awayTeamShort == awayShort
  {
    var c := Context.Default().(homeTeamShort := homeShort, awayTeamShort := awayShort,
                                homePossession := !homeOpeningKickoff,
                                homePositiveDirection := !homeOpeningKickoff,
                                homeOpeningKickoff := homeOpeningKickoff);
    match Context.TryFrom(c)
    case Ok(v) => Some(Matchup(home, away, v, None))
    case Err(_) => None
  }

  /** `take_game`: hands out the stored game and leaves none behind. */
  function TakeGame(m: Matchup): (r: (Option<Games.Game>, Matchup))
    ensures r.0 == m.game && r.1.game.None?
    ensures r.1.home == m.home && r.1.away == m.away && r.1.context == m.context
  {
    (m.game, m.(game := None))
  }

  /** `participated`. */
  predicate Participated(m: Matchup, id: nat) {
    id == m.home || id == m.away
  }

  /** `is_home_team`. */
  predicate IsHomeTeam(m: Matchup, id: nat) {
    id == m.home
  }

  /** `result`: nothing before the game is over or for a team that did not
      play; a tie on equal scores; otherwise the home side wins exactly when
      it scored more. */
  function Result(m: Matchup, id: nat): (r: Option<MatchupResult>)
    ensures r.Some? <==> Complete(m) && Participated(m, id)
    ensures r == Some(Tie) <==> Complete(m) && Participated(m, id) && m.context.homeScore == m.context.awayScore
    ensures r == Some(Win) ==> (if IsHomeTeam(m, id) then m.context.homeScore > m.context.awayScore
                                else m.context.awayScore > m.context.homeScore)
  {
    if !(Complete(m) && Participated(m, id)) then None
    else if m.context.homeScore == m.context.awayScore then Some(Tie)
    else if IsHomeTeam(m, id) then
      (if m.context.homeScore > m.context.awayScore then Some(Win) else Some(Loss))
    else if m.context.homeScore > m.context.awayScore then Some(Loss)
    else Some(Win)
  }

  /** `winner`: the home side's result decides; a tie has no winner. */
  function Winner(m: Matchup): (r: Option<nat>)
    ensures r.None? <==> !Complete(m) || m.context.homeScore == m.context.awayScore
    ensures r.Some? ==> Participated(m, r.value)
    ensures r.Some? && m.home != m.away ==> Result(m, r.value) == Some(Win)
  {
    if !Complete(m) then None
    else match Result(m, m.home)
      case Some(Win) => Some(m.home)
      case Some(Loss) => Some(m.away)
      case _ => None
  }

  /** Between two different teams a finished game is a win for one and a
      loss for the other, or a tie for both. */
  lemma ResultsAgree(m: Matchup)
    requires Complete(m) && m.home != m.away
    ensures Result(m, m.home) == Some(Win) <==> Result(m, m.away) == Some(Loss)
    ensures Result(m, m.home) == Some(Loss) <==> Result(m, m.away) == Some(Win)
    ensures Result(m, m.home) == Some(Tie) <==> Result(m, m.away) == Some(Tie)
    ensures Winner(m).Some? ==> Result(m, if Winner(m).value == m.home then m.away else m.home) == Some(Loss)
  {
  }

  /** `LeagueSeasonMatchups`: one team's game in every week, absent in a
      week the team does not play. */
  datatype TeamSchedule = TeamSchedule(team: nat, matchups: seq<Option<Matchup>>)

  /** The result a week's entry adds to the team's record. */
  function EntryResult(e: Option<Matchup>, id: nat): Option<MatchupResult> {
    match e
    case Some(m) => Result(m, id)
    case None => None
  }

  /** Folds the team's results into a record, 0-0-0 for an empty list. */
  function RecordOf(es: seq<Option<Matchup>>, id: nat): TeamRecord
    decreases |es|
  {
    if |es| == 0 then NewRecord() else Step(RecordOf(es[..|es| - 1], id), es[|es| - 1], id)
  }

  /** One week's entry added to a running record. */
  function Step(prev: TeamRecord, e: Option<Matchup>, id: nat): TeamRecord {
    match EntryResult(e, id)
    case Some(res) => Tally(prev, res)
    case None => prev
  }

  lemma StepAdd(a: TeamRecord, b: TeamRecord, e: Option<Matchup>, id: nat)
    ensures Step(Add(a, b), e, id) == Add(a, Step(b, e, id))
  {
  }

  /** `LeagueSeasonMatchups::record`. */
  function Record(s: TeamSchedule): TeamRecord {
    RecordOf(s.matchups, s.team)
  }

  /** The entries of a list that count toward the record: present, finished
      and played by the team. */
  function Counted(es: seq<Option<Matchup>>, id: nat): (r: nat)
    ensures r <= |es|
    decreases |es|
  {
    if |es| == 0 then 0
    else Counted(es[..|es| - 1], id) + (if EntryResult(es[|es| - 1], id).Some? then 1 else 0)
  }

  /** The record accounts for every counted game exactly once. */
  lemma {:induction false} RecordCountsEachGame(es: seq<Option<Matchup>>, id: nat)
    ensures Records.Games(RecordOf(es, id)) == Counted(es, id)
    decreases |es|
  {
    if |es| > 0 {
      RecordCountsEachGame(es[..|es| - 1], id);
    }
  }

  /** The entries the team finished with the given result. */
  function CountedAs(es: seq<Option<Matchup>>, id: nat, res: MatchupResult): (r: nat)
    ensures r <= Counted(es, id)
    decreases |es|
  {
    if |es| == 0 then 0
    else CountedAs(es[..|es| - 1], id, res) + (if EntryResult(es[|es| - 1], id) == Some(res) then 1 else 0)
  }

  /** Each count of the record is the number of the team's finished games
      with that result: a win for every game won, and so on. */
  lemma {:induction false} RecordCountsEachResult(es: seq<Option<Matchup>>, id: nat)
    ensures RecordOf(es, id) == TeamRecord(CountedAs(es, id, Win), CountedAs(es, id, Loss), CountedAs(es, id, Tie))
    decreases |es|
  {
    if |es| > 0 {
      RecordCountsEachResult(es[..|es| - 1], id);
    }
  }

  /** The record of two stretches of weeks is the sum of their records, so
      it does not depend on where the list is cut. */
  lemma {:induction false} RecordAppend(a: seq<Option<Matchup>>, b: seq<Option<Matchup>>, id: nat)
    ensures RecordOf(a + b, id) == Add(RecordOf(a, id), RecordOf(b, id))
    decreases |b|
  {
    if |b| == 0 {
      assert a + b == a;
    } else {
      RecordAppend(a, b[..|b| - 1], id);
      assert (a + b)[..|a + b| - 1] == a + b[..|b| - 1];
      StepAdd(RecordOf(a, id), RecordOf(b[..|b| - 1], id), b[|b| - 1], id);
    }
  }

  /** Weeks without a game for the team change nothing. */
  lemma {:induction false} ByeWeeksIgnored(es: seq<Option<Matchup>>, id: nat)
    requires forall i :: 0 <= i < |es| ==> es[i].None?
    ensures RecordOf(es, id) == NewRecord()
    decreases |es|
  {
    if |es| > 0 {
      ByeWeeksIgnored(es[..|es| - 1], id);
    }
  }
}
