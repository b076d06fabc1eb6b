/** The playoffs of a season (src/league/season/playoffs.rs): the seeded
    field, one bracket of rounds per conference, and the winners bracket in
    which the conference champions meet when there is more than one
    conference. This module holds the state, its validator, the started and
    complete predicates, team admission and the championship queries; the
    round generators are in `PlayoffRounds`. */
module Playoffs {
  import opened Wrappers
  import opened Records
  import opened SeasonMatchups
  import opened Weeks
  import Maps
  import PT = PlayoffTeams
  import Brackets

  datatype SeasonPlayoffs = SeasonPlayoffs(
    teams: PT.PlayoffTeams,
    conferenceBrackets: map<nat, seq<Week>>,
    winnersBracket: seq<Week>)

  datatype PlayoffsError =
    | UnregisteredTeam(id: nat)
    | NotInPlayoffs(id: nat)
    | AlreadyStarted
    | Teams(teamsError: PT.TeamsError)
    | TooFewTeams(count: nat)
    | NoWildCardRound(count: nat)
    | ConferencesIncomplete
    | TooManyRounds(rounds: nat)
    | NoPreviousRound
    | Undecided(home: nat, away: nat)
    | NoTeamWithSeed(conference: nat, seed: nat)
    | NoChampion(conference: nat)
    | TooFewWinners(count: nat)
    | Bracket(bracketError: Brackets.BracketError)
    | ShortNameRejected
    | AlreadyComplete

  /** `LeagueSeasonPlayoffs::new`. */
  function New(): (p: SeasonPlayoffs)
    ensures PT.Len(p.teams) == 0 && p.conferenceBrackets == map[] && p.winnersBracket == []
  {
    PT.LenIsIterLength(PT.New());
    SeasonPlayoffs(PT.New(), map[], [])
  }

  // ----- the validator -----

  /** Every matchup of the round names two of the listed teams. */
  predicate RoundRegistered(known: seq<nat>, w: Week) {
    forall j :: 0 <= j < |w.matchups| ==> w.matchups[j].home in known && w.matchups[j].away in known
  }

  /** Every round of the bracket is registered. */
  predicate RoundsRegistered(known: seq<nat>, rounds: seq<Week>) {
    forall i :: 0 <= i < |rounds| ==> RoundRegistered(known, rounds[i])
  }

  /** Every bracket names only teams of the playoff field. */
  predicate Registered(p: SeasonPlayoffs) {
    var known := PT.Iter(p.teams);
    && (forall c :: c in p.conferenceBrackets ==> RoundsRegistered(known, p.conferenceBrackets[c]))
    && RoundsRegistered(known, p.winnersBracket)
  }

  /** `LeagueSeasonPlayoffsRaw::validate`: the IDs the field lists are
      collected first; then the conference brackets in key order and the
      winners bracket are scanned, rounds and matchups in order, the home
      team before the away team. */
  function Validate(p: SeasonPlayoffs): (r: Result<(), PlayoffsError>)
    ensures r.Ok? <==> Registered(p)
    ensures r.Err? ==> r.error.UnregisteredTeam? && !PT.Contains(p.teams, r.error.id)
  {
    var known := PT.Iter(p.teams);
    var ks := Maps.Keys(p.conferenceBrackets);
    var r := ValidateBrackets(known, p.conferenceBrackets, ks);
    var r' := if r.Err? then r else ValidateRounds(known, p.winnersBracket, 0);
    if r'.Err? then
      PT.ContainsIffListed(p.teams, r'.error.id);
      r'
    else r'
  }

  function ValidateBrackets(known: seq<nat>, m: map<nat, seq<Week>>, ks: seq<nat>): (r: Result<(), PlayoffsError>)
    requires forall i :: 0 <= i < |ks| ==> ks[i] in m
    ensures r.Ok? <==> forall i :: 0 <= i < |ks| ==> RoundsRegistered(known, m[ks[i]])
    ensures r.Err? ==> r.error.UnregisteredTeam? && r.error.id !in known
    decreases |ks|
  {
    if |ks| == 0 then Ok(())
    else
      var _ :- ValidateRounds(known, m[ks[0]], 0);
      assert forall i :: 1 <= i < |ks| ==> ks[1..][i - 1] == ks[i];
      ValidateBrackets(known, m, ks[1..])
  }

  /** The rounds from the `k`-th on. */
  function ValidateRounds(known: seq<nat>, rounds: seq<Week>, k: nat): (r: Result<(), PlayoffsError>)
    requires k <= |rounds|
    ensures r.Ok? <==> forall i :: k <= i < |rounds| ==> RoundRegistered(known, rounds[i])
    ensures r.Err? ==> r.error.UnregisteredTeam? && r.error.id !in known
    decreases |rounds| - k
  {
    if k == |rounds| then Ok(())
    else
      var _ :- ValidateMatchups(known, rounds[k].matchups, 0);
      ValidateRounds(known, rounds, k + 1)
  }

  function ValidateMatchups(known: seq<nat>, ms: seq<Matchup>, k: nat): (r: Result<(), PlayoffsError>)
    requires k <= |ms|
    ensures r.Ok? <==> forall j :: k <= j < |ms| ==> ms[j].home in known && ms[j].away in known
    ensures r.Err? ==> r.error.UnregisteredTeam? && r.error.id !in known
    decreases |ms| - k
  {
    if k == |ms| then Ok(())
    else if ms[k].home !in known then Err(UnregisteredTeam(ms[k].home))
    else if ms[k].away !in known then Err(UnregisteredTeam(ms[k].away))
    else ValidateMatchups(known, ms, k + 1)
  }

  /** A registered bracket matchup names teams of the playoff field. */
  lemma RegisteredTeamsContained(p: SeasonPlayoffs, rounds: seq<Week>, i: nat, j: nat)
    requires RoundsRegistered(PT.Iter(p.teams), rounds)
    requires i < |rounds| && j < |rounds[i].matchups|
    ensures PT.Contains(p.teams, rounds[i].matchups[j].home) && PT.Contains(p.teams, rounds[i].matchups[j].away)
  {
    assert RoundRegistered(PT.Iter(p.teams), rounds[i]);
    PT.ContainsIffListed(p.teams, rounds[i].matchups[j].home);
    PT.ContainsIffListed(p.teams, rounds[i].matchups[j].away);
  }

  /** The raw playoffs of an empty season are valid. */
  lemma NewIsValid()
    ensures Validate(New()).Ok?
  {
  }

  // ----- progress of the brackets -----

  /** Some round of the bracket has a finished game. */
  predicate RoundsStarted(rounds: seq<Week>) {
    exists i :: 0 <= i < |rounds| && Weeks.Started(rounds[i])
  }

  /** Every round of the bracket is complete. */
  predicate RoundsComplete(rounds: seq<Week>) {
    forall i :: 0 <= i < |rounds| ==> WeekComplete(rounds[i])
  }

  /** The matchups of all rounds: each one eliminates one team. */
  function Eliminated(rounds: seq<Week>): nat
    decreases |rounds|
  {
    if |rounds| == 0 then 0 else Eliminated(rounds[..|rounds| - 1]) + |rounds[|rounds| - 1].matchups|
  }

  /** `conference_bracket_started`. */
  predicate ConferenceBracketStarted(p: SeasonPlayoffs, c: nat) {
    c in p.conferenceBrackets && RoundsStarted(p.conferenceBrackets[c])
  }

  /** `conference_brackets_started`, which is also `started`. */
  predicate Started(p: SeasonPlayoffs) {
    exists c :: c in p.conferenceBrackets && RoundsStarted(p.conferenceBrackets[c])
  }

  /** The bracket has knocked out all of its conference but one team. */
  predicate OneLeft(p: SeasonPlayoffs, c: nat, rounds: seq<Week>) {
    c in p.teams.teams && |p.teams.teams[c]| == Eliminated(rounds) + 1
  }

  /** `conference_bracket_complete`: the bracket has rounds, each of them
      started and complete, and exactly one team of the conference is left. */
  predicate ConferenceBracketComplete(p: SeasonPlayoffs, c: nat) {
    && c in p.conferenceBrackets
    && |p.conferenceBrackets[c]| > 0
    && RoundsComplete(p.conferenceBrackets[c])
    && OneLeft(p, c, p.conferenceBrackets[c])
  }

  /** `conference_bracket_complete` as the source computes it: a scan of the
      rounds that asks each one for `started` and `complete` and recounts the
      eliminated teams inside the loop. */
  method IsConferenceBracketComplete(p: SeasonPlayoffs, c: nat) returns (b: bool)
    ensures b <==> ConferenceBracketComplete(p, c)
  {
    if c !in p.conferenceBrackets {
      return false;
    }
    var bracket := p.conferenceBrackets[c];
    if |bracket| == 0 {
      return false;
    }
    var i := 0;
    while i < |bracket|
      invariant 0 <= i <= |bracket|
      invariant forall k :: 0 <= k < i ==> WeekComplete(bracket[k])
      invariant i > 0 ==> OneLeft(p, c, bracket)
    {
      var started := Weeks.IsStarted(bracket[i]);
      var complete := Weeks.IsComplete(bracket[i]);
      Weeks.CompleteImpliesStarted(bracket[i]);
      if !(started && complete) {
        return false;
      }
      if c !in p.teams.teams {
        return false;
      }
      var eliminated := 0;
      var j := 0;
      while j < |bracket|
        invariant 0 <= j <= |bracket|
        invariant eliminated == Eliminated(bracket[..j])
      {
        assert bracket[..j + 1][..j] == bracket[..j];
        eliminated := eliminated + |bracket[j].matchups|;
        j := j + 1;
      }
      assert bracket[..j] == bracket;
      if |p.teams.teams[c]| != eliminated + 1 {
        return false;
      }
      i := i + 1;
    }
    Weeks.CompleteImpliesStarted(bracket[0]);
    return true;
  }

  /** `conference_brackets_complete`: play has started, and in every bracket
      every round is complete with exactly one team of its conference left. */
  predicate ConferenceBracketsComplete(p: SeasonPlayoffs) {
    && Started(p)
    && forall c :: c in p.conferenceBrackets ==>
         RoundsComplete(p.conferenceBrackets[c]) && OneLeft(p, c, p.conferenceBrackets[c])
  }

  /** Once all brackets are complete, each one that has rounds is complete
      on its own. */
  lemma BracketsCompleteEach(p: SeasonPlayoffs, c: nat)
    requires ConferenceBracketsComplete(p)
    requires c in p.conferenceBrackets && |p.conferenceBrackets[c]| > 0
    ensures ConferenceBracketComplete(p, c)
  {
  }

  /** The last round of a bracket. */
  function LastRound(rounds: seq<Week>): Week
    requires |rounds| > 0
  {
    rounds[|rounds| - 1]
  }

  /** `conference_champion`: the winner of the last round's first game once
      the bracket is complete. */
  function ConferenceChampion(p: SeasonPlayoffs, c: nat): (r: Option<nat>)
    ensures r.Some? ==> ConferenceBracketComplete(p, c)
    ensures r.Some? ==> var last := LastRound(p.conferenceBrackets[c]);
                        Participated(last.matchups[0], r.value) && Complete(last.matchups[0])
    ensures ConferenceBracketComplete(p, c) ==>
              (r.None? <==> var m := LastRound(p.conferenceBrackets[c]).matchups[0];
                            m.context.homeScore == m.context.awayScore)
  {
    if !ConferenceBracketComplete(p, c) then None
    else
      var last := LastRound(p.conferenceBrackets[c]);
      assert WeekComplete(last);
      Winner(last.matchups[0])
  }

  /** In valid playoffs a conference champion is a playoff team. */
  lemma ChampionIsRegistered(p: SeasonPlayoffs, c: nat)
    requires Registered(p)
    requires ConferenceChampion(p, c).Some?
    ensures PT.Contains(p.teams, ConferenceChampion(p, c).value)
  {
    var rounds := p.conferenceBrackets[c];
    RegisteredTeamsContained(p, rounds, |rounds| - 1, 0);
  }

  /** `winners_bracket_started`. */
  predicate WinnersBracketStarted(p: SeasonPlayoffs) {
    |p.winnersBracket| > 0 && RoundsStarted(p.winnersBracket)
  }

  /** `is_conference_playoff`: the field spans more than one conference. */
  predicate IsConferencePlayoff(p: SeasonPlayoffs) {
    PT.NumConferences(p.teams) > 1
  }

  /** `winners_bracket_complete`: play has started, the last round is a
      single game, it is not the first round of more than two conferences,
      and that game is over. Earlier rounds are not consulted. */
  predicate WinnersBracketComplete(p: SeasonPlayoffs) {
    && WinnersBracketStarted(p)
    && var last := LastRound(p.winnersBracket);
       && |last.matchups| == 1
       && !(|p.winnersBracket| == 1 && PT.NumConferences(p.teams) > 2)
       && Complete(last.matchups[0])
  }

  /** `complete`: the conference brackets exist and are complete, and in a
      conference playoff the winners bracket is complete as well. */
  predicate PlayoffsComplete(p: SeasonPlayoffs) {
    && |p.conferenceBrackets| > 0
    && ConferenceBracketsComplete(p)
    && (IsConferencePlayoff(p) ==> WinnersBracketComplete(p))
  }

  /** Complete playoffs have started. */
  lemma CompleteImpliesStarted(p: SeasonPlayoffs)
    requires PlayoffsComplete(p)
    ensures Started(p)
  {
  }

  // ----- teams -----

  /** `add_team`: refused once play has started; otherwise the team joins
      the given conference, or conference 0 when none is given, with the
      next seed there. The brackets are untouched. */
  function AddTeam(p: SeasonPlayoffs, id: nat, name: string, conference: Option<nat>): (r: Result<SeasonPlayoffs, PlayoffsError>)
    ensures Started(p) ==> r == Err(AlreadyStarted)
    ensures !Started(p) ==> (r.Err? <==> id in PT.Members(p.teams, conference.GetOr(0)))
    ensures r.Ok? ==> var c := conference.GetOr(0);
                      && id in PT.Members(r.value.teams, c)
                      && PT.Members(r.value.teams, c)[id].seed == |PT.Members(p.teams, c)| + 1
                      && PT.Members(r.value.teams, c)[id].shortName == name
                      && |PT.Members(r.value.teams, c)| == |PT.Members(p.teams, c)| + 1
                      && (forall c' :: c' != c ==> PT.Members(r.value.teams, c') == PT.Members(p.teams, c'))
    ensures r.Ok? ==> r.value.conferenceBrackets == p.conferenceBrackets
                      && r.value.winnersBracket == p.winnersBracket
  {
    if Started(p) then Err(AlreadyStarted)
    else
      match PT.Add(p.teams, id, name, conference.GetOr(0))
      case Err(e) => Err(Teams(e))
      case Ok(t) => Ok(p.(teams := t))
  }

  /** Adding a team keeps every team of the field in it. */
  lemma AddKeepsField(t: PT.PlayoffTeams, id: nat, name: string, c: nat, x: nat)
    requires PT.Add(t, id, name, c).Ok?
    requires x in PT.Iter(t)
    ensures x in PT.Iter(PT.Add(t, id, name, c).value)
  {
    var u := PT.Add(t, id, name, c).value;
    PT.ContainsIffListed(t, x);
    PT.ContainsIffListed(u, x);
    var d :| d in t.teams && x in t.teams[d];
    if d == c {
      assert x in PT.Members(u, c);
    } else {
      assert PT.Members(u, d) == PT.Members(t, d);
    }
  }

  /** Adding a team keeps every earlier bracket matchup registered, and the
      new team is in the playoffs. */
  lemma AddTeamKeepsRegistered(p: SeasonPlayoffs, id: nat, name: string, conference: Option<nat>)
    requires Registered(p)
    requires AddTeam(p, id, name, conference).Ok?
    ensures Registered(AddTeam(p, id, name, conference).value)
    ensures PT.Contains(AddTeam(p, id, name, conference).value.teams, id)
  {
    var c := conference.GetOr(0);
    var q := AddTeam(p, id, name, conference).value;
    assert id in PT.Members(q.teams, c);
    forall x | x in PT.Iter(p.teams) ensures x in PT.Iter(q.teams) {
      AddKeepsField(p.teams, id, name, c, x);
    }
    RegisteredGrows(PT.Iter(p.teams), PT.Iter(q.teams), p.winnersBracket);
    forall d | d in p.conferenceBrackets ensures RoundsRegistered(PT.Iter(q.teams), p.conferenceBrackets[d]) {
      RegisteredGrows(PT.Iter(p.teams), PT.Iter(q.teams), p.conferenceBrackets[d]);
    }
  }

  /** Registration survives a longer list of known teams. */
  lemma RegisteredGrows(known: seq<nat>, known': seq<nat>, rounds: seq<Week>)
    requires forall x :: x in known ==> x in known'
    requires RoundsRegistered(known, rounds)
    ensures RoundsRegistered(known', rounds)
  {
    forall i | 0 <= i < |rounds| ensures RoundRegistered(known', rounds[i]) {
      assert RoundRegistered(known, rounds[i]);
    }
  }

  /** `team_seed`. */
  function TeamSeed(p: SeasonPlayoffs, id: nat): (r: Result<nat, PlayoffsError>)
    ensures r.Err? <==> !PT.Contains(p.teams, id)
    ensures r.Ok? ==> exists c :: c in p.teams.teams && id in p.teams.teams[c] && p.teams.teams[c][id].seed == r.value
  {
    match PT.Get(p.teams, id)
    case Some(e) => Ok(e.seed)
    case None => Err(NotInPlayoffs(id))
  }

  /** `team_conference`: the first conference, in key order, holding the
      team. */
  function TeamConference(p: SeasonPlayoffs, id: nat): (r: Result<nat, PlayoffsError>)
    ensures r.Err? <==> !PT.Contains(p.teams, id)
    ensures r.Ok? ==> r.value in p.teams.teams && id in p.teams.teams[r.value]
    ensures r.Ok? ==> forall c :: c in p.teams.teams && id in p.teams.teams[c] ==> r.value <= c
  {
    match PT.TeamConference(p.teams, id)
    case Some(c) => Ok(c)
    case None => Err(NotInPlayoffs(id))
  }

  // ----- the championship -----

  /** `championship`: the only game of the deciding bracket's last round,
      unless that round cannot be the final yet: the winners bracket in a
      conference playoff, otherwise the bracket of conference 0. */
  function Championship(p: SeasonPlayoffs): (r: Option<Matchup>)
    ensures r.Some? && IsConferencePlayoff(p) ==>
              WinnersBracketStarted(p) && LastRound(p.winnersBracket).matchups == [r.value]
              && !(|p.winnersBracket| == 1 && PT.NumConferences(p.teams) > 2)
    ensures r.Some? && !IsConferencePlayoff(p) ==>
              0 in p.conferenceBrackets && |p.conferenceBrackets[0]| > 0
              && LastRound(p.conferenceBrackets[0]).matchups == [r.value]
              && !(|p.conferenceBrackets[0]| == 1 && PT.Len(p.teams) > 2)
  {
    if IsConferencePlayoff(p) then
      if !WinnersBracketStarted(p) || |p.winnersBracket| == 0
         || (|p.winnersBracket| == 1 && PT.NumConferences(p.teams) > 2) then None
      else FinalGame(LastRound(p.winnersBracket))
    else if 0 !in p.conferenceBrackets then None
    else
      var bracket := p.conferenceBrackets[0];
      if |bracket| == 0 || (|bracket| == 1 && PT.Len(p.teams) > 2) then None
      else FinalGame(LastRound(bracket))
  }

  /** The game of a round holding exactly one. */
  function FinalGame(w: Week): (r: Option<Matchup>)
    ensures r.Some? <==> |w.matchups| == 1
    ensures r.Some? ==> w.matchups == [r.value]
  {
    if |w.matchups| != 1 then None else Some(w.matchups[0])
  }

  /** `champion`: the winner of the championship game. */
  function Champion(p: SeasonPlayoffs): (r: Option<nat>)
    ensures r.Some? ==> Championship(p).Some? && Complete(Championship(p).value)
                        && SeasonMatchups.Result(Championship(p).value, r.value).Some?
  {
    match Championship(p)
    case Some(m) => Winner(m)
    case None => None
  }

  /** In complete conference playoffs the championship is the finished last
      game of the winners bracket, and the champion is its winner. */
  lemma ChampionOfCompletePlayoffs(p: SeasonPlayoffs)
    requires PlayoffsComplete(p) && IsConferencePlayoff(p)
    ensures Championship(p).Some? && Complete(Championship(p).value)
    ensures Championship(p).value == LastRound(p.winnersBracket).matchups[0]
    ensures Champion(p) == Winner(LastRound(p.winnersBracket).matchups[0])
  {
  }

  /** `in_championship`: refused for a team outside the playoffs; otherwise
      whether the team plays in the championship game. */
  function InChampionship(p: SeasonPlayoffs, id: nat): (r: Result<bool, PlayoffsError>)
    ensures r.Err? <==> !PT.Contains(p.teams, id)
    ensures r.Ok? ==> (r.value <==> Championship(p).Some? && Participated(Championship(p).value, id))
  {
    if !PT.Contains(p.teams, id) then Err(NotInPlayoffs(id))
    else match Championship(p)
      case Some(m) => Ok(m.home == id || m.away == id)
      case None => Ok(false)
  }

  /** The champion of decided playoffs played in the championship. */
  lemma ChampionInChampionship(p: SeasonPlayoffs)
    requires Champion(p).Some? && PT.Contains(p.teams, Champion(p).value)
    ensures InChampionship(p, Champion(p).value) == Ok(true)
  {
  }

  // ----- playoff records -----

  /** A round's games as the entries of a schedule. */
  function RoundGames(w: Week): (r: seq<Option<Matchup>>)
    ensures |r| == |w.matchups|
    ensures forall j :: 0 <= j < |r| ==> r[j] == Some(w.matchups[j])
  {
    seq(|w.matchups|, j requires 0 <= j < |w.matchups| => Some(w.matchups[j]))
  }

  /** The games of a bracket, round by round. */
  function BracketGames(rounds: seq<Week>): (r: seq<Option<Matchup>>)
    ensures |r| == Eliminated(rounds)
    decreases |rounds|
  {
    if |rounds| == 0 then [] else BracketGames(rounds[..|rounds| - 1]) + RoundGames(rounds[|rounds| - 1])
  }

  /** The games of the conference brackets in key order. */
  function ConferenceGames(m: map<nat, seq<Week>>, ks: seq<nat>): seq<Option<Matchup>>
    requires forall i :: 0 <= i < |ks| ==> ks[i] in m
    decreases |ks|
  {
    if |ks| == 0 then [] else ConferenceGames(m, ks[..|ks| - 1]) + BracketGames(m[ks[|ks| - 1]])
  }

  /** Every playoff game, conference brackets first. */
  function AllGames(p: SeasonPlayoffs): seq<Option<Matchup>> {
    ConferenceGames(p.conferenceBrackets, Maps.Keys(p.conferenceBrackets)) + BracketGames(p.winnersBracket)
  }

  /** `record`: refused for a team outside the playoffs; otherwise the
      team's results over every playoff game it finished. */
  function PlayoffRecord(p: SeasonPlayoffs, id: nat): (r: Result<TeamRecord, PlayoffsError>)
    ensures r.Err? <==> !PT.Contains(p.teams, id)
    ensures r.Ok? ==> Records.Games(r.value) == Counted(AllGames(p), id)
    ensures r.Ok? ==> r.value == TeamRecord(CountedAs(AllGames(p), id, Win), CountedAs(AllGames(p), id, Loss),
                                            CountedAs(AllGames(p), id, Tie))
  {
    if !PT.Contains(p.teams, id) then Err(NotInPlayoffs(id))
    else
      RecordCountsEachGame(AllGames(p), id);
      RecordCountsEachResult(AllGames(p), id);
      Ok(RecordOf(AllGames(p), id))
  }

  /** The playoff record is the record of the conference-bracket games plus
      that of the winners-bracket games. */
  lemma PlayoffRecordSplits(p: SeasonPlayoffs, id: nat)
    requires PT.Contains(p.teams, id)
    ensures PlayoffRecord(p, id).value
            == Add(RecordOf(ConferenceGames(p.conferenceBrackets, Maps.Keys(p.conferenceBrackets)), id),
                   RecordOf(BracketGames(p.winnersBracket), id))
  {
    RecordAppend(ConferenceGames(p.conferenceBrackets, Maps.Keys(p.conferenceBrackets)),
                 BracketGames(p.winnersBracket), id);
  }

  /** A team that plays no game of a bracket gets nothing from it. */
  lemma {:induction false} BracketRecordOfAbsentTeam(rounds: seq<Week>, id: nat)
    requires forall i, j :: 0 <= i < |rounds| && 0 <= j < |rounds[i].matchups| ==> !Participated(rounds[i].matchups[j], id)
    ensures RecordOf(BracketGames(rounds), id) == NewRecord()
    decreases |rounds|
  {
    if |rounds| > 0 {
      var front := rounds[..|rounds| - 1];
      var last := rounds[|rounds| - 1];
      forall i | 0 <= i < |front| ensures front[i] == rounds[i] { }
      BracketRecordOfAbsentTeam(front, id);
      RecordAppend(BracketGames(front), RoundGames(last), id);
      RoundRecordOfAbsentTeam(RoundGames(last), id, last);
    }
  }

  lemma {:induction false} RoundRecordOfAbsentTeam(es: seq<Option<Matchup>>, id: nat, w: Week)
    requires |es| <= |w.matchups|
    requires forall j :: 0 <= j < |es| ==> es[j] == Some(w.matchups[j]) && !Participated(w.matchups[j], id)
    ensures RecordOf(es, id) == NewRecord()
    decreases |es|
  {
    if |es| > 0 {
      RoundRecordOfAbsentTeam(es[..|es| - 1], id, w);
    }
  }
}
