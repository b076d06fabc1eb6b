/** A league (src/league.rs): its teams keyed by ID, the season in progress
    and the archived seasons; the validator run before a league is accepted,
    and the operations that admit teams and open seasons. */
module Leagues {
  import opened Wrappers
  import Team
  import Seasons
  import Maps
  import opened Weeks
  import opened SeasonMatchups

  /** `LeagueTeam`: a league-wide identity with a win-loss record. */
  datatype LeagueTeam = LeagueTeam(wins: nat, losses: nat)

  datatype League = League(teams: map<nat, LeagueTeam>, current: Option<Seasons.Season>, seasons: seq<Seasons.Season>)

  datatype LeagueError =
    | UnknownSeasonTeam(year: nat, id: nat)
    | SeasonInProgress
    | NoSuchTeam(id: nat)
    | NoCurrentSeason
    | SeasonRefused(error: Seasons.SeasonError)

  /** `League::new`: no teams and no seasons. */
  function NewLeague(): (l: League)
    ensures |l.teams| == 0 && l.current.None? && |l.seasons| == 0
  {
    League(map[], None, [])
  }

  // ----- validation -----

  /** Every team of the season is a league team. */
  predicate Knows(teams: map<nat, LeagueTeam>, s: Seasons.Season) {
    forall id :: id in s.teams ==> id in teams
  }

  /** What `LeagueRaw::validate` accepts: the current season and every past
      season name league teams only. */
  predicate WellFormed(l: League) {
    (l.current.Some? ==> Knows(l.teams, l.current.value))
    && forall k :: 0 <= k < |l.seasons| ==> Knows(l.teams, l.seasons[k])
  }

  /** The first team ID of the season, in key order, that the league does
      not know. */
  function FirstUnknown(teams: map<nat, LeagueTeam>, s: Seasons.Season): (r: Option<nat>)
    ensures r.None? <==> Knows(teams, s)
    ensures r.Some? ==> r.value in s.teams && r.value !in teams
    ensures r.Some? ==> forall id :: id in s.teams && id !in teams ==> r.value <= id
  {
    var missing := s.teams.Keys - teams.Keys;
    assert missing == {} <==> Knows(teams, s) by {
      if !Knows(teams, s) {
        var id :| id in s.teams && id !in teams;
        assert id in missing;
      }
    }
    assert forall id :: id in s.teams && id !in teams ==> id in missing;
    if missing == {} then None else Some(Maps.Min(missing))
  }

  /** The past seasons in order, stopping at the first that names a team
      the league does not know. */
  function CheckSeasons(teams: map<nat, LeagueTeam>, seasons: seq<Seasons.Season>): (r: Result<(), LeagueError>)
    ensures r.Ok? <==> forall k :: 0 <= k < |seasons| ==> Knows(teams, seasons[k])
    ensures r.Err? ==> exists k :: 0 <= k < |seasons| && !Knows(teams, seasons[k])
                        && (forall j :: 0 <= j < k ==> Knows(teams, seasons[j]))
                        && r.error == UnknownSeasonTeam(seasons[k].year, FirstUnknown(teams, seasons[k]).value)
    decreases |seasons|
  {
    if |seasons| == 0 then Ok(())
    else match FirstUnknown(teams, seasons[0])
      case Some(id) => Err(UnknownSeasonTeam(seasons[0].year, id))
      case None =>
        var rest := CheckSeasons(teams, seasons[1..]);
        if rest.Err? then
          var k :| 0 <= k < |seasons| - 1 && !Knows(teams, seasons[1..][k])
                   && (forall j :: 0 <= j < k ==> Knows(teams, seasons[1..][j]))
                   && rest.error == UnknownSeasonTeam(seasons[1..][k].year, FirstUnknown(teams, seasons[1..][k]).value);
          assert forall j :: 1 <= j < k + 1 ==> seasons[j] == seasons[1..][j - 1];
          rest
        else
          assert forall k :: 1 <= k < |seasons| ==> seasons[k] == seasons[1..][k - 1];
          rest
  }

  /** `LeagueRaw::validate`: the current season first, then the past
      seasons in order; the first unknown team ID found is reported with
      its season's year. `League::try_from` accepts exactly what this does. */
  function Validate(raw: League): (r: Result<(), LeagueError>)
    ensures r.Ok? <==> WellFormed(raw)
    ensures raw.current.Some? && !Knows(raw.teams, raw.current.value) ==>
              r == Err(UnknownSeasonTeam(raw.current.value.year, FirstUnknown(raw.teams, raw.current.value).value))
  {
    match raw.current
    case Some(s) =>
      (match FirstUnknown(raw.teams, s)
       case Some(id) => Err(UnknownSeasonTeam(s.year, id))
       case None => CheckSeasons(raw.teams, raw.seasons))
    case None => CheckSeasons(raw.teams, raw.seasons)
  }

  // ----- teams -----

  /** The ID `add_team` gives the next team: 0 in an empty league, one past
      the largest ID otherwise. */
  function NextTeamId(teams: map<nat, LeagueTeam>): (id: nat)
    ensures id !in teams
    ensures |teams| == 0 ==> id == 0
    ensures |teams| > 0 ==> id - 1 in teams && forall k :: k in teams ==> k < id
  {
    if |teams| == 0 then 0
    else
      assert teams.Keys != {} by {
        var k :| k in teams;
      }
      Maps.Max(teams.Keys) + 1
  }

  /** `add_team`: a new team with no wins or losses under the next ID. */
  function AddTeam(l: League): (r: League)
    ensures r.current == l.current && r.seasons == l.seasons
    ensures r.teams.Keys == l.teams.Keys + {NextTeamId(l.teams)}
    ensures |r.teams| == |l.teams| + 1
    ensures forall id :: id in l.teams ==> id in r.teams && r.teams[id] == l.teams[id]
    ensures forall id :: id in r.teams && id !in l.teams ==> r.teams[id] == LeagueTeam(0, 0)
  {
    l.(teams := l.teams[NextTeamId(l.teams) := LeagueTeam(0, 0)])
  }

  /** Adding teams one after another numbers them 0, 1, 2, … from an
      empty league. */
  lemma {:induction false} AddTeamsNumbersInOrder(l: League, n: nat)
    requires |l.teams| == 0
    ensures AddTeams(l, n).teams.Keys == Below(n)
    decreases n
  {
    if n > 0 {
      AddTeamsNumbersInOrder(l, n - 1);
      var before := AddTeams(l, n - 1);
      NextIdAfterRange(before.teams, n - 1);
    }
  }

  /** The IDs `0 .. n - 1`. */
  function Below(n: nat): (r: set<nat>)
    ensures forall id: nat :: id in r <==> id < n
    decreases n
  {
    if n == 0 then {} else Below(n - 1) + {n - 1}
  }

  /** When the IDs are exactly `0 .. n - 1`, the next one is `n`. */
  lemma NextIdAfterRange(teams: map<nat, LeagueTeam>, n: nat)
    requires teams.Keys == Below(n)
    ensures NextTeamId(teams) == n
  {
    var m := NextTeamId(teams);
    if n > 0 {
      assert n - 1 in teams;
      assert |teams| > 0;
      assert m - 1 in teams;
    } else {
      assert teams.Keys == {};
      assert |teams| == 0;
    }
  }

  /** `n` calls of `add_team`. */
  function AddTeams(l: League, n: nat): (r: League)
    ensures |r.teams| == |l.teams| + n
    decreases n
  {
    if n == 0 then l else AddTeam(AddTeams(l, n - 1))
  }

  /** Admitting a team keeps a well-formed league well-formed: the teams
      only grow. */
  lemma AddTeamKeepsWellFormed(l: League)
    requires WellFormed(l)
    ensures WellFormed(AddTeam(l))
  {
    var r := AddTeam(l);
    forall k | 0 <= k < |r.seasons| ensures Knows(r.teams, r.seasons[k]) {
      assert Knows(l.teams, l.seasons[k]);
    }
  }

  // ----- seasons -----

  /** The position of the first season of the given year. */
  function FindYear(seasons: seq<Seasons.Season>, year: nat): (r: Option<nat>)
    ensures r.None? <==> forall k :: 0 <= k < |seasons| ==> seasons[k].year != year
    ensures r.Some? ==> r.value < |seasons| && seasons[r.value].year == year
                        && forall k :: 0 <= k < r.value ==> seasons[k].year != year
    decreases |seasons|
  {
    if |seasons| == 0 then None
    else if seasons[0].year == year then Some(0)
    else
      match FindYear(seasons[1..], year)
      case None => None
      case Some(k) => Some(k + 1)
  }

  /** `season(year)`: the current season when it has that year, otherwise
      the first past season with it. */
  function SeasonOf(l: League, year: nat): (r: Option<Seasons.Season>)
    ensures l.current.Some? && l.current.value.year == year ==> r == l.current
    ensures r.None? <==> (l.current.None? || l.current.value.year != year)
                         && forall k :: 0 <= k < |l.seasons| ==> l.seasons[k].year != year
    ensures r.Some? && r != l.current ==>
              exists k :: 0 <= k < |l.seasons| && r.value == l.seasons[k] && forall j :: 0 <= j < k ==> l.seasons[j].year != year
    ensures r.Some? ==> r.value.year == year
  {
    if l.current.Some? && l.current.value.year == year then l.current
    else match FindYear(l.seasons, year)
      case None => None
      case Some(k) => Some(l.seasons[k])
  }

  /** `week(year, week)`: that week of that season, when both exist. */
  function WeekOf(l: League, year: nat, week: nat): (r: Option<Week>)
    ensures r.Some? <==> SeasonOf(l, year).Some? && week < |SeasonOf(l, year).value.weeks|
    ensures r.Some? ==> r.value == SeasonOf(l, year).value.weeks[week]
  {
    match SeasonOf(l, year)
    case None => None
    case Some(s) => if week < |s.weeks| then Some(s.weeks[week]) else None
  }

  /** `matchup(year, week, matchup)`: that matchup of that week, when all
      three exist. */
  function MatchupOf(l: League, year: nat, week: nat, matchup: nat): (r: Option<Matchup>)
    ensures r.Some? <==> WeekOf(l, year, week).Some? && matchup < |WeekOf(l, year, week).value.matchups|
    ensures r.Some? ==> r.value == WeekOf(l, year, week).value.matchups[matchup]
  {
    match WeekOf(l, year, week)
    case None => None
    case Some(w) => if matchup < |w.matchups| then Some(w.matchups[matchup]) else None
  }

  /** The largest year among the seasons, 0 when there are none. */
  function LatestYear(seasons: seq<Seasons.Season>): (y: nat)
    ensures forall k :: 0 <= k < |seasons| ==> seasons[k].year <= y
    ensures |seasons| > 0 ==> exists k :: 0 <= k < |seasons| && seasons[k].year == y
    ensures |seasons| == 0 ==> y == 0
    decreases |seasons|
  {
    if |seasons| == 0 then 0
    else
      var front := seasons[..|seasons| - 1];
      var last := seasons[|seasons| - 1].year;
      var m := LatestYear(front);
      assert forall k :: 0 <= k < |front| ==> seasons[k] == front[k];
      if last > m then last else m
  }

  /** `most_recent_year`: a running maximum over the past seasons, from 0. */
  method MostRecentYear(seasons: seq<Seasons.Season>) returns (y: nat)
    ensures y == LatestYear(seasons)
    ensures forall k :: 0 <= k < |seasons| ==> seasons[k].year <= y
  {
    y := 0;
    var i := 0;
    while i < |seasons|
      invariant 0 <= i <= |seasons|
      invariant y == LatestYear(seasons[..i])
    {
      assert seasons[..i + 1][..i] == seasons[..i];
      if seasons[i].year > y {
        y := seasons[i].year;
      }
      i := i + 1;
    }
    assert seasons[..|seasons|] == seasons;
  }

  /** `add_season`. A current season still in progress is refused. A
      complete one is archived and followed by a new season one year
      later. Without a current season, the new season takes the year of
      the clock (`clockYear`, the default year of `LeagueSeason::new`) when
      nothing is archived, and one past the latest archived year
      otherwise. */
  function AddSeason(l: League, clockYear: nat): (r: Result<League, LeagueError>)
    ensures r.Err? <==> l.current.Some? && !Seasons.SeasonComplete(l.current.value)
    ensures r.Err? ==> r.error == SeasonInProgress
    ensures r.Ok? ==> r.value.teams == l.teams && r.value.current.Some?
                      && r.value.current.value == Seasons.New(r.value.current.value.year)
    ensures r.Ok? && l.current.Some? ==> r.value.seasons == l.seasons + [l.current.value]
                                         && r.value.current.value.year == l.current.value.year + 1
    ensures r.Ok? && l.current.None? ==> r.value.seasons == l.seasons
    ensures r.Ok? && l.current.None? && |l.seasons| == 0 ==> r.value.current.value.year == clockYear
    ensures r.Ok? && l.current.None? && |l.seasons| > 0 ==>
              (forall k :: 0 <= k < |l.seasons| ==> l.seasons[k].year < r.value.current.value.year)
              && exists k :: 0 <= k < |l.seasons| && l.seasons[k].year + 1 == r.value.current.value.year
  {
    match l.current
    case Some(s) =>
      if Seasons.SeasonComplete(s) then Ok(l.(current := Some(Seasons.New(s.year + 1)), seasons := l.seasons + [s]))
      else Err(SeasonInProgress)
    case None =>
      if |l.seasons| == 0 then Ok(l.(current := Some(Seasons.New(clockYear))))
      else Ok(l.(current := Some(Seasons.New(LatestYear(l.seasons) + 1))))
  }

  /** Every archived season is of an earlier year than the current one. */
  predicate YearsBelowCurrent(l: League) {
    l.current.Some? ==> forall k :: 0 <= k < |l.seasons| ==> l.seasons[k].year < l.current.value.year
  }

  /** Opening a season keeps the league well-formed, and keeps every
      archived year below the current one, so `season(year)` for an
      archived year never meets the current season first. */
  lemma AddSeasonKeepsInvariants(l: League, clockYear: nat)
    requires WellFormed(l) && YearsBelowCurrent(l) && AddSeason(l, clockYear).Ok?
    ensures WellFormed(AddSeason(l, clockYear).value)
    ensures YearsBelowCurrent(AddSeason(l, clockYear).value)
  {
    var r := AddSeason(l, clockYear).value;
    if l.current.Some? {
      forall k | 0 <= k < |r.seasons| ensures Knows(r.teams, r.seasons[k]) && r.seasons[k].year < r.current.value.year {
        if k < |l.seasons| { assert r.seasons[k] == l.seasons[k]; }
      }
    }
  }

  /** Opening a season while one is in progress is refused whatever the
      clock says, and a retry is refused the same way. */
  lemma InProgressRefusedAgain(l: League, clockYear: nat, laterYear: nat)
    requires l.current.Some? && l.current.value.weeks == [] && AddSeason(l, clockYear).Err?
    ensures AddSeason(l, laterYear) == Err(SeasonInProgress)
  {
  }

  /** `add_season_team`: refused for an ID the league does not know, then
      when there is no current season; otherwise the current season's
      `add_team` decides. */
  function AddSeasonTeam(l: League, id: nat, team: Team.FootballTeam): (r: Result<League, LeagueError>)
    ensures id !in l.teams ==> r == Err(NoSuchTeam(id))
    ensures id in l.teams && l.current.None? ==> r == Err(NoCurrentSeason)
    ensures id in l.teams && l.current.Some? && Seasons.AddTeam(l.current.value, id, team).Err? ==>
              r == Err(SeasonRefused(Seasons.AddTeam(l.current.value, id, team).error))
    ensures r.Ok? ==> r.value.teams == l.teams && r.value.seasons == l.seasons && r.value.current.Some?
                      && r.value.current.value.teams == l.current.value.teams[id := team]
  {
    if id !in l.teams then Err(NoSuchTeam(id))
    else match l.current
      case None => Err(NoCurrentSeason)
      case Some(s) =>
        match Seasons.AddTeam(s, id, team)
        case Err(e) => Err(SeasonRefused(e))
        case Ok(s') => Ok(l.(current := Some(s')))
  }

  /** Only league teams get into the current season, so a well-formed
      league stays well-formed. */
  lemma AddSeasonTeamKeepsWellFormed(l: League, id: nat, team: Team.FootballTeam)
    requires WellFormed(l) && AddSeasonTeam(l, id, team).Ok?
    ensures WellFormed(AddSeasonTeam(l, id, team).value)
  {
  }
}
