/** A league season (src/league/season.rs): the teams taking part keyed by
    ID, the conferences they are grouped in, the weekly schedule and the
    playoffs; its validator, team admission and the conference and division
    lookups. */
module Seasons {
  import opened Wrappers
  import Team
  import opened SeasonMatchups
  import opened Weeks
  import C = Conferences
  import Playoffs

  datatype Season = Season(
    year: nat,
    teams: map<nat, Team.FootballTeam>,
    conferences: seq<C.Conference>,
    weeks: seq<Week>,
    playoffs: Playoffs.SeasonPlayoffs)

  /** What the season's checks reject. `NoTeams` is a schedule with no teams
      at all, where the source's `num_teams - 1` underflows and panics. */
  datatype SeasonError =
    | NoTeams
    | TooManyWeeks(most: nat, given: nat)
    | TooFewWeeks(least: nat, given: nat)
    | TooFewTeams(teams: nat)
    | OddTeams(teams: nat)
    | StartedOutOfOrder(week: nat)
    | CompletedOutOfOrder(week: nat)
    | UnknownHomeTeam(week: nat, matchup: nat, id: nat)
    | UnknownAwayTeam(week: nat, matchup: nat, id: nat)
    | PlaysTwice(id: nat, week: nat, matchup: nat)
    | AlreadyStarted
    | DuplicateTeam(id: nat)
    | NoSuchTeam(id: nat)

  /** A new season of the given year: no teams, conferences or weeks. */
  function New(year: nat): (s: Season)
    ensures |s.teams| == 0 && |s.weeks| == 0 && |s.conferences| == 0 && s.year == year
  {
    Season(year, map[], [], [], Playoffs.New())
  }

  // ----- progress -----

  /** `started`: some week has started. */
  predicate HasStarted(s: Season) {
    exists i :: 0 <= i < |s.weeks| && Started(s.weeks[i])
  }

  /** `regular_season_complete`: there are weeks and all are complete. */
  predicate RegularSeasonComplete(s: Season) {
    |s.weeks| > 0 && forall i :: 0 <= i < |s.weeks| ==> WeekComplete(s.weeks[i])
  }

  /** `complete`: the regular season and then the playoffs are complete. */
  predicate SeasonComplete(s: Season) {
    RegularSeasonComplete(s) && Playoffs.PlayoffsComplete(s.playoffs)
  }

  /** A finished regular season has started, and a finished season has a
      finished regular season. */
  lemma CompleteImpliesStarted(s: Season)
    ensures SeasonComplete(s) ==> RegularSeasonComplete(s)
    ensures RegularSeasonComplete(s) ==> HasStarted(s)
  {
    if RegularSeasonComplete(s) {
      Weeks.CompleteImpliesStarted(s.weeks[0]);
    }
  }

  // ----- the validator -----

  /** The IDs playing in the first `k` matchups of a week. */
  function Seen(ms: seq<Matchup>, k: nat): (r: set<nat>)
    requires k <= |ms|
    ensures forall id :: id in r <==> exists l :: 0 <= l < k && Participated(ms[l], id)
  {
    if k == 0 then {}
    else
      Seen(ms, k - 1) + {ms[k - 1].home, ms[k - 1].away}
  }

  /** Matchup `j` names two season teams, neither of which played in an
      earlier matchup of the week. */
  predicate MatchupFits(teams: map<nat, Team.FootballTeam>, ms: seq<Matchup>, j: nat)
    requires j < |ms|
  {
    ms[j].home in teams && ms[j].away in teams
    && ms[j].home !in Seen(ms, j) && ms[j].away !in Seen(ms, j)
  }

  /** Every matchup of the week fits. */
  predicate WeekFits(teams: map<nat, Team.FootballTeam>, w: Week) {
    forall j :: 0 <= j < |w.matchups| ==> MatchupFits(teams, w.matchups, j)
  }

  /** Week `i` is started, or complete, only if the week just before it is. */
  predicate InOrder(weeks: seq<Week>, i: nat)
    requires i < |weeks|
  {
    i > 0 ==> (Started(weeks[i]) ==> Started(weeks[i - 1]))
              && (WeekComplete(weeks[i]) ==> WeekComplete(weeks[i - 1]))
  }

  /** What `validate` accepts: a non-empty schedule has between `n` and
      `3 * (n - 1)` weeks for `n` teams; a started season has an even number
      of at least four teams; weeks start and finish in order; every
      matchup names season teams, none of them twice in a week. */
  predicate Valid(s: Season) {
    var n := |s.teams|;
    (|s.weeks| > 0 ==> 1 <= n && n <= |s.weeks| <= 3 * (n - 1))
    && (HasStarted(s) ==> n >= 4 && n % 2 == 0)
    && forall i :: 0 <= i < |s.weeks| ==> InOrder(s.weeks, i) && WeekFits(s.teams, s.weeks[i])
  }

  /** The matchup loop of `validate` from matchup `k` on, with the IDs of the
      earlier matchups already recorded. */
  function CheckMatchups(teams: map<nat, Team.FootballTeam>, week: nat, ms: seq<Matchup>, k: nat)
    : (r: Result<(), SeasonError>)
    requires k <= |ms|
    ensures r.Ok? <==> forall j :: k <= j < |ms| ==> MatchupFits(teams, ms, j)
    decreases |ms| - k
  {
    if k == |ms| then Ok(())
    else
      var m := ms[k];
      if MatchupFits(teams, ms, k) then CheckMatchups(teams, week, ms, k + 1)
      else if m.home !in teams then Err(UnknownHomeTeam(week, k, m.home))
      else if m.away !in teams then Err(UnknownAwayTeam(week, k, m.away))
      else if m.home in Seen(ms, k) then Err(PlaysTwice(m.home, week, k))
      else Err(PlaysTwice(m.away, week, k))
  }

  /** The week loop of `validate` from week `i` on. */
  function CheckWeeks(teams: map<nat, Team.FootballTeam>, weeks: seq<Week>, i: nat)
    : (r: Result<(), SeasonError>)
    requires i <= |weeks|
    ensures r.Ok? <==> forall j :: i <= j < |weeks| ==> InOrder(weeks, j) && WeekFits(teams, weeks[j])
    decreases |weeks| - i
  {
    if i == |weeks| then Ok(())
    else if i > 0 && !Started(weeks[i - 1]) && Started(weeks[i]) then Err(StartedOutOfOrder(i))
    else if i > 0 && !WeekComplete(weeks[i - 1]) && WeekComplete(weeks[i]) then Err(CompletedOutOfOrder(i))
    else
      var _ :- CheckMatchups(teams, i, weeks[i].matchups, 0);
      CheckWeeks(teams, weeks, i + 1)
  }

  /** `LeagueSeasonRaw::validate`: the week count, then the team count of a
      started season, then the weeks in order. */
  function Validate(s: Season): (r: Result<(), SeasonError>)
    ensures r.Ok? <==> Valid(s)
    ensures |s.weeks| > 0 && |s.teams| == 0 ==> r == Err(NoTeams)
    ensures |s.weeks| > 0 && |s.teams| > 0 && |s.weeks| > 3 * (|s.teams| - 1) ==>
              r == Err(TooManyWeeks(3 * (|s.teams| - 1), |s.weeks|))
    ensures |s.weeks| > 0 && |s.teams| > 0 && |s.weeks| <= 3 * (|s.teams| - 1) && |s.weeks| < |s.teams| ==>
              r == Err(TooFewWeeks(|s.teams|, |s.weeks|))
  {
    var n := |s.teams|;
    if |s.weeks| > 0 && n == 0 then Err(NoTeams)
    else if |s.weeks| > 0 && |s.weeks| > (n - 1) * 3 then Err(TooManyWeeks((n - 1) * 3, |s.weeks|))
    else if |s.weeks| > 0 && |s.weeks| < n then Err(TooFewWeeks(n, |s.weeks|))
    else if HasStarted(s) && n < 4 then Err(TooFewTeams(n))
    else if HasStarted(s) && n % 2 == 1 then Err(OddTeams(n))
    else CheckWeeks(s.teams, s.weeks, 0)
  }

  /** The validator only compares neighbouring weeks, but in a valid season
      every started week is preceded by started weeks only, and every
      complete week by complete weeks only. */
  lemma {:induction false} ValidWeeksInOrder(s: Season, i: nat, j: nat)
    requires Valid(s) && i <= j < |s.weeks|
    ensures Started(s.weeks[j]) ==> Started(s.weeks[i])
    ensures WeekComplete(s.weeks[j]) ==> WeekComplete(s.weeks[i])
    decreases j - i
  {
    if i < j {
      assert InOrder(s.weeks, j);
      ValidWeeksInOrder(s, i, j - 1);
    }
  }

  /** Two matchups share no team. */
  predicate MatchupsApart(a: Matchup, b: Matchup) {
    a.home != b.home && a.home != b.away && a.away != b.home && a.away != b.away
  }

  /** Every matchup of the week names season teams. */
  predicate TeamsKnown(teams: map<nat, Team.FootballTeam>, w: Week) {
    forall j :: 0 <= j < |w.matchups| ==> w.matchups[j].home in teams && w.matchups[j].away in teams
  }

  /** No two matchups of the week share a team. */
  predicate SeparateMatchups(w: Week) {
    forall j, l :: 0 <= j < l < |w.matchups| ==> MatchupsApart(w.matchups[j], w.matchups[l])
  }

  /** The validator's scan with its list of IDs seen so far accepts a week
      exactly when the week names only season teams and no team plays in
      two of its matchups. */
  lemma WeekFitsIffApart(teams: map<nat, Team.FootballTeam>, w: Week)
    ensures WeekFits(teams, w) <==> TeamsKnown(teams, w) && SeparateMatchups(w)
  {
    var ms := w.matchups;
    if WeekFits(teams, w) {
      forall j | 0 <= j < |ms| ensures ms[j].home in teams && ms[j].away in teams {
        assert MatchupFits(teams, ms, j);
      }
      forall j, l | 0 <= j < l < |ms| ensures MatchupsApart(ms[j], ms[l]) {
        assert MatchupFits(teams, ms, l);
        assert ms[j].home in Seen(ms, l) && ms[j].away in Seen(ms, l);
      }
    }
    if TeamsKnown(teams, w) && SeparateMatchups(w) {
      forall l | 0 <= l < |ms| ensures MatchupFits(teams, ms, l) {
        forall j | 0 <= j < l ensures !Participated(ms[j], ms[l].home) && !Participated(ms[j], ms[l].away) {
          assert MatchupsApart(ms[j], ms[l]);
        }
      }
      assert WeekFits(teams, w);
    }
  }

  // ----- admitting teams -----

  /** `add_team`: refused once the season has started or when the ID is
      taken; otherwise the team is inserted under that ID and nothing else
      changes. */
  function AddTeam(s: Season, id: nat, team: Team.FootballTeam): (r: Result<Season, SeasonError>)
    ensures HasStarted(s) ==> r == Err(AlreadyStarted)
    ensures !HasStarted(s) ==> (r.Err? <==> id in s.teams)
    ensures r.Ok? ==> r.value.teams == s.teams[id := team] && |r.value.teams| == |s.teams| + 1
    ensures r.Ok? ==> r.value.year == s.year && r.value.conferences == s.conferences
                      && r.value.weeks == s.weeks && r.value.playoffs == s.playoffs
  {
    if HasStarted(s) then Err(AlreadyStarted)
    else if id in s.teams then Err(DuplicateTeam(id))
    else Ok(s.(teams := s.teams[id := team]))
  }

  /** A team admitted to a valid season keeps it valid exactly when the
      schedule, if there is one, still has enough weeks for one more team:
      the weeks themselves stay in order and keep fitting. */
  lemma AddTeamKeepsValid(s: Season, id: nat, team: Team.FootballTeam)
    requires Valid(s) && AddTeam(s, id, team).Ok?
    ensures var n := |s.teams| + 1;
            Valid(AddTeam(s, id, team).value) <==> (|s.weeks| > 0 ==> n <= |s.weeks| <= 3 * (n - 1))
  {
    var s' := AddTeam(s, id, team).value;
    forall i | 0 <= i < |s.weeks| ensures WeekFits(s'.teams, s.weeks[i]) {
      assert WeekFits(s.teams, s.weeks[i]);
      forall j | 0 <= j < |s.weeks[i].matchups| ensures MatchupFits(s'.teams, s.weeks[i].matchups, j) {
        assert MatchupFits(s.teams, s.weeks[i].matchups, j);
      }
    }
  }

  // ----- conference and division lookups -----

  /** `team_conference`: the position of the first conference holding the
      team. */
  function TeamConference(s: Season, id: nat): (r: Option<nat>)
    ensures r.None? <==> forall c :: 0 <= c < |s.conferences| ==> !C.ContainsTeam(s.conferences[c], id)
    ensures r.Some? ==> r.value < |s.conferences| && C.ContainsTeam(s.conferences[r.value], id)
    ensures r.Some? ==> forall c :: 0 <= c < r.value ==> !C.ContainsTeam(s.conferences[c], id)
  {
    FirstConference(s.conferences, id, 0)
  }

  function FirstConference(cs: seq<C.Conference>, id: nat, k: nat): (r: Option<nat>)
    requires k <= |cs|
    ensures r.None? <==> forall c :: k <= c < |cs| ==> !C.ContainsTeam(cs[c], id)
    ensures r.Some? ==> k <= r.value < |cs| && C.ContainsTeam(cs[r.value], id)
    ensures r.Some? ==> forall c :: k <= c < r.value ==> !C.ContainsTeam(cs[c], id)
    decreases |cs| - k
  {
    if k == |cs| then None
    else if C.ContainsTeam(cs[k], id) then Some(k)
    else FirstConference(cs, id, k + 1)
  }

  /** `team_division`: the first conference with a division holding the
      team, and that division's position in it. */
  function TeamDivision(s: Season, id: nat): (r: Option<(nat, nat)>)
    ensures r.None? <==> forall c :: 0 <= c < |s.conferences| ==> C.TeamDivision(s.conferences[c], id).None?
    ensures r.Some? ==> r.value.0 < |s.conferences| && C.TeamDivision(s.conferences[r.value.0], id) == Some(r.value.1)
    ensures r.Some? ==> forall c :: 0 <= c < r.value.0 ==> C.TeamDivision(s.conferences[c], id).None?
  {
    FirstDivision(s.conferences, id, 0)
  }

  function FirstDivision(cs: seq<C.Conference>, id: nat, k: nat): (r: Option<(nat, nat)>)
    requires k <= |cs|
    ensures r.None? <==> forall c :: k <= c < |cs| ==> C.TeamDivision(cs[c], id).None?
    ensures r.Some? ==> k <= r.value.0 < |cs| && C.TeamDivision(cs[r.value.0], id) == Some(r.value.1)
    ensures r.Some? ==> forall c :: k <= c < r.value.0 ==> C.TeamDivision(cs[c], id).None?
    decreases |cs| - k
  {
    if k == |cs| then None
    else match C.TeamDivision(cs[k], id)
      case Some(d) => Some((k, d))
      case None => FirstDivision(cs, id, k + 1)
  }

  /** The two lookups agree: a team has a division exactly when it has a
      conference, and the division's conference is that conference. */
  lemma DivisionWithinConference(s: Season, id: nat)
    ensures TeamDivision(s, id).Some? <==> TeamConference(s, id).Some?
    ensures TeamDivision(s, id).Some? ==> TeamDivision(s, id).value.0 == TeamConference(s, id).value
  {
    var d := TeamDivision(s, id);
    var c := TeamConference(s, id);
    if d.Some? {
      assert C.ContainsTeam(s.conferences[d.value.0], id);
      forall k | 0 <= k < d.value.0 ensures !C.ContainsTeam(s.conferences[k], id) {
        assert C.TeamDivision(s.conferences[k], id).None?;
      }
    }
    if c.Some? {
      assert C.TeamDivision(s.conferences[c.value], id).Some?;
    }
  }

  /** `same_division`: both teams have a division and it is the same one. */
  predicate SameDivision(s: Season, a: nat, b: nat) {
    TeamDivision(s, a).Some? && TeamDivision(s, b).Some? && TeamDivision(s, a).value == TeamDivision(s, b).value
  }

  /** `same_conference`: both teams have a conference and it is the same one. */
  predicate SameConference(s: Season, a: nat, b: nat) {
    TeamConference(s, a).Some? && TeamConference(s, b).Some? && TeamConference(s, a).value == TeamConference(s, b).value
  }

  /** Division rivals are conference rivals; both relations are symmetric,
      and a team with no conference is nobody's rival, not even its own. */
  lemma SameDivisionImpliesSameConference(s: Season, a: nat, b: nat)
    ensures SameDivision(s, a, b) ==> SameConference(s, a, b)
    ensures SameDivision(s, a, b) <==> SameDivision(s, b, a)
    ensures SameConference(s, a, b) <==> SameConference(s, b, a)
    ensures TeamConference(s, a).None? ==> !SameConference(s, a, b) && !SameDivision(s, a, b)
  {
    DivisionWithinConference(s, a);
    DivisionWithinConference(s, b);
  }

  // ----- a team's games -----

  /** `team_matchups`: for a season team, its game in every week (none in a
      week it does not play). */
  function TeamMatchups(s: Season, id: nat): (r: Result<TeamSchedule, SeasonError>)
    ensures r.Err? <==> id !in s.teams
    ensures r.Err? ==> r.error == NoSuchTeam(id)
    ensures r.Ok? ==> r.value.team == id && |r.value.matchups| == |s.weeks|
    ensures r.Ok? ==> forall i :: 0 <= i < |s.weeks| ==> r.value.matchups[i] == TeamMatchup(s.weeks[i], id)
  {
    if id !in s.teams then Err(NoSuchTeam(id))
    else Ok(TeamSchedule(id, seq(|s.weeks|, i requires 0 <= i < |s.weeks| => TeamMatchup(s.weeks[i], id))))
  }
}
