/** The guards of the season simulators in src/league/season.rs
    (`sim_play`, `sim_matchup`, `sim_week`): which week and matchup may be
    simulated, and what the season looks like afterwards. The game
    simulation itself is a parameter: a step that takes the matchup and
    returns it with its new context, or fails. */
module SeasonSims {
  import opened Wrappers
  import opened SeasonMatchups
  import opened Weeks
  import Seasons
  import Games
  import Team

  datatype SimRefusal =
    | PreviousWeekMissing(week: nat)
    | PreviousWeekIncomplete(week: nat)
    | NoSuchWeek(week: nat)
    | NoSuchMatchup(week: nat, matchup: nat)
    | MatchupComplete(week: nat, matchup: nat)
    | UnknownHome(week: nat, matchup: nat, id: nat)
    | UnknownAway(week: nat, matchup: nat, id: nat)
    | WeekAlreadyComplete(week: nat)
    | GameFailed

  /** The game simulation of one matchup. */
  type Step = Matchup -> Result<Matchup, SimRefusal>

  /** Week `week` may be played: it is the first week, or the week before
      it exists and is complete. */
  predicate MayPlay(s: Seasons.Season, week: nat) {
    week > 0 ==> week - 1 < |s.weeks| && WeekComplete(s.weeks[week - 1])
  }

  /** The checks shared by `sim_play` and `sim_matchup`, in the source's
      order: the previous week exists and is complete, the week and the
      matchup exist, the matchup is not over, and both its teams are
      season teams. */
  function MatchupGuard(s: Seasons.Season, week: nat, matchup: nat): (r: Result<Matchup, SimRefusal>)
    ensures r.Ok? <==> MayPlay(s, week) && week < |s.weeks| && matchup < |s.weeks[week].matchups|
                       && !Complete(s.weeks[week].matchups[matchup])
                       && s.weeks[week].matchups[matchup].home in s.teams
                       && s.weeks[week].matchups[matchup].away in s.teams
    ensures r.Ok? ==> r.value == s.weeks[week].matchups[matchup]
    ensures week > 0 && week - 1 >= |s.weeks| ==> r == Err(PreviousWeekMissing(week - 1))
    ensures week > 0 && week - 1 < |s.weeks| && !WeekComplete(s.weeks[week - 1]) ==> r == Err(PreviousWeekIncomplete(week - 1))
    ensures MayPlay(s, week) && week >= |s.weeks| ==> r == Err(NoSuchWeek(week))
  {
    if week > 0 && week - 1 >= |s.weeks| then Err(PreviousWeekMissing(week - 1))
    else if week > 0 && !WeekComplete(s.weeks[week - 1]) then Err(PreviousWeekIncomplete(week - 1))
    else if week >= |s.weeks| then Err(NoSuchWeek(week))
    else if matchup >= |s.weeks[week].matchups| then Err(NoSuchMatchup(week, matchup))
    else
      var m := s.weeks[week].matchups[matchup];
      if Complete(m) then Err(MatchupComplete(week, matchup))
      else if m.home !in s.teams then Err(UnknownHome(week, matchup, m.home))
      else if m.away !in s.teams then Err(UnknownAway(week, matchup, m.away))
      else Ok(m)
  }

  /** The season with matchup `j` of week `i` replaced. */
  function Replace(s: Seasons.Season, i: nat, j: nat, m: Matchup): (r: Seasons.Season)
    requires i < |s.weeks| && j < |s.weeks[i].matchups|
    ensures r == s.(weeks := r.weeks) && |r.weeks| == |s.weeks|
    ensures forall k :: 0 <= k < |s.weeks| && k != i ==> r.weeks[k] == s.weeks[k]
    ensures |r.weeks[i].matchups| == |s.weeks[i].matchups| && r.weeks[i].matchups[j] == m
    ensures forall l :: 0 <= l < |s.weeks[i].matchups| && l != j ==> r.weeks[i].matchups[l] == s.weeks[i].matchups[l]
  {
    s.(weeks := s.weeks[i := Week(s.weeks[i].matchups[j := m])])
  }

  /** `sim_matchup`: after the guard, the whole game is simulated and the
      matchup takes the final context. */
  function SimMatchup(s: Seasons.Season, week: nat, matchup: nat, game: Step): (r: Result<Seasons.Season, SimRefusal>)
    ensures MatchupGuard(s, week, matchup).Err? ==> r == Err(MatchupGuard(s, week, matchup).error)
    ensures r.Ok? ==> week < |s.weeks| && matchup < |s.weeks[week].matchups|
                      && game(s.weeks[week].matchups[matchup]).Ok?
                      && r.value == Replace(s, week, matchup, game(s.weeks[week].matchups[matchup]).value)
  {
    var m :- MatchupGuard(s, week, matchup);
    var m' :- game(m);
    Ok(Replace(s, week, matchup, m'))
  }

  /** The matchup with an empty game record when it had none. */
  function Opened(m: Matchup): (r: Matchup)
    ensures r.home == m.home && r.away == m.away && r.context == m.context && r.game.Some?
  {
    if m.game.None? then m.(game := Some(Games.NewGame())) else m
  }

  /** `sim_play`: after the guard, the matchup gets an empty game record if
      it has none, then one play is simulated. The empty record stays even
      when the play fails. */
  function SimPlay(s: Seasons.Season, week: nat, matchup: nat, play: Step): (r: (Seasons.Season, Option<SimRefusal>))
    ensures MatchupGuard(s, week, matchup).Err? ==> r == (s, Some(MatchupGuard(s, week, matchup).error))
    ensures MatchupGuard(s, week, matchup).Ok? && play(Opened(s.weeks[week].matchups[matchup])).Ok? ==>
              r == (Replace(s, week, matchup, play(Opened(s.weeks[week].matchups[matchup])).value), None)
    ensures MatchupGuard(s, week, matchup).Ok? && play(Opened(s.weeks[week].matchups[matchup])).Err? ==>
              r == (Replace(s, week, matchup, Opened(s.weeks[week].matchups[matchup])),
                    Some(play(Opened(s.weeks[week].matchups[matchup])).error))
  {
    match MatchupGuard(s, week, matchup)
    case Err(e) => (s, Some(e))
    case Ok(m) =>
      var withGame := Opened(m);
      match play(withGame)
      case Err(e) => (Replace(s, week, matchup, withGame), Some(e))
      case Ok(m') => (Replace(s, week, matchup, m'), None)
  }

  /** The matchup loop of `sim_week` from matchup `k` on: finished
      matchups are skipped; for the others both teams must be season
      teams, and the game is simulated. The first refusal stops the loop
      and the matchups simulated before it keep their results. */
  function SimMatchupsFrom(teams: map<nat, Team.FootballTeam>, week: nat, ms: seq<Matchup>, k: nat, game: Step)
    : (r: (seq<Matchup>, Option<SimRefusal>))
    requires k <= |ms|
    ensures |r.0| == |ms|
    ensures forall l :: 0 <= l < k ==> r.0[l] == ms[l]
    decreases |ms| - k
  {
    if k == |ms| then (ms, None)
    else if Complete(ms[k]) then SimMatchupsFrom(teams, week, ms, k + 1, game)
    else if ms[k].home !in teams then (ms, Some(UnknownHome(week, k, ms[k].home)))
    else if ms[k].away !in teams then (ms, Some(UnknownAway(week, k, ms[k].away)))
    else match game(ms[k])
      case Err(e) => (ms, Some(e))
      case Ok(m) => SimMatchupsFrom(teams, week, ms[k := m], k + 1, game)
  }

  /** `sim_week`: the previous week exists and is complete, the week exists
      and is not complete yet; then every unfinished matchup is played in
      order. */
  function SimWeek(s: Seasons.Season, week: nat, game: Step): (r: (Seasons.Season, Option<SimRefusal>))
    ensures week > 0 && week - 1 >= |s.weeks| ==> r == (s, Some(PreviousWeekMissing(week - 1)))
    ensures week > 0 && week - 1 < |s.weeks| && !WeekComplete(s.weeks[week - 1]) ==> r == (s, Some(PreviousWeekIncomplete(week - 1)))
    ensures MayPlay(s, week) && week >= |s.weeks| ==> r == (s, Some(NoSuchWeek(week)))
    ensures MayPlay(s, week) && week < |s.weeks| && WeekComplete(s.weeks[week]) ==> r == (s, Some(WeekAlreadyComplete(week)))
    ensures r.0 == s.(weeks := r.0.weeks) && |r.0.weeks| == |s.weeks|
    ensures forall k :: 0 <= k < |s.weeks| && k != week ==> r.0.weeks[k] == s.weeks[k]
  {
    if week > 0 && week - 1 >= |s.weeks| then (s, Some(PreviousWeekMissing(week - 1)))
    else if week > 0 && !WeekComplete(s.weeks[week - 1]) then (s, Some(PreviousWeekIncomplete(week - 1)))
    else if week >= |s.weeks| then (s, Some(NoSuchWeek(week)))
    else if WeekComplete(s.weeks[week]) then (s, Some(WeekAlreadyComplete(week)))
    else
      var out := SimMatchupsFrom(s.teams, week, s.weeks[week].matchups, 0, game);
      (s.(weeks := s.weeks[week := Week(out.0)]), out.1)
  }

  // ----- what the simulators keep -----

  /** The game step keeps the two teams of the matchup. */
  ghost predicate KeepsTeams(game: Step) {
    forall m :: game(m).Ok? ==> game(m).value.home == m.home && game(m).value.away == m.away
  }

  /** The game step plays the game to its end. */
  ghost predicate Finishes(game: Step) {
    forall m :: game(m).Ok? ==> Complete(game(m).value)
  }

  /** The rule of `validate` that weeks start and finish in order, with
      every week naming season teams, none twice. */
  predicate Progression(s: Seasons.Season) {
    forall i :: 0 <= i < |s.weeks| ==> Seasons.InOrder(s.weeks, i) && Seasons.WeekFits(s.teams, s.weeks[i])
  }

  /** Two lists of matchups pair the same teams, place by place. */
  predicate SameTeams(a: seq<Matchup>, b: seq<Matchup>) {
    |a| == |b| && forall l :: 0 <= l < |a| ==> a[l].home == b[l].home && a[l].away == b[l].away
  }

  lemma {:induction false} SeenSame(a: seq<Matchup>, b: seq<Matchup>, k: nat)
    requires SameTeams(a, b) && k <= |a|
    ensures Seasons.Seen(a, k) == Seasons.Seen(b, k)
    decreases k
  {
    if k > 0 {
      SeenSame(a, b, k - 1);
    }
  }

  /** Whether a week fits the validator depends on its pairings only. */
  lemma WeekFitsSameTeams(teams: map<nat, Team.FootballTeam>, a: seq<Matchup>, b: seq<Matchup>)
    requires SameTeams(a, b) && Seasons.WeekFits(teams, Week(a))
    ensures Seasons.WeekFits(teams, Week(b))
  {
    forall j | 0 <= j < |b| ensures Seasons.MatchupFits(teams, b, j) {
      SeenSame(a, b, j);
      assert Seasons.MatchupFits(teams, a, j);
    }
  }

  /** Replacing an unfinished matchup of a playable week by one with the
      same teams keeps the progression rule: the week before is complete,
      so the week may start or finish, and the week after cannot have
      finished while this matchup was open. */
  lemma ReplaceKeepsProgression(s: Seasons.Season, i: nat, j: nat, m: Matchup)
    requires Progression(s) && MayPlay(s, i) && i < |s.weeks| && j < |s.weeks[i].matchups|
    requires !Complete(s.weeks[i].matchups[j])
    requires m.home == s.weeks[i].matchups[j].home && m.away == s.weeks[i].matchups[j].away
    ensures Progression(Replace(s, i, j, m))
  {
    var r := Replace(s, i, j, m);
    var old_ms := s.weeks[i].matchups;
    var new_ms := r.weeks[i].matchups;
    assert SameTeams(old_ms, new_ms);
    WeekFitsSameTeams(s.teams, old_ms, new_ms);
    assert !WeekComplete(s.weeks[i]);
    StartedStays(old_ms, new_ms, j);
    if i > 0 {
      Weeks.CompleteImpliesStarted(s.weeks[i - 1]);
    }
    forall k | 0 <= k < |r.weeks| ensures Seasons.InOrder(r.weeks, k) && Seasons.WeekFits(r.teams, r.weeks[k]) {
      assert Seasons.InOrder(s.weeks, k);
      if k == i + 1 {
        assert Started(r.weeks[k]) ==> Started(s.weeks[i]);
      }
    }
  }

  /** A week that had started stays started when an unfinished matchup of
      it is replaced. */
  lemma StartedStays(a: seq<Matchup>, b: seq<Matchup>, j: nat)
    requires |a| == |b| && j < |a| && !Complete(a[j])
    requires forall l :: 0 <= l < |a| && l != j ==> b[l] == a[l]
    ensures Started(Week(a)) ==> Started(Week(b))
  {
    if Started(Week(a)) {
      var l :| 0 <= l < |a| && Complete(a[l]);
      assert b[l] == a[l];
    }
  }

  /** `sim_matchup` keeps the progression rule of the validator. */
  lemma SimMatchupKeepsProgression(s: Seasons.Season, week: nat, matchup: nat, game: Step)
    requires Progression(s) && KeepsTeams(game) && SimMatchup(s, week, matchup, game).Ok?
    ensures Progression(SimMatchup(s, week, matchup, game).value)
  {
    var m := s.weeks[week].matchups[matchup];
    ReplaceKeepsProgression(s, week, matchup, game(m).value);
  }

  /** `sim_play` keeps the progression rule whether the play succeeds or
      fails. */
  lemma SimPlayKeepsProgression(s: Seasons.Season, week: nat, matchup: nat, play: Step)
    requires Progression(s) && KeepsTeams(play)
    ensures Progression(SimPlay(s, week, matchup, play).0)
  {
    if MatchupGuard(s, week, matchup).Ok? {
      var withGame := Opened(s.weeks[week].matchups[matchup]);
      if play(withGame).Ok? {
        ReplaceKeepsProgression(s, week, matchup, play(withGame).value);
      } else {
        ReplaceKeepsProgression(s, week, matchup, withGame);
      }
    }
  }

  /** A full simulation of an unfinished matchup finishes the game: the
      week has started afterwards. */
  lemma SimMatchupStartsWeek(s: Seasons.Season, week: nat, matchup: nat, game: Step)
    requires Finishes(game) && SimMatchup(s, week, matchup, game).Ok?
    ensures Started(SimMatchup(s, week, matchup, game).value.weeks[week])
    ensures Complete(SimMatchup(s, week, matchup, game).value.weeks[week].matchups[matchup])
  {
  }

  /** The matchup loop keeps the pairings, and every matchup it leaves
      unfinished lies at or past the one it stopped at. */
  lemma {:induction false} SimMatchupsFromKeeps(teams: map<nat, Team.FootballTeam>, week: nat, ms: seq<Matchup>, k: nat, game: Step)
    requires k <= |ms| && KeepsTeams(game) && Finishes(game)
    ensures SameTeams(ms, SimMatchupsFrom(teams, week, ms, k, game).0)
    ensures SimMatchupsFrom(teams, week, ms, k, game).1.None? ==>
              forall l :: k <= l < |ms| ==> Complete(SimMatchupsFrom(teams, week, ms, k, game).0[l])
    ensures forall l :: 0 <= l < |ms| && Complete(ms[l]) ==> Complete(SimMatchupsFrom(teams, week, ms, k, game).0[l])
    decreases |ms| - k
  {
    if k < |ms| && !Complete(ms[k]) && ms[k].home in teams && ms[k].away in teams && game(ms[k]).Ok? {
      var next := ms[k := game(ms[k]).value];
      SimMatchupsFromKeeps(teams, week, next, k + 1, game);
      assert SameTeams(ms, next);
    } else if k < |ms| && Complete(ms[k]) {
      SimMatchupsFromKeeps(teams, week, ms, k + 1, game);
    }
  }

  /** A week simulated without refusal is complete when it has games, and
      the simulation keeps the progression rule whether it finishes or
      stops part way. */
  lemma SimWeekKeepsProgression(s: Seasons.Season, week: nat, game: Step)
    requires Progression(s) && KeepsTeams(game) && Finishes(game)
    ensures Progression(SimWeek(s, week, game).0)
    ensures SimWeek(s, week, game).1.None? && |s.weeks[week].matchups| > 0 ==> WeekComplete(SimWeek(s, week, game).0.weeks[week])
  {
    var r := SimWeek(s, week, game);
    if MayPlay(s, week) && week < |s.weeks| && !WeekComplete(s.weeks[week]) {
      var ms := s.weeks[week].matchups;
      var out := SimMatchupsFrom(s.teams, week, ms, 0, game);
      SimMatchupsFromKeeps(s.teams, week, ms, 0, game);
      WeekFitsSameTeams(s.teams, ms, out.0);
      if week > 0 {
        Weeks.CompleteImpliesStarted(s.weeks[week - 1]);
      }
      forall k | 0 <= k < |r.0.weeks| ensures Seasons.InOrder(r.0.weeks, k) && Seasons.WeekFits(r.0.teams, r.0.weeks[k]) {
        assert Seasons.InOrder(s.weeks, k);
        if k == week + 1 {
          StartedKept(ms, out.0);
          CompleteOnlyIfAll(s.weeks[week], s.weeks[k]);
        }
      }
    }
  }

  /** A week with a finished game keeps it after the loop. */
  lemma StartedKept(a: seq<Matchup>, b: seq<Matchup>)
    requires |a| == |b| && forall l :: 0 <= l < |a| && Complete(a[l]) ==> Complete(b[l])
    ensures Started(Week(a)) ==> Started(Week(b))
  {
    if Started(Week(a)) {
      var l :| 0 <= l < |a| && Complete(a[l]);
      assert Complete(b[l]);
    }
  }

  /** In an ordered schedule, a week after an unfinished week is itself
      unfinished. */
  lemma CompleteOnlyIfAll(w: Week, next: Week)
    requires !WeekComplete(w) && (WeekComplete(next) ==> WeekComplete(w))
    ensures !WeekComplete(next)
  {
  }

  /** With an even field of at least four, every simulator keeps a valid
      season valid: the remaining rules of the validator (week counts and
      team count) do not look at results. */
  lemma SimMatchupKeepsValid(s: Seasons.Season, week: nat, matchup: nat, game: Step)
    requires Seasons.Valid(s) && |s.teams| >= 4 && |s.teams| % 2 == 0
    requires KeepsTeams(game) && SimMatchup(s, week, matchup, game).Ok?
    ensures Seasons.Valid(SimMatchup(s, week, matchup, game).value)
  {
    SimMatchupKeepsProgression(s, week, matchup, game);
  }
}
