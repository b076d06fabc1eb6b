/** Turning the pairings of the schedulers into the weeks of a season
    (src/league/season.rs, `generate_round_robin_schedule` and
    `generate_structured_schedule`): each game becomes a fresh matchup
    named after the two teams, and the weeks replace the season's. */
module SeasonSchedules {
  import opened Wrappers
  import Ids
  import Maps
  import Team
  import opened SeasonMatchups
  import opened Weeks
  import opened Schedules
  import Seasons

  type Teams = map<nat, Team.FootballTeam>

  /** A season team whose short name the game context accepts. */
  predicate Named(teams: Teams, id: nat) {
    id in teams && |teams[id].shortName| <= Team.MaxShortNameLength
  }

  /** Every team of every game is such a team. */
  predicate AllNamed(teams: Teams, games: seq<Pair>) {
    forall i :: 0 <= i < |games| ==> Named(teams, games[i].0) && Named(teams, games[i].1)
  }

  /** The week holds one unfinished matchup per game, in order, with the
      game's home and away teams. */
  predicate Realizes(w: Week, games: seq<Pair>) {
    |w.matchups| == |games|
    && forall i :: 0 <= i < |games| ==>
         w.matchups[i].home == games[i].0 && w.matchups[i].away == games[i].1 && !Complete(w.matchups[i])
  }

  /** A new week with a matchup per game. The short names are looked up
      with `unwrap` and the matchup constructor unwraps the context, so an
      unknown team or a long short name panics, which is `None` here. */
  function BuildWeek(teams: Teams, games: seq<Pair>, flips: nat -> bool): (r: Option<Week>)
    ensures r.Some? <==> AllNamed(teams, games)
    ensures r.Some? ==> Realizes(r.value, games)
  {
    if !AllNamed(teams, games) then None
    else
      var fs := seq(|games|, i requires 0 <= i < |games| && AllNamed(teams, games) =>
                  Fixture(games[i].0, games[i].1, teams[games[i].0].shortName, teams[games[i].1].shortName));
      FromFixtures(fs, flips)
  }

  /** One week per list of games; week `k` uses the coin flips `flips(k)`. */
  function BuildWeeks(teams: Teams, gs: seq<seq<Pair>>, flips: nat -> nat -> bool): (r: Option<seq<Week>>)
    ensures r.Some? <==> forall k :: 0 <= k < |gs| ==> AllNamed(teams, gs[k])
    ensures r.Some? ==> |r.value| == |gs| && forall k :: 0 <= k < |gs| ==> Realizes(r.value[k], gs[k])
    decreases |gs|
  {
    if |gs| == 0 then Some([])
    else
      var last := |gs| - 1;
      match BuildWeeks(teams, gs[..last], flips)
      case None => None
      case Some(front) =>
        match BuildWeek(teams, gs[last], flips(last))
        case None => None
        case Some(w) => Some(front + [w])
  }

  /** A week of fresh matchups has not started and is not complete. */
  lemma FreshWeek(w: Week, games: seq<Pair>)
    requires Realizes(w, games)
    ensures !Started(w) && !WeekComplete(w)
  {
    if |w.matchups| > 0 {
      assert !Complete(w.matchups[0]);
    }
  }

  // ----- the round-robin generator -----

  /** `ids` lists every season team once: the outcome of shuffling the
      team IDs. */
  predicate Lists(ids: seq<nat>, teams: Teams) {
    |ids| == |teams| && Ids.Distinct(ids)
    && (forall i :: 0 <= i < |ids| ==> ids[i] in teams)
    && (forall id :: id in teams ==> id in ids)
  }

  /** Where week `i` comes from once the weeks are moved on by `k` places:
      `rotate_right(k)` brings the last `k` weeks to the front. */
  function Source(i: nat, k: nat, n: nat): (j: nat)
    requires i < n && k <= n
    ensures j < n
  {
    if i < k then n - k + i else i - k
  }

  /** The weeks moved on by `k` places, when `k` is positive. */
  function Shifted<T>(ws: seq<T>, k: nat): (r: seq<T>)
    requires k <= |ws|
    ensures |r| == |ws| && forall i :: 0 <= i < |ws| ==> r[i] == ws[Source(i, k, |ws|)]
  {
    if k > 0 then RotateRight(ws, k) else ws
  }

  /** The weeks of the circle method between `ids`, named, with their coin
      flips, and moved on by `shift` places. */
  function RoundRobinWeeksOf(teams: Teams, ids: seq<nat>, weeks: nat, shift: nat, flips: nat -> nat -> bool)
    : (r: Result<seq<Week>, ScheduleError>)
    requires 2 <= |ids| && shift <= weeks
    ensures r.Ok? <==> forall k :: 0 <= k < weeks ==> AllNamed(teams, CircleWeek(ids, k))
    ensures r.Ok? ==> |r.value| == weeks
    ensures r.Ok? ==> forall i :: 0 <= i < weeks ==> Realizes(r.value[i], CircleWeek(ids, Source(i, shift, weeks)))
  {
    match BuildWeeks(teams, RoundRobinWeeks(ids, weeks), flips)
    case None => Err(ShortNameRejected)
    case Some(ws) => Ok(Shifted(ws, shift))
  }

  /** `generate_round_robin_schedule`, before the optional shuffle of the
      weeks (`PermuteWeeks`): the checks of `RoundRobinPlan`, then the circle
      method over the teams in shuffled order, one week per round, the whole
      schedule replacing the old one. */
  function GenerateRoundRobin(s: Seasons.Season, weeks: Option<nat>, shift: Option<nat>,
                              ids: seq<nat>, flips: nat -> nat -> bool)
    : (r: Result<Seasons.Season, ScheduleError>)
    requires Lists(ids, s.teams)
    ensures RoundRobinPlan(|s.teams|, weeks, shift, Seasons.HasStarted(s)).Err? ==>
              r == Err(RoundRobinPlan(|s.teams|, weeks, shift, Seasons.HasStarted(s)).error)
    ensures r.Ok? ==> RoundRobinPlan(|s.teams|, weeks, shift, Seasons.HasStarted(s)).Ok?
                      && |r.value.weeks| == RoundRobinPlan(|s.teams|, weeks, shift, Seasons.HasStarted(s)).value.0
    ensures r.Ok? ==> r.value.teams == s.teams && r.value.conferences == s.conferences
                      && r.value.playoffs == s.playoffs && r.value.year == s.year
  {
    var plan :- RoundRobinPlan(|s.teams|, weeks, shift, Seasons.HasStarted(s));
    ScheduleRounds(s, plan.0, plan.1, ids, flips)
  }

  /** The same generator with the validator's lower bound of `n` weeks. */
  function GenerateRoundRobinCorrected(s: Seasons.Season, weeks: Option<nat>, shift: Option<nat>,
                                       ids: seq<nat>, flips: nat -> nat -> bool)
    : (r: Result<Seasons.Season, ScheduleError>)
    requires Lists(ids, s.teams)
    ensures r.Ok? ==> RoundRobinPlanCorrected(|s.teams|, weeks, shift, Seasons.HasStarted(s)).Ok?
    ensures r.Ok? ==> r.value.teams == s.teams && r.value.conferences == s.conferences
                      && r.value.playoffs == s.playoffs && r.value.year == s.year
  {
    var plan :- RoundRobinPlanCorrected(|s.teams|, weeks, shift, Seasons.HasStarted(s));
    ScheduleRounds(s, plan.0, plan.1, ids, flips)
  }

  /** The generator once its checks have passed. */
  function ScheduleRounds(s: Seasons.Season, weeks: nat, shift: nat, ids: seq<nat>, flips: nat -> nat -> bool)
    : (r: Result<Seasons.Season, ScheduleError>)
    requires Lists(ids, s.teams) && 2 <= |s.teams| && shift <= weeks
    ensures r.Ok? ==> |r.value.weeks| == weeks
    ensures r.Ok? ==> forall i :: 0 <= i < weeks ==>
              Realizes(r.value.weeks[i], CircleWeek(ids, Source(i, shift, weeks)))
    ensures r.Ok? ==> r.value == s.(weeks := r.value.weeks)
  {
    var ws :- RoundRobinWeeksOf(s.teams, ids, weeks, shift, flips);
    Ok(s.(weeks := ws))
  }

  /** A week realizing a round of the circle method over an even field of
      season teams seats every team exactly once. */
  lemma {:induction false} CircleWeekSeats(teams: Teams, ids: seq<nat>, k: nat, w: Week, t: nat)
    requires Lists(ids, teams) && 2 <= |ids| && |ids| % 2 == 0
    requires Realizes(w, CircleWeek(ids, k)) && t in teams
    ensures exists j :: 0 <= j < |w.matchups| && Participated(w.matchups[j], t)
    ensures forall j, l :: 0 <= j < l < |w.matchups| ==> !(Participated(w.matchups[j], t) && Participated(w.matchups[l], t))
  {
    CircleWeekSeatsEveryone(ids, k, t);
  }

  /** Such a week has no finished games, names only season teams, and no
      team plays twice in it. */
  lemma CircleWeekFits(teams: Teams, ids: seq<nat>, k: nat, w: Week)
    requires Lists(ids, teams) && 2 <= |ids| && |ids| % 2 == 0
    requires Realizes(w, CircleWeek(ids, k))
    ensures Seasons.WeekFits(teams, w) && !Started(w) && !WeekComplete(w)
  {
    FreshWeek(w, CircleWeek(ids, k));
    var ms := w.matchups;
    forall j | 0 <= j < |ms| ensures ms[j].home in teams && ms[j].away in teams {
      CircleWeekGame(ids, k, j);
    }
    forall j, l | 0 <= j < l < |ms| ensures Seasons.MatchupsApart(ms[j], ms[l]) {
      CircleWeekSeats(teams, ids, k, w, ms[j].home);
      CircleWeekSeats(teams, ids, k, w, ms[j].away);
    }
    Seasons.WeekFitsIffApart(teams, w);
  }

  /** A schedule of the right length none of whose weeks has been played
      is valid once every week fits. */
  lemma UnplayedScheduleValid(s: Seasons.Season)
    requires |s.weeks| > 0 ==> 1 <= |s.teams| <= |s.weeks| <= 3 * (|s.teams| - 1)
    requires forall i :: 0 <= i < |s.weeks| ==>
               Seasons.WeekFits(s.teams, s.weeks[i]) && !Started(s.weeks[i]) && !WeekComplete(s.weeks[i])
    ensures Seasons.Valid(s)
  {
    assert !Seasons.HasStarted(s);
    forall i | 0 <= i < |s.weeks| ensures Seasons.InOrder(s.weeks, i) {
    }
  }

  /** With the validator's lower bound, the round-robin generator only
      builds seasons the validator accepts. */
  lemma CorrectedRoundRobinIsValid(s: Seasons.Season, weeks: Option<nat>, shift: Option<nat>,
                                   ids: seq<nat>, flips: nat -> nat -> bool)
    requires Lists(ids, s.teams)
    requires GenerateRoundRobinCorrected(s, weeks, shift, ids, flips).Ok?
    ensures Seasons.Valid(GenerateRoundRobinCorrected(s, weeks, shift, ids, flips).value)
  {
    var plan := RoundRobinPlanCorrected(|s.teams|, weeks, shift, Seasons.HasStarted(s)).value;
    var s' := ScheduleRounds(s, plan.0, plan.1, ids, flips).value;
    assert s' == GenerateRoundRobinCorrected(s, weeks, shift, ids, flips).value;
    forall i | 0 <= i < |s'.weeks|
      ensures Seasons.WeekFits(s'.teams, s'.weeks[i]) && !Started(s'.weeks[i]) && !WeekComplete(s'.weeks[i])
    {
      CircleWeekFits(s.teams, ids, Source(i, plan.1, plan.0), s'.weeks[i]);
    }
    UnplayedScheduleValid(s');
  }

  /** Every week of a generated round robin seats every season team. */
  lemma RoundRobinSeatsEveryone(s: Seasons.Season, weeks: Option<nat>, shift: Option<nat>,
                                ids: seq<nat>, flips: nat -> nat -> bool, i: nat, t: nat)
    requires Lists(ids, s.teams)
    requires GenerateRoundRobin(s, weeks, shift, ids, flips).Ok?
    requires i < |GenerateRoundRobin(s, weeks, shift, ids, flips).value.weeks| && t in s.teams
    ensures var w := GenerateRoundRobin(s, weeks, shift, ids, flips).value.weeks[i];
            exists j :: 0 <= j < |w.matchups| && Participated(w.matchups[j], t)
  {
    var plan := RoundRobinPlan(|s.teams|, weeks, shift, Seasons.HasStarted(s)).value;
    var s' := ScheduleRounds(s, plan.0, plan.1, ids, flips).value;
    assert s' == GenerateRoundRobin(s, weeks, shift, ids, flips).value;
    CircleWeekSeats(s.teams, ids, Source(i, plan.1, plan.0), s'.weeks[i], t);
  }

  /** As written, the generator accepts `n - 1` weeks, one fewer than the
      validator's minimum of `n`: asking four or more teams for a single
      round robin succeeds whenever the short names fit, and builds a
      season of `n - 1` weeks over the same teams, which
      `ShortScheduleRejected` shows the validator refuses. */
  lemma SingleRoundRobinAccepted(s: Seasons.Season, ids: seq<nat>, flips: nat -> nat -> bool) returns (r: Seasons.Season)
    requires Lists(ids, s.teams)
    requires |s.teams| >= 4 && |s.teams| % 2 == 0 && !Seasons.HasStarted(s)
    requires forall id :: id in s.teams ==> |s.teams[id].shortName| <= Team.MaxShortNameLength
    ensures GenerateRoundRobin(s, Some(|s.teams| - 1), None, ids, flips) == Ok(r)
    ensures |r.weeks| == |s.teams| - 1 && r.teams == s.teams
  {
    var n := |s.teams|;
    SinglePlan(n, Seasons.HasStarted(s));
    PlannedRounds(s, Some(n - 1), None, ids, flips);
    r := RoundsScheduled(s, ids, flips, n - 1);
  }

  /** The checks let a single round robin of an even field of at least
      four through, unshifted. */
  lemma SinglePlan(n: nat, started: bool)
    requires n >= 4 && n % 2 == 0 && !started
    ensures RoundRobinPlan(n, Some(n - 1), None, started) == Ok((n - 1, 0))
  {
  }

  /** Once the checks pass, the generator schedules the planned rounds. */
  lemma PlannedRounds(s: Seasons.Season, weeks: Option<nat>, shift: Option<nat>, ids: seq<nat>, flips: nat -> nat -> bool)
    requires Lists(ids, s.teams)
    requires RoundRobinPlan(|s.teams|, weeks, shift, Seasons.HasStarted(s)).Ok?
    ensures var plan := RoundRobinPlan(|s.teams|, weeks, shift, Seasons.HasStarted(s)).value;
            GenerateRoundRobin(s, weeks, shift, ids, flips) == ScheduleRounds(s, plan.0, plan.1, ids, flips)
  {
  }

  /** Once the checks pass, any number of unshifted rounds between season
      teams whose short names fit is scheduled. */
  lemma RoundsScheduled(s: Seasons.Season, ids: seq<nat>, flips: nat -> nat -> bool, m: nat) returns (r: Seasons.Season)
    requires Lists(ids, s.teams) && 2 <= |s.teams|
    requires forall id :: id in s.teams ==> |s.teams[id].shortName| <= Team.MaxShortNameLength
    ensures ScheduleRounds(s, m, 0, ids, flips) == Ok(r)
    ensures |r.weeks| == m && r.teams == s.teams
  {
    RoundsNamed(s.teams, ids, m);
    assert RoundRobinWeeksOf(s.teams, ids, m, 0, flips).Ok?;
    r := ScheduleRounds(s, m, 0, ids, flips).value;
  }

  /** The validator refuses any season of `n >= 4` teams and `n - 1`
      weeks, reporting too few weeks. */
  lemma ShortScheduleRejected(t: Seasons.Season)
    requires |t.teams| >= 4 && |t.weeks| == |t.teams| - 1
    ensures Seasons.Validate(t) == Err(Seasons.TooFewWeeks(|t.teams|, |t.teams| - 1))
  {
  }

  /** Every round of the circle method between the listed season teams
      names season teams only. */
  lemma RoundsNamed(teams: Teams, ids: seq<nat>, m: nat)
    requires Lists(ids, teams) && 2 <= |ids|
    requires forall id :: id in teams ==> |teams[id].shortName| <= Team.MaxShortNameLength
    ensures forall k :: 0 <= k < m ==> AllNamed(teams, CircleWeek(ids, k))
  {
    forall k | 0 <= k < m ensures AllNamed(teams, CircleWeek(ids, k)) {
      forall j | 0 <= j < |CircleWeek(ids, k)|
        ensures Named(teams, CircleWeek(ids, k)[j].0) && Named(teams, CircleWeek(ids, k)[j].1)
      {
        CircleWeekGame(ids, k, j);
      }
    }
  }

  /** The optional shuffle of the weeks: a permutation of their order. */
  function PermuteWeeks(s: Seasons.Season, perm: seq<nat>): (r: Seasons.Season)
    requires IsPermutation(perm, |s.weeks|)
    ensures |r.weeks| == |s.weeks| && forall i :: 0 <= i < |s.weeks| ==> r.weeks[i] == s.weeks[perm[i]]
    ensures r == s.(weeks := r.weeks)
  {
    s.(weeks := Permuted(s.weeks, perm))
  }

  /** Shuffling a schedule none of whose weeks has started keeps a valid
      season valid. */
  lemma PermuteUnstartedKeepsValid(s: Seasons.Season, perm: seq<nat>)
    requires IsPermutation(perm, |s.weeks|) && Seasons.Valid(s)
    requires forall i :: 0 <= i < |s.weeks| ==> !Started(s.weeks[i]) && !WeekComplete(s.weeks[i])
    ensures Seasons.Valid(PermuteWeeks(s, perm))
  {
    var r := PermuteWeeks(s, perm);
    forall i | 0 <= i < |r.weeks| ensures Seasons.WeekFits(r.teams, r.weeks[i]) && !Started(r.weeks[i]) {
      assert r.weeks[i] == s.weeks[perm[i]];
    }
    assert !Seasons.HasStarted(r);
    forall i | 0 <= i < |r.weeks| ensures Seasons.InOrder(r.weeks, i) {
      assert r.weeks[i] == s.weeks[perm[i]];
    }
  }
}
