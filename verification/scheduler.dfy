/** `generate_schedule` of src/league/season.rs: a season without
    conferences first gets a default one holding every team, then the
    season's shape decides between the round-robin and the structured
    scheduler. */
module SeasonScheduler {
  import opened Wrappers
  import Maps
  import C = Conferences
  import Seasons
  import opened Schedules
  import opened SeasonSchedules
  import opened StructuredSchedules

  /** `LeagueSeasonScheduleOptions`, without the closing week shuffle. */
  datatype ScheduleOptions = ScheduleOptions(
    weeks: Option<nat>, shift: Option<nat>,
    divisionGames: Option<nat>, conferenceGames: Option<nat>, crossConferenceGames: Option<nat>)

  /** The part of the options the structured scheduler reads. */
  function Structured(o: ScheduleOptions): StructuredOptions {
    StructuredOptions(o.divisionGames, o.conferenceGames, o.crossConferenceGames, o.shift)
  }

  /** `add_team` once per id, in order. */
  function AddTeams(d: C.Division, ids: seq<nat>): (r: C.Division)
    ensures r.name == d.name
    ensures r.teams == d.teams + ids
  {
    if |ids| == 0 then d
    else
      var r := C.AddTeam(AddTeams(d, ids[..|ids| - 1]), ids[|ids| - 1]);
      assert ids == ids[..|ids| - 1] + [ids[|ids| - 1]];
      r
  }

  /** `create_default_conference`: a conference "Default" with one division
      "Default" holding the season's teams in key order. */
  function DefaultConference(s: Seasons.Season): (c: C.Conference)
    ensures c.name == "Default" && |c.divisions| == 1 && c.divisions[0].name == "Default"
    ensures forall id :: id in c.divisions[0].teams <==> id in s.teams
    ensures |c.divisions[0].teams| == |s.teams|
    ensures Maps.Ascending(c.divisions[0].teams)
  {
    C.AddDivision(C.NewConference("Default"), AddTeams(C.NewDivision("Default"), Maps.Keys(s.teams)))
  }

  /** The season `generate_schedule` schedules: the default conference in
      place of none, otherwise the season as it is. */
  function Defaulted(s: Seasons.Season): (t: Seasons.Season)
    ensures t == s.(conferences := t.conferences)
    ensures s.conferences != [] ==> t == s
    ensures s.conferences == [] ==> t.conferences == [DefaultConference(s)]
  {
    if s.conferences == [] then s.(conferences := [DefaultConference(s)]) else s
  }

  /** `needs_structured_scheduling`. */
  predicate NeedsStructured(cs: seq<C.Conference>, crossConferenceGames: Option<nat>) {
    |cs| > 1 || (exists i :: 0 <= i < |cs| && |cs[i].divisions| > 1) || crossConferenceGames.Some?
  }

  /** `generate_schedule`. The shuffles the structured scheduler draws
      (`shuffled`, `crossPairs`, `shuffle`) and the round robin's team order
      (`ids`) are parameters; the coin flips are shared. The default
      conference stays on the season whatever the outcome. */
  function GenerateSchedule(s: Seasons.Season, o: ScheduleOptions, ids: seq<nat>,
                            shuffled: seq<seq<seq<nat>>>, crossPairs: seq<Pair>, crossFlips: nat -> bool,
                            shuffle: seq<Pair> -> seq<Pair>, flips: nat -> nat -> bool)
    : (r: (Seasons.Season, Option<ScheduleError>))
    requires Lists(ids, s.teams)
    requires Shuffles(Defaulted(s).conferences, shuffled)
    requires multiset(crossPairs) == multiset(CrossPairs(Defaulted(s).conferences))
    ensures r.0.teams == s.teams && r.0.playoffs == s.playoffs && r.0.year == s.year
    ensures r.0.conferences == if s.conferences == [] then [DefaultConference(s)] else s.conferences
    ensures |s.teams| < 4 ==> r == (Defaulted(s), Some(TooFewTeams(|s.teams|)))
  {
    var t := Defaulted(s);
    if NeedsStructured(t.conferences, o.crossConferenceGames) then
      GenerateStructured(t, Structured(o), shuffled, crossPairs, crossFlips, shuffle, flips)
    else
      match GenerateRoundRobin(t, o.weeks, o.shift, ids, flips)
      case Ok(u) => (u, None)
      case Err(e) => (t, Some(e))
  }

  /** A default conference never asks for the structured scheduler by
      itself: only several conferences, a conference split into divisions,
      or a cross-conference game count do. */
  lemma DefaultNeedsNothing(s: Seasons.Season, cross: Option<nat>)
    ensures NeedsStructured(Defaulted(s).conferences, cross) <==>
              |s.conferences| > 1 || (exists i :: 0 <= i < |s.conferences| && |s.conferences[i].divisions| > 1)
              || cross.Some?
  {
    if s.conferences == [] {
      var cs := Defaulted(s).conferences;
      assert forall i :: 0 <= i < |cs| ==> |cs[i].divisions| == 1;
    }
  }

  /** Several conferences, a conference with several divisions, or a
      cross-conference game count route to the structured scheduler. */
  lemma StructuredWhenShaped(s: Seasons.Season, o: ScheduleOptions, ids: seq<nat>,
                             shuffled: seq<seq<seq<nat>>>, crossPairs: seq<Pair>, crossFlips: nat -> bool,
                             shuffle: seq<Pair> -> seq<Pair>, flips: nat -> nat -> bool)
    requires Lists(ids, s.teams)
    requires Shuffles(Defaulted(s).conferences, shuffled)
    requires multiset(crossPairs) == multiset(CrossPairs(Defaulted(s).conferences))
    requires |s.conferences| > 1 || (exists i :: 0 <= i < |s.conferences| && |s.conferences[i].divisions| > 1)
             || o.crossConferenceGames.Some?
    ensures GenerateSchedule(s, o, ids, shuffled, crossPairs, crossFlips, shuffle, flips)
            == GenerateStructured(Defaulted(s), Structured(o), shuffled, crossPairs, crossFlips, shuffle, flips)
  {
    DefaultNeedsNothing(s, o.crossConferenceGames);
  }

  /** Every other season, including one with no conferences at all, goes
      to the round robin over the defaulted season; a round-robin error
      leaves the season with its default conference and its old weeks. */
  lemma RoundRobinWhenFlat(s: Seasons.Season, o: ScheduleOptions, ids: seq<nat>,
                           shuffled: seq<seq<seq<nat>>>, crossPairs: seq<Pair>, crossFlips: nat -> bool,
                           shuffle: seq<Pair> -> seq<Pair>, flips: nat -> nat -> bool)
    requires Lists(ids, s.teams)
    requires Shuffles(Defaulted(s).conferences, shuffled)
    requires multiset(crossPairs) == multiset(CrossPairs(Defaulted(s).conferences))
    requires |s.conferences| <= 1 && (forall i :: 0 <= i < |s.conferences| ==> |s.conferences[i].divisions| <= 1)
             && o.crossConferenceGames.None?
    ensures var r := GenerateSchedule(s, o, ids, shuffled, crossPairs, crossFlips, shuffle, flips);
            var rr := GenerateRoundRobin(Defaulted(s), o.weeks, o.shift, ids, flips);
            (rr.Ok? ==> r == (rr.value, None)) && (rr.Err? ==> r == (Defaulted(s), Some(rr.error)))
  {
    DefaultNeedsNothing(s, o.crossConferenceGames);
  }

  /** A season with no conferences and no cross-conference count is
      scheduled as one round robin over all its teams, and keeps the
      default conference it was given. */
  lemma NoConferencesRoundRobin(s: Seasons.Season, o: ScheduleOptions, ids: seq<nat>,
                                shuffled: seq<seq<seq<nat>>>, crossPairs: seq<Pair>, crossFlips: nat -> bool,
                                shuffle: seq<Pair> -> seq<Pair>, flips: nat -> nat -> bool)
    requires Lists(ids, s.teams)
    requires Shuffles(Defaulted(s).conferences, shuffled)
    requires multiset(crossPairs) == multiset(CrossPairs(Defaulted(s).conferences))
    requires s.conferences == [] && o.crossConferenceGames.None?
    ensures var r := GenerateSchedule(s, o, ids, shuffled, crossPairs, crossFlips, shuffle, flips);
            r.0.conferences == [DefaultConference(s)]
            && (r.1.None? <==> GenerateRoundRobin(Defaulted(s), o.weeks, o.shift, ids, flips).Ok?)
  {
    RoundRobinWhenFlat(s, o, ids, shuffled, crossPairs, crossFlips, shuffle, flips);
  }
}
