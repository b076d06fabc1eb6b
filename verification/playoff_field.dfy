/** Seeding a season's playoffs from its final standings (`generate_playoffs`
    and `generate_playoffs_with_conferences`), the guards around generating
    later rounds, and the season-level playoff queries. */
module PlayoffField {
  import opened Wrappers
  import opened Records
  import Ids
  import C = Conferences
  import Seasons
  import St = Standings
  import P = Playoffs
  import PT = PlayoffTeams
  import PR = PlayoffRounds
  import Sel = Selection
  import SeasonMatchups

  datatype FieldError =
    | RegularSeasonIncomplete
    | PlayoffsStarted
    | TooFewPlayoffTeams(count: nat)
    | TooManyPlayoffTeams(count: nat, teams: nat)
    | NoConferences
    | NoPlayoffTeamsPerConference
    | ConferenceTooSmall(conference: nat, count: nat, teams: nat)
    | TeamNotFound(id: nat)
    | NotInSeason(id: nat)
    | NotInitialized
    | PlayoffsOver
    | NotConferencePlayoff
    | StandingsFailed(standingsError: St.StandingsError)
    | PlayoffsFailed(playoffsError: P.PlayoffsError)

  /** The team IDs of standings entries, in order. */
  function TeamIds(es: seq<St.Entry>): (r: seq<nat>)
    ensures |r| == |es|
    ensures forall i :: 0 <= i < |es| ==> r[i] == es[i].0
  {
    seq(|es|, i requires 0 <= i < |es| => es[i].0)
  }

  /** Entries with the same team carry the same record. */
  predicate Keyed(es: seq<St.Entry>) {
    forall i, j :: 0 <= i < |es| && 0 <= j < |es| && es[i].0 == es[j].0 ==> es[i].1 == es[j].1
  }

  /** Ranked entries keyed by team list every team once. */
  lemma RankedKeyedDistinct(es: seq<St.Entry>)
    requires St.Ranked(es) && Keyed(es)
    ensures Ids.Distinct(TeamIds(es))
  {
    forall i, j | 0 <= i < j < |es| ensures es[i].0 != es[j].0 {
      St.BeforeIsStrictTotal(es[i], es[j], es[j]);
    }
  }

  /** Standings whose records are those of the season list every team once. */
  lemma StandingsIdsDistinct(s: Seasons.Season, es: seq<St.Entry>)
    requires St.Ranked(es)
    requires forall e :: e in es ==> e.0 in s.teams && e.1 == St.SeasonRecord(s, e.0)
    ensures Ids.Distinct(TeamIds(es))
  {
    forall i, j | 0 <= i < |es| && 0 <= j < |es| && es[i].0 == es[j].0 ensures es[i].1 == es[j].1 {
      assert es[i] in es && es[j] in es;
    }
    RankedKeyedDistinct(es);
  }

  // ----- seeding -----

  /** `ids` seeded in order into a conference that held nothing before:
      the i-th of them with seed i + 1 and its season short name, and no
      other team. */
  ghost predicate Seeded(m: PT.Entrants, ids: seq<nat>, s: Seasons.Season) {
    && |m| == |ids|
    && (forall id :: id in m <==> id in ids)
    && (forall i :: 0 <= i < |ids| ==>
          ids[i] in s.teams && m[ids[i]] == PT.PlayoffTeam(i + 1, s.teams[ids[i]].shortName))
  }

  /** The loop adding teams to the playoffs one after the other: each team
      is looked up in the season for its short name, then added. */
  function SeedTeams(p: P.SeasonPlayoffs, s: Seasons.Season, ids: seq<nat>, conference: Option<nat>)
    : (r: Result<P.SeasonPlayoffs, FieldError>)
    ensures r.Ok? ==> r.value.conferenceBrackets == p.conferenceBrackets && r.value.winnersBracket == p.winnersBracket
    ensures r.Ok? ==> forall c :: c != conference.GetOr(0) ==> PT.Members(r.value.teams, c) == PT.Members(p.teams, c)
    ensures r.Err? && r.error.TeamNotFound? ==> r.error.id in ids && r.error.id !in s.teams
    decreases |ids|
  {
    if |ids| == 0 then Ok(p)
    else if ids[0] !in s.teams then Err(TeamNotFound(ids[0]))
    else match P.AddTeam(p, ids[0], s.teams[ids[0]].shortName, conference)
      case Err(e) => Err(PlayoffsFailed(e))
      case Ok(q) =>
        var r := SeedTeams(q, s, ids[1..], conference);
        assert r.Err? && r.error.TeamNotFound? ==> r.error.id in ids by {
          assert forall x :: x in ids[1..] ==> x in ids;
        }
        r
  }

  /** `after` is `before` with `ids` seeded after its teams in order: the
      i-th of them with the next free seed plus i and its season short name,
      and the teams already there keep their entries. */
  ghost predicate SeededAfter(before: PT.Entrants, after: PT.Entrants, ids: seq<nat>, s: Seasons.Season) {
    && |after| == |before| + |ids|
    && (forall id :: id in after <==> id in before || id in ids)
    && (forall id :: id in before ==> after[id] == before[id])
    && (forall i :: 0 <= i < |ids| ==>
          ids[i] in s.teams && after[ids[i]] == PT.PlayoffTeam(|before| + i + 1, s.teams[ids[i]].shortName))
  }

  /** Seeding one team, then the rest, seeds them all. */
  lemma SeededAfterCons(before: PT.Entrants, mid: PT.Entrants, after: PT.Entrants, ids: seq<nat>, s: Seasons.Season)
    requires |ids| > 0
    requires SeededAfter(before, mid, [ids[0]], s) && SeededAfter(mid, after, ids[1..], s)
    ensures SeededAfter(before, after, ids, s)
  {
    var rest := ids[1..];
    forall id ensures id in after <==> id in before || id in ids {
      assert id in ids <==> id == ids[0] || id in rest by { assert ids == [ids[0]] + rest; }
    }
    forall i | 0 <= i < |ids|
      ensures ids[i] in s.teams && after[ids[i]] == PT.PlayoffTeam(|before| + i + 1, s.teams[ids[i]].shortName)
    {
      if i > 0 { assert ids[i] == rest[i - 1]; } else { assert ids[0] in mid; }
    }
  }

  /** Seeding distinct season teams, none of them already in the conference,
      into playoffs that have not started succeeds, and the i-th team gets
      the next free seed plus i, while the teams already there keep theirs. */
  lemma {:induction false} SeedTeamsSeeds(p: P.SeasonPlayoffs, s: Seasons.Season, ids: seq<nat>, conference: Option<nat>)
    requires !P.Started(p)
    requires Ids.Distinct(ids)
    requires forall i :: 0 <= i < |ids| ==> ids[i] in s.teams && ids[i] !in PT.Members(p.teams, conference.GetOr(0))
    ensures SeedTeams(p, s, ids, conference).Ok?
    ensures SeededAfter(PT.Members(p.teams, conference.GetOr(0)),
                        PT.Members(SeedTeams(p, s, ids, conference).value.teams, conference.GetOr(0)), ids, s)
    decreases |ids|
  {
    var c := conference.GetOr(0);
    var before := PT.Members(p.teams, c);
    if |ids| == 0 {
      assert SeededAfter(before, before, ids, s);
    } else {
      AddTeamStep(p, ids[0], s.teams[ids[0]].shortName, conference);
      var q := P.AddTeam(p, ids[0], s.teams[ids[0]].shortName, conference).value;
      var mid := PT.Members(q.teams, c);
      assert SeededAfter(before, mid, [ids[0]], s);
      var rest := ids[1..];
      Sel.DistinctTail(ids);
      forall i | 0 <= i < |rest| ensures rest[i] in s.teams && rest[i] !in mid {
        assert rest[i] == ids[i + 1];
      }
      SeedTeamsSeeds(q, s, rest, conference);
      assert SeedTeams(p, s, ids, conference) == SeedTeams(q, s, rest, conference);
      SeededAfterCons(before, mid, PT.Members(SeedTeams(q, s, rest, conference).value.teams, c), ids, s);
    }
  }

  /** Seeding distinct season teams into an empty conference of playoffs
      that have not started succeeds and seeds them 1, 2, ... in order. */
  lemma SeedTeamsIntoEmpty(p: P.SeasonPlayoffs, s: Seasons.Season, ids: seq<nat>, conference: Option<nat>)
    requires !P.Started(p) && PT.Members(p.teams, conference.GetOr(0)) == map[]
    requires Ids.Distinct(ids) && forall i :: 0 <= i < |ids| ==> ids[i] in s.teams
    ensures SeedTeams(p, s, ids, conference).Ok?
    ensures Seeded(PT.Members(SeedTeams(p, s, ids, conference).value.teams, conference.GetOr(0)), ids, s)
    ensures !P.Started(SeedTeams(p, s, ids, conference).value)
  {
    SeedTeamsSeeds(p, s, ids, conference);
  }

  /** Adding one team: the conference gains it with the next seed and keeps
      the teams it held. */
  lemma AddTeamStep(p: P.SeasonPlayoffs, id: nat, name: string, conference: Option<nat>)
    requires P.AddTeam(p, id, name, conference).Ok?
    ensures var before := PT.Members(p.teams, conference.GetOr(0));
            var mid := PT.Members(P.AddTeam(p, id, name, conference).value.teams, conference.GetOr(0));
            && |mid| == |before| + 1
            && (forall x :: x in mid <==> x in before || x == id)
            && (forall x :: x in before ==> mid[x] == before[x])
            && mid[id] == PT.PlayoffTeam(|before| + 1, name)
  {
    var before := PT.Members(p.teams, conference.GetOr(0));
    assert PT.Add(p.teams, id, name, conference.GetOr(0)).Ok?;
    assert PT.Members(P.AddTeam(p, id, name, conference).value.teams, conference.GetOr(0))
           == before[id := PT.PlayoffTeam(|before| + 1, name)];
  }

  // ----- generate_playoffs -----

  /** The top `n` teams of the season standings. */
  function TopTeams(s: Seasons.Season, n: nat): (r: seq<nat>)
    requires n <= |s.teams|
    ensures |r| == n
  {
    TeamIds(St.SeasonStandings(s))[..n]
  }

  /** In ranked standings each of the first `n` entries belongs before any
      entry whose team is not among them. */
  lemma RankedTopBefore(es: seq<St.Entry>, n: nat, e: St.Entry)
    requires St.Ranked(es) && n <= |es| && e in es
    ensures e.0 !in TeamIds(es)[..n] ==> forall i :: 0 <= i < n ==> St.Before(es[i], e)
  {
    var j :| 0 <= j < |es| && es[j] == e;
    if j < n { assert TeamIds(es)[..n][j] == e.0; }
  }

  /** The entries of the season standings pair each team with its record. */
  lemma StandingsEntry(s: Seasons.Season, i: nat)
    requires i < |St.SeasonStandings(s)|
    ensures var e := St.SeasonStandings(s)[i]; e.0 in s.teams && e == (e.0, St.SeasonRecord(s, e.0))
  {
    assert St.SeasonStandings(s)[i] in St.SeasonStandings(s);
  }

  /** The top `n` of the standings are distinct season teams. */
  lemma TopTeamsAreTeams(s: Seasons.Season, n: nat)
    requires n <= |s.teams|
    ensures Ids.Distinct(TopTeams(s, n))
    ensures forall i :: 0 <= i < n ==> TopTeams(s, n)[i] in s.teams
  {
    var st := St.SeasonStandings(s);
    StandingsIdsDistinct(s, st);
    forall i | 0 <= i < n ensures TopTeams(s, n)[i] in s.teams {
      StandingsEntry(s, i);
    }
  }

  /** A top team ranks above a season team left out. */
  lemma TopTeamOutranks(s: Seasons.Season, n: nat, i: nat, x: nat)
    requires i < n <= |s.teams| && x in s.teams && x !in TopTeams(s, n)
    ensures TopTeams(s, n)[i] in s.teams
    ensures St.Before((TopTeams(s, n)[i], St.SeasonRecord(s, TopTeams(s, n)[i])), (x, St.SeasonRecord(s, x)))
  {
    var st := St.SeasonStandings(s);
    var e := (x, St.SeasonRecord(s, x));
    assert e in st;
    RankedTopBefore(st, n, e);
    StandingsEntry(s, i);
  }

  /** The top `n` of the standings are distinct season teams, and each of
      them ranks above every season team left out. */
  lemma TopTeamsOutrankRest(s: Seasons.Season, n: nat)
    requires n <= |s.teams|
    ensures Ids.Distinct(TopTeams(s, n))
    ensures forall i :: 0 <= i < n ==> TopTeams(s, n)[i] in s.teams
    ensures forall i, x :: 0 <= i < n && x in s.teams && x !in TopTeams(s, n) ==>
              St.Before((TopTeams(s, n)[i], St.SeasonRecord(s, TopTeams(s, n)[i])), (x, St.SeasonRecord(s, x)))
  {
    TopTeamsAreTeams(s, n);
    forall i, x | 0 <= i < n && x in s.teams && x !in TopTeams(s, n)
      ensures St.Before((TopTeams(s, n)[i], St.SeasonRecord(s, TopTeams(s, n)[i])), (x, St.SeasonRecord(s, x)))
    {
      TopTeamOutranks(s, n, i, x);
    }
  }

  /** `generate_playoffs`: refused before the regular season ends, once the
      playoffs have started, or for fewer than two or more than all season
      teams; otherwise the playoffs are reset, the top `n` of the standings
      are seeded in order into one bracket, and its first round is drawn. */
  function GeneratePlayoffs(s: Seasons.Season, n: nat, flips: nat -> bool, conferenceFlips: nat -> nat -> bool)
    : (r: Result<Seasons.Season, FieldError>)
    ensures !Seasons.RegularSeasonComplete(s) ==> r == Err(RegularSeasonIncomplete)
    ensures Seasons.RegularSeasonComplete(s) && P.Started(s.playoffs) ==> r == Err(PlayoffsStarted)
    ensures Seasons.RegularSeasonComplete(s) && !P.Started(s.playoffs) && n < 2 ==> r == Err(TooFewPlayoffTeams(n))
    ensures Seasons.RegularSeasonComplete(s) && !P.Started(s.playoffs) && 2 <= n && n > |s.teams| ==>
              r == Err(TooManyPlayoffTeams(n, |s.teams|))
    ensures r.Ok? ==> r.value == s.(playoffs := r.value.playoffs)
  {
    if !Seasons.RegularSeasonComplete(s) then Err(RegularSeasonIncomplete)
    else if P.Started(s.playoffs) then Err(PlayoffsStarted)
    else if n < 2 then Err(TooFewPlayoffTeams(n))
    else if n > |s.teams| then Err(TooManyPlayoffTeams(n, |s.teams|))
    else
      var seeded :- SeedTeams(P.New(), s, TopTeams(s, n), None);
      match PR.GenNextPlayoffRound(seeded, flips, conferenceFlips)
      case Err(e) => Err(PlayoffsFailed(e))
      case Ok(next) => Ok(s.(playoffs := next))
  }

  /** Seeding the top `n` teams into fresh playoffs succeeds and fills
      conference 0 with them in standings order, leaving every other
      conference empty. */
  lemma TopTeamsSeeded(s: Seasons.Season, n: nat)
    requires n <= |s.teams|
    ensures SeedTeams(P.New(), s, TopTeams(s, n), None).Ok?
    ensures var t := SeedTeams(P.New(), s, TopTeams(s, n), None).value.teams;
            && Seeded(PT.Members(t, 0), TopTeams(s, n), s)
            && OnlyIn(t, 0)
  {
    TopTeamsAreTeams(s, n);
    var p := P.New();
    assert forall c :: PT.Members(p.teams, c) == map[];
    SeedTeamsIntoEmpty(p, s, TopTeams(s, n), None);
    var t := SeedTeams(p, s, TopTeams(s, n), None).value.teams;
    forall c | c != 0 ensures Frame(t, p.teams, c) {
      SeedTeamsFrame(p, s, TopTeams(s, n), None, c);
    }
    OnlyInFrame(t, p.teams, 0);
  }

  /** Seeding leaves the other conferences as they were. */
  lemma SeedTeamsFrame(p: P.SeasonPlayoffs, s: Seasons.Season, ids: seq<nat>, conference: Option<nat>, c: nat)
    requires SeedTeams(p, s, ids, conference).Ok? && c != conference.GetOr(0)
    ensures Frame(SeedTeams(p, s, ids, conference).value.teams, p.teams, c)
  {
  }

  /** No conference but `c` holds a team. */
  ghost predicate OnlyIn(t: PT.PlayoffTeams, c: nat) {
    forall c', x :: c' != c ==> x !in PT.Members(t, c')
  }

  /** A change confined to conference `c` keeps the others empty. */
  lemma OnlyInFrame(a: PT.PlayoffTeams, b: PT.PlayoffTeams, c: nat)
    requires OnlyIn(b, c)
    requires forall c' :: c' != c ==> Frame(a, b, c')
    ensures OnlyIn(a, c)
  {
    forall c', x | c' != c ensures x !in PT.Members(a, c') {
      assert Frame(a, b, c');
    }
  }

  /** When only conference `c` holds teams, a team is in the playoffs
      exactly when that conference holds it. */
  lemma ContainsOnlySeeded(t: PT.PlayoffTeams, c: nat, ids: seq<nat>)
    requires forall id :: id in PT.Members(t, c) <==> id in ids
    requires OnlyIn(t, c)
    ensures forall id :: PT.Contains(t, id) <==> id in ids
  {
    forall id ensures PT.Contains(t, id) <==> id in ids {
      if PT.Contains(t, id) {
        var c' :| c' in t.teams && id in t.teams[c'];
        assert id in PT.Members(t, c');
      } else {
        assert id !in PT.Members(t, c);
      }
    }
  }

  /** Once the guards pass, seeding cannot fail, and generated playoffs hold
      exactly the top `n` teams of the standings, in conference 0 with seeds
      1 to `n` in standings order, so a team is in the playoffs exactly when
      it is among the top `n`. */
  lemma GeneratePlayoffsSeedsTopTeams(s: Seasons.Season, n: nat, flips: nat -> bool, conferenceFlips: nat -> nat -> bool)
    requires Seasons.RegularSeasonComplete(s) && !P.Started(s.playoffs) && 2 <= n <= |s.teams|
    ensures GeneratePlayoffs(s, n, flips, conferenceFlips).Err? ==>
              GeneratePlayoffs(s, n, flips, conferenceFlips).error.PlayoffsFailed?
    ensures var r := GeneratePlayoffs(s, n, flips, conferenceFlips);
            r.Ok? ==> && Seeded(PT.Members(r.value.playoffs.teams, 0), TopTeams(s, n), s)
                      && OnlyIn(r.value.playoffs.teams, 0)
                      && (forall id :: PT.Contains(r.value.playoffs.teams, id) <==> id in TopTeams(s, n))
  {
    TopTeamsSeeded(s, n);
    var seeded := SeedTeams(P.New(), s, TopTeams(s, n), None).value;
    var r := GeneratePlayoffs(s, n, flips, conferenceFlips);
    assert r == match PR.GenNextPlayoffRound(seeded, flips, conferenceFlips)
                case Err(e) => Err(PlayoffsFailed(e))
                case Ok(next) => Ok(s.(playoffs := next));
    if r.Ok? {
      assert r.value.playoffs.teams == seeded.teams;
      ContainsOnlySeeded(seeded.teams, 0, TopTeams(s, n));
    }
  }

  // ----- generate_playoffs_with_conferences -----

  /** The winner of each division of conference `c` from the `d`-th on: the
      team on top of the division standings, skipping divisions with no
      season team. The lookup cannot fail for an existing division. */
  function DivisionWinners(s: Seasons.Season, c: nat, d: nat): (r: seq<nat>)
    requires c < |s.conferences| && d <= |s.conferences[c].divisions|
    ensures forall x :: x in r ==>
              (&& x in s.teams
               && exists j :: d <= j < |s.conferences[c].divisions| && x in s.conferences[c].divisions[j].teams
                               && HeadsDivision(s, c, j, x))
    decreases |s.conferences[c].divisions| - d
  {
    var ds := s.conferences[c].divisions;
    if d == |ds| then []
    else
      var st := St.DivisionStandings(s, c, d).value;
      var rest := DivisionWinners(s, c, d + 1);
      if |st| == 0 then rest
      else
        assert st[0] in st;
        [st[0].0] + rest
  }

  /** Team `x` is a season team of division `j` of conference `c` and ranks
      above every other season team of that division. */
  ghost predicate TopsDivision(s: Seasons.Season, c: nat, j: nat, x: nat)
    requires c < |s.conferences| && j < |s.conferences[c].divisions|
  {
    && x in s.conferences[c].divisions[j].teams && x in s.teams
    && forall y :: y in s.conferences[c].divisions[j].teams && y in s.teams && y != x ==>
         St.Before((x, St.SeasonRecord(s, x)), (y, St.SeasonRecord(s, y)))
  }

  /** The head of ranked standings belongs before every entry of another team. */
  lemma RankedHeadBefore(es: seq<St.Entry>, e: St.Entry)
    requires St.Ranked(es) && e in es && |es| > 0
    ensures e.0 != es[0].0 ==> St.Before(es[0], e)
  {
  }

  /** The head of a division's standings tops the division. */
  lemma DivisionHeadTops(s: Seasons.Season, c: nat, d: nat, x: nat)
    requires c < |s.conferences| && d < |s.conferences[c].divisions|
    requires HeadsDivision(s, c, d, x)
    ensures TopsDivision(s, c, d, x)
  {
    var st := St.DivisionStandings(s, c, d).value;
    assert st[0] in st;
    forall y | y in s.conferences[c].divisions[d].teams && y in s.teams && y != x
      ensures St.Before((x, St.SeasonRecord(s, x)), (y, St.SeasonRecord(s, y)))
    {
      var e := (y, St.SeasonRecord(s, y));
      assert e in st;
      RankedHeadBefore(st, e);
    }
  }

  /** Team `x` heads the standings of division `j` of conference `c`. */
  predicate HeadsDivision(s: Seasons.Season, c: nat, j: nat, x: nat)
    requires c < |s.conferences| && j < |s.conferences[c].divisions|
  {
    var st := St.DivisionStandings(s, c, j).value;
    |st| > 0 && st[0].0 == x
  }

  /** Each division winner tops its division: it ranks above every other
      season team of that division. */
  lemma DivisionWinnerTopsDivision(s: Seasons.Season, c: nat, d: nat, x: nat)
    requires c < |s.conferences| && d <= |s.conferences[c].divisions|
    requires x in DivisionWinners(s, c, d)
    ensures exists j :: d <= j < |s.conferences[c].divisions| && TopsDivision(s, c, j, x)
  {
    var j :| d <= j < |s.conferences[c].divisions| && HeadsDivision(s, c, j, x);
    DivisionHeadTops(s, c, j, x);
  }

  /** A team of division `d` is in no later division's winners. */
  lemma LaterWinnersExclude(s: Seasons.Season, c: nat, d: nat, x: nat)
    requires c < |s.conferences| && d < |s.conferences[c].divisions|
    requires C.PairwiseDisjoint(s.conferences[c].divisions)
    requires x in s.conferences[c].divisions[d].teams
    ensures x !in DivisionWinners(s, c, d + 1)
  {
    var ds := s.conferences[c].divisions;
    forall j | d + 1 <= j < |ds| ensures x !in ds[j].teams {
    }
  }

  /** Putting division `d`'s winner in front of the later winners keeps
      them distinct. */
  lemma WinnersStepDistinct(s: Seasons.Season, c: nat, d: nat)
    requires c < |s.conferences| && d < |s.conferences[c].divisions|
    requires C.PairwiseDisjoint(s.conferences[c].divisions)
    requires Ids.Distinct(DivisionWinners(s, c, d + 1))
    ensures Ids.Distinct(DivisionWinners(s, c, d))
  {
    var st := St.DivisionStandings(s, c, d).value;
    var rest := DivisionWinners(s, c, d + 1);
    if |st| > 0 {
      var x := st[0].0;
      assert st[0] in st;
      LaterWinnersExclude(s, c, d, x);
      Ids.DistinctConcat([x], rest);
      assert DivisionWinners(s, c, d) == [x] + rest;
    } else {
      assert DivisionWinners(s, c, d) == rest;
    }
  }

  /** Divisions that share no team have distinct winners. */
  lemma {:induction false} DivisionWinnersDistinct(s: Seasons.Season, c: nat, d: nat)
    requires c < |s.conferences| && d <= |s.conferences[c].divisions|
    requires C.PairwiseDisjoint(s.conferences[c].divisions)
    ensures Ids.Distinct(DivisionWinners(s, c, d))
    decreases |s.conferences[c].divisions| - d
  {
    if d < |s.conferences[c].divisions| {
      DivisionWinnersDistinct(s, c, d + 1);
      WinnersStepDistinct(s, c, d);
    }
  }

  /** The field of conference `c`: refused when the conference lists fewer
      than `k` teams; otherwise the division winners (when guaranteed a
      place) in conference-standings order, then wild cards. */
  function ConferenceField(s: Seasons.Season, c: nat, k: nat, divisionWinnersGuaranteed: bool)
    : (r: Result<seq<nat>, FieldError>)
    requires c < |s.conferences|
    ensures k > C.NumTeams(s.conferences[c]) <==> r.Err?
    ensures r.Err? ==> r.error == ConferenceTooSmall(c, k, C.NumTeams(s.conferences[c]))
    ensures r.Ok? ==> |r.value| <= k
    ensures r.Ok? ==> forall x :: x in r.value ==> x in s.teams && C.ContainsTeam(s.conferences[c], x)
  {
    if k > C.NumTeams(s.conferences[c]) then Err(ConferenceTooSmall(c, k, C.NumTeams(s.conferences[c])))
    else
      var ids := ConferenceIds(s, c);
      Ok(Sel.Select(Sel.ByPosition(Winners(s, c, divisionWinnersGuaranteed), ids), ids, k))
  }

  /** The team IDs of the conference standings. */
  function ConferenceIds(s: Seasons.Season, c: nat): (r: seq<nat>)
    requires c < |s.conferences|
    ensures forall x :: x in r ==> x in s.teams && C.ContainsTeam(s.conferences[c], x)
  {
    var st := St.ConferenceStandings(s, c).value;
    var ids := TeamIds(st);
    assert forall x :: x in ids ==> x in s.teams && C.ContainsTeam(s.conferences[c], x) by {
      forall x | x in ids ensures x in s.teams && C.ContainsTeam(s.conferences[c], x) {
        var i :| 0 <= i < |ids| && ids[i] == x;
        assert st[i] in st;
      }
    }
    ids
  }

  /** The division winners when they are guaranteed a place, none otherwise. */
  function Winners(s: Seasons.Season, c: nat, divisionWinnersGuaranteed: bool): seq<nat>
    requires c < |s.conferences|
  {
    if divisionWinnersGuaranteed then DivisionWinners(s, c, 0) else []
  }

  /** The division winners ordered by conference standing, as the field
      takes them. */
  function SortedWinners(s: Seasons.Season, c: nat, divisionWinnersGuaranteed: bool): seq<nat>
    requires c < |s.conferences|
  {
    Sel.ByPosition(Winners(s, c, divisionWinnersGuaranteed), ConferenceIds(s, c))
  }

  /** An entry's team is among the standings' team IDs. */
  lemma EntryTeamIn(es: seq<St.Entry>, e: St.Entry)
    requires e in es
    ensures e.0 in TeamIds(es)
  {
    var i :| 0 <= i < |es| && es[i] == e;
    assert TeamIds(es)[i] == e.0;
  }

  /** The conference standings list each team once. */
  lemma ConferenceIdsDistinct(s: Seasons.Season, c: nat)
    requires c < |s.conferences|
    ensures Ids.Distinct(ConferenceIds(s, c))
  {
    StandingsIdsDistinct(s, St.ConferenceStandings(s, c).value);
  }

  /** A season team of the conference is in its standings. */
  lemma ConferenceTeamListed(s: Seasons.Season, c: nat, x: nat)
    requires c < |s.conferences| && x in C.AllTeams(s.conferences[c]) && x in s.teams
    ensures x in ConferenceIds(s, c)
  {
    C.AllTeamsContains(s.conferences[c], x);
    EntryTeamIn(St.ConferenceStandings(s, c).value, (x, St.SeasonRecord(s, x)));
  }

  /** The conference standings list the conference's season teams. */
  lemma ConferenceIdsAreTeams(s: Seasons.Season, c: nat)
    requires c < |s.conferences|
    ensures Ids.Distinct(ConferenceIds(s, c))
    ensures forall x :: x in ConferenceIds(s, c) <==> x in C.AllTeams(s.conferences[c]) && x in s.teams
  {
    var conf := s.conferences[c];
    ConferenceIdsDistinct(s, c);
    forall x | x in C.AllTeams(conf) && x in s.teams ensures x in ConferenceIds(s, c) {
      ConferenceTeamListed(s, c, x);
    }
    forall x | x in ConferenceIds(s, c) ensures x in C.AllTeams(conf) {
      C.AllTeamsContains(conf, x);
    }
  }

  /** Two repetition-free lists with the same members have the same length. */
  lemma SameMembersSameLength(a: seq<nat>, b: seq<nat>)
    requires Ids.Distinct(a) && Ids.Distinct(b)
    requires forall x :: x in a <==> x in b
    ensures |a| == |b|
  {
    assert Sel.Members(a) == Sel.Members(b);
    Sel.DistinctCard(a);
    Sel.DistinctCard(b);
  }

  /** A conference whose every team is a season team has standings with one
      entry per team. */
  lemma ConferenceStandingsSize(s: Seasons.Season, c: nat)
    requires c < |s.conferences| && C.ValidConference(s.conferences[c])
    requires forall x :: x in C.AllTeams(s.conferences[c]) ==> x in s.teams
    ensures |ConferenceIds(s, c)| == C.NumTeams(s.conferences[c])
  {
    ConferenceIdsAreTeams(s, c);
    SameMembersSameLength(ConferenceIds(s, c), C.AllTeams(s.conferences[c]));
    C.AllTeamsContains(s.conferences[c], 0);
  }

  /** In a valid conference the division winners are distinct. */
  lemma WinnersDistinct(s: Seasons.Season, c: nat, divisionWinnersGuaranteed: bool)
    requires c < |s.conferences| && C.ValidConference(s.conferences[c])
    ensures Ids.Distinct(Winners(s, c, divisionWinnersGuaranteed))
  {
    C.ConferenceTeamsDistinct(s.conferences[c].divisions);
    if divisionWinnersGuaranteed {
      DivisionWinnersDistinct(s, c, 0);
    }
  }

  /** The field of a valid conference starts with the division winners in
      standings order and fills up with the best remaining teams of the
      conference standings. */
  lemma ConferenceFieldIsField(s: Seasons.Season, c: nat, k: nat, divisionWinnersGuaranteed: bool)
    requires c < |s.conferences| && C.ValidConference(s.conferences[c])
    requires k <= C.NumTeams(s.conferences[c])
    ensures ConferenceField(s, c, k, divisionWinnersGuaranteed).Ok?
    ensures ConferenceField(s, c, k, divisionWinnersGuaranteed).value
              == Sel.TopUp(Sel.Take(SortedWinners(s, c, divisionWinnersGuaranteed), k), ConferenceIds(s, c), k)
  {
    var winners := Winners(s, c, divisionWinnersGuaranteed);
    var ids := ConferenceIds(s, c);
    WinnersDistinct(s, c, divisionWinnersGuaranteed);
    ConferenceIdsDistinct(s, c);
    Sel.FieldOf(winners, ids, k);
    var sorted := Sel.ByPosition(winners, ids);
    assert SortedWinners(s, c, divisionWinnersGuaranteed) == sorted;
    assert ConferenceField(s, c, k, divisionWinnersGuaranteed) == Ok(Sel.Select(sorted, ids, k));
  }

  /** When all of a valid conference's teams play in the season, its field
      has exactly `k` teams. */
  lemma ConferenceFieldIsFull(s: Seasons.Season, c: nat, k: nat, divisionWinnersGuaranteed: bool)
    requires c < |s.conferences| && C.ValidConference(s.conferences[c])
    requires k <= C.NumTeams(s.conferences[c])
    requires forall x :: x in C.AllTeams(s.conferences[c]) ==> x in s.teams
    ensures ConferenceField(s, c, k, divisionWinnersGuaranteed).Ok?
    ensures |ConferenceField(s, c, k, divisionWinnersGuaranteed).value| == k
  {
    var winners := Winners(s, c, divisionWinnersGuaranteed);
    var ids := ConferenceIds(s, c);
    WinnersDistinct(s, c, divisionWinnersGuaranteed);
    ConferenceIdsAreTeams(s, c);
    ConferenceStandingsSize(s, c);
    Sel.FieldOf(winners, ids, k);
    assert ConferenceField(s, c, k, divisionWinnersGuaranteed).value == Sel.Select(Sel.ByPosition(winners, ids), ids, k);
  }

  /** The field of a valid conference lists distinct season teams. */
  lemma ConferenceFieldDistinct(s: Seasons.Season, c: nat, k: nat, divisionWinnersGuaranteed: bool)
    requires c < |s.conferences| && C.ValidConference(s.conferences[c])
    requires k <= C.NumTeams(s.conferences[c])
    ensures ConferenceField(s, c, k, divisionWinnersGuaranteed).Ok?
    ensures Ids.Distinct(ConferenceField(s, c, k, divisionWinnersGuaranteed).value)
  {
    WinnersDistinct(s, c, divisionWinnersGuaranteed);
    ConferenceIdsDistinct(s, c);
    Sel.FieldOf(Winners(s, c, divisionWinnersGuaranteed), ConferenceIds(s, c), k);
  }

  /** The loop over the conferences from the `c`-th on: each conference's
      field is chosen and seeded into its own bracket. */
  function SeedConferences(s: Seasons.Season, p: P.SeasonPlayoffs, k: nat, divisionWinnersGuaranteed: bool, c: nat)
    : (r: Result<P.SeasonPlayoffs, FieldError>)
    requires c <= |s.conferences|
    ensures r.Ok? ==> r.value.conferenceBrackets == p.conferenceBrackets
    decreases |s.conferences| - c
  {
    if c == |s.conferences| then Ok(p)
    else
      var field :- ConferenceField(s, c, k, divisionWinnersGuaranteed);
      var q :- SeedTeams(p, s, field, Some(c));
      SeedConferences(s, q, k, divisionWinnersGuaranteed, c + 1)
  }

  /** Conference `c` holds the same teams with the same entries in both. */
  ghost predicate Frame(a: PT.PlayoffTeams, b: PT.PlayoffTeams, c: nat) {
    && (forall x :: x in PT.Members(a, c) <==> x in PT.Members(b, c))
    && (forall x :: x in PT.Members(a, c) ==> PT.Members(a, c)[x] == PT.Members(b, c)[x])
  }

  lemma FrameTrans(a: PT.PlayoffTeams, b: PT.PlayoffTeams, d: PT.PlayoffTeams, c: nat)
    requires Frame(a, b, c) && Frame(b, d, c)
    ensures Frame(a, d, c)
  {
  }

  /** No conference from the `c`-th on holds a team. */
  ghost predicate EmptyFrom(t: PT.PlayoffTeams, c: nat) {
    forall c', x :: c <= c' ==> x !in PT.Members(t, c')
  }

  lemma EmptyMembers(t: PT.PlayoffTeams, c: nat)
    requires EmptyFrom(t, c)
    ensures PT.Members(t, c) == map[]
  {
    assert PT.Members(t, c).Keys == {};
  }

  /** A step that changes only conference `c` keeps the later ones empty. */
  lemma FrameKeepsEmpty(a: PT.PlayoffTeams, b: PT.PlayoffTeams, c: nat)
    requires EmptyFrom(b, c)
    requires forall c' :: c' != c ==> Frame(a, b, c')
    ensures EmptyFrom(a, c + 1)
  {
    forall c', x | c + 1 <= c' ensures x !in PT.Members(a, c') {
      assert Frame(a, b, c');
    }
  }

  lemma SeededFrame(a: PT.PlayoffTeams, b: PT.PlayoffTeams, c: nat, ids: seq<nat>, s: Seasons.Season)
    requires Frame(a, b, c) && Seeded(PT.Members(b, c), ids, s)
    ensures Seeded(PT.Members(a, c), ids, s)
  {
    assert PT.Members(a, c) == PT.Members(b, c);
  }

  /** Conferences whose fields can be chosen: each is valid and lists at
      least `k` teams. */
  predicate Selectable(s: Seasons.Season, k: nat, c: nat) {
    forall c' :: c <= c' < |s.conferences| ==>
      C.ValidConference(s.conferences[c']) && k <= C.NumTeams(s.conferences[c'])
  }

  /** One step of the loop: conference `c`'s field is chosen and seeded
      into its empty bracket, and no other conference changes. */
  lemma SeedConference(s: Seasons.Season, p: P.SeasonPlayoffs, k: nat, divisionWinnersGuaranteed: bool, c: nat)
    requires c < |s.conferences| && C.ValidConference(s.conferences[c]) && k <= C.NumTeams(s.conferences[c])
    requires !P.Started(p) && EmptyFrom(p.teams, c)
    ensures ConferenceField(s, c, k, divisionWinnersGuaranteed).Ok?
    ensures var field := ConferenceField(s, c, k, divisionWinnersGuaranteed).value;
            && SeedTeams(p, s, field, Some(c)).Ok?
            && var q := SeedTeams(p, s, field, Some(c)).value;
               && Seeded(PT.Members(q.teams, c), field, s)
               && !P.Started(q) && EmptyFrom(q.teams, c + 1)
               && forall c' :: c' != c ==> Frame(q.teams, p.teams, c')
  {
    ConferenceFieldDistinct(s, c, k, divisionWinnersGuaranteed);
    var field := ConferenceField(s, c, k, divisionWinnersGuaranteed).value;
    EmptyMembers(p.teams, c);
    SeedTeamsIntoEmpty(p, s, field, Some(c));
    var q := SeedTeams(p, s, field, Some(c)).value;
    forall c' | c' != c ensures Frame(q.teams, p.teams, c') {
      SeedTeamsFrame(p, s, field, Some(c), c');
    }
    FrameKeepsEmpty(q.teams, p.teams, c);
    assert Seeded(PT.Members(q.teams, c), field, s);
  }

  /** One turn of the loop over the conferences. */
  lemma SeedConferencesStep(s: Seasons.Season, p: P.SeasonPlayoffs, k: nat, divisionWinnersGuaranteed: bool, c: nat)
    requires c < |s.conferences| && ConferenceField(s, c, k, divisionWinnersGuaranteed).Ok?
    requires SeedTeams(p, s, ConferenceField(s, c, k, divisionWinnersGuaranteed).value, Some(c)).Ok?
    ensures var q := SeedTeams(p, s, ConferenceField(s, c, k, divisionWinnersGuaranteed).value, Some(c)).value;
            SeedConferences(s, p, k, divisionWinnersGuaranteed, c) == SeedConferences(s, q, k, divisionWinnersGuaranteed, c + 1)
  {
  }

  /** Seeding selectable conferences into empty brackets succeeds and
      leaves the conferences before the `c`-th as they were. */
  lemma {:induction false} SeedConferencesFrame(s: Seasons.Season, p: P.SeasonPlayoffs, k: nat, divisionWinnersGuaranteed: bool, c: nat)
    requires c <= |s.conferences| && Selectable(s, k, c)
    requires !P.Started(p) && EmptyFrom(p.teams, c)
    ensures SeedConferences(s, p, k, divisionWinnersGuaranteed, c).Ok?
    ensures forall c' :: 0 <= c' < c ==> Frame(SeedConferences(s, p, k, divisionWinnersGuaranteed, c).value.teams, p.teams, c')
    decreases |s.conferences| - c
  {
    if c < |s.conferences| {
      SeedConference(s, p, k, divisionWinnersGuaranteed, c);
      var field := ConferenceField(s, c, k, divisionWinnersGuaranteed).value;
      var q := SeedTeams(p, s, field, Some(c)).value;
      SeedConferencesFrame(s, q, k, divisionWinnersGuaranteed, c + 1);
      var r := SeedConferences(s, q, k, divisionWinnersGuaranteed, c + 1).value;
      SeedConferencesStep(s, p, k, divisionWinnersGuaranteed, c);
      forall c' | 0 <= c' < c ensures Frame(r.teams, p.teams, c') {
        FrameTrans(r.teams, q.teams, p.teams, c');
      }
    }
  }

  /** Seeding selectable conferences into empty brackets gives each
      conference `d` from the `c`-th on a bracket holding exactly its field,
      seeded in order. */
  lemma {:induction false} SeedConferencesSeeds(s: Seasons.Season, p: P.SeasonPlayoffs, k: nat, divisionWinnersGuaranteed: bool,
                                                c: nat, d: nat)
    requires c <= d < |s.conferences| && Selectable(s, k, c)
    requires !P.Started(p) && EmptyFrom(p.teams, c)
    ensures SeedConferences(s, p, k, divisionWinnersGuaranteed, c).Ok?
    ensures ConferenceField(s, d, k, divisionWinnersGuaranteed).Ok?
    ensures Seeded(PT.Members(SeedConferences(s, p, k, divisionWinnersGuaranteed, c).value.teams, d),
                   ConferenceField(s, d, k, divisionWinnersGuaranteed).value, s)
    decreases d - c
  {
    SeedConference(s, p, k, divisionWinnersGuaranteed, c);
    var field := ConferenceField(s, c, k, divisionWinnersGuaranteed).value;
    var q := SeedTeams(p, s, field, Some(c)).value;
    SeedConferencesFrame(s, q, k, divisionWinnersGuaranteed, c + 1);
    SeedConferencesStep(s, p, k, divisionWinnersGuaranteed, c);
    var r := SeedConferences(s, q, k, divisionWinnersGuaranteed, c + 1).value;
    var m := PT.Members(r.teams, d);
    assert PT.Members(SeedConferences(s, p, k, divisionWinnersGuaranteed, c).value.teams, d) == m;
    if d == c {
      SeededFrame(r.teams, q.teams, c, field, s);
    } else {
      SeedConferencesSeeds(s, q, k, divisionWinnersGuaranteed, c + 1, d);
    }
  }

  /** `generate_playoffs_with_conferences`: refused without conferences,
      before the regular season ends, once the playoffs have started, or
      for no team per conference; otherwise the playoffs are reset, every
      conference's field is seeded into its own bracket, and the first
      round is drawn. */
  function GeneratePlayoffsWithConferences(s: Seasons.Season, k: nat, divisionWinnersGuaranteed: bool,
                                           flips: nat -> bool, conferenceFlips: nat -> nat -> bool)
    : (r: Result<Seasons.Season, FieldError>)
    ensures |s.conferences| == 0 ==> r == Err(NoConferences)
    ensures |s.conferences| > 0 && !Seasons.RegularSeasonComplete(s) ==> r == Err(RegularSeasonIncomplete)
    ensures |s.conferences| > 0 && Seasons.RegularSeasonComplete(s) && P.Started(s.playoffs) ==>
              r == Err(PlayoffsStarted)
    ensures |s.conferences| > 0 && Seasons.RegularSeasonComplete(s) && !P.Started(s.playoffs) && k < 1 ==>
              r == Err(NoPlayoffTeamsPerConference)
    ensures r.Ok? ==> r.value == s.(playoffs := r.value.playoffs)
  {
    if |s.conferences| == 0 then Err(NoConferences)
    else if !Seasons.RegularSeasonComplete(s) then Err(RegularSeasonIncomplete)
    else if P.Started(s.playoffs) then Err(PlayoffsStarted)
    else if k < 1 then Err(NoPlayoffTeamsPerConference)
    else
      var seeded :- SeedConferences(s, P.New(), k, divisionWinnersGuaranteed, 0);
      match PR.GenNextPlayoffRound(seeded, flips, conferenceFlips)
      case Err(e) => Err(PlayoffsFailed(e))
      case Ok(next) => Ok(s.(playoffs := next))
  }

  /** With valid conferences of at least `k` teams each, the generated
      playoffs give every conference a bracket holding exactly its field,
      seeded 1 to `k` in field order. */
  lemma ConferencePlayoffsSeedFields(s: Seasons.Season, k: nat, divisionWinnersGuaranteed: bool,
                                     flips: nat -> bool, conferenceFlips: nat -> nat -> bool)
    requires |s.conferences| > 0 && Seasons.RegularSeasonComplete(s) && !P.Started(s.playoffs) && k >= 1
    requires Selectable(s, k, 0)
    ensures GeneratePlayoffsWithConferences(s, k, divisionWinnersGuaranteed, flips, conferenceFlips).Err? ==>
              GeneratePlayoffsWithConferences(s, k, divisionWinnersGuaranteed, flips, conferenceFlips).error.PlayoffsFailed?
    ensures var r := GeneratePlayoffsWithConferences(s, k, divisionWinnersGuaranteed, flips, conferenceFlips);
            r.Ok? ==> forall c :: 0 <= c < |s.conferences| ==>
                        Seeded(PT.Members(r.value.playoffs.teams, c), ConferenceField(s, c, k, divisionWinnersGuaranteed).value, s)
  {
    SeedConferencesFrame(s, P.New(), k, divisionWinnersGuaranteed, 0);
    var seeded := SeedConferences(s, P.New(), k, divisionWinnersGuaranteed, 0).value;
    forall c | 0 <= c < |s.conferences|
      ensures Seeded(PT.Members(seeded.teams, c), ConferenceField(s, c, k, divisionWinnersGuaranteed).value, s)
    {
      SeedConferencesSeeds(s, P.New(), k, divisionWinnersGuaranteed, 0, c);
    }
    var r := GeneratePlayoffsWithConferences(s, k, divisionWinnersGuaranteed, flips, conferenceFlips);
    assert r == match PR.GenNextPlayoffRound(seeded, flips, conferenceFlips)
                case Err(e) => Err(PlayoffsFailed(e))
                case Ok(next) => Ok(s.(playoffs := next));
    if r.Ok? {
      assert r.value.playoffs.teams == seeded.teams;
    }
  }

  // ----- later rounds -----

  /** `generate_next_playoff_round`: refused before the regular season ends,
      with fewer than two playoff teams, or once the playoffs are complete;
      otherwise the next round of the playoffs is drawn. */
  function GenerateNextPlayoffRound(s: Seasons.Season, flips: nat -> bool, conferenceFlips: nat -> nat -> bool)
    : (r: Result<Seasons.Season, FieldError>)
    ensures !Seasons.RegularSeasonComplete(s) ==> r == Err(RegularSeasonIncomplete)
    ensures Seasons.RegularSeasonComplete(s) && PT.Len(s.playoffs.teams) < 2 ==> r == Err(NotInitialized)
    ensures Seasons.RegularSeasonComplete(s) && PT.Len(s.playoffs.teams) >= 2 && P.PlayoffsComplete(s.playoffs) ==>
              r == Err(PlayoffsOver)
    ensures r.Ok? ==> r.value == s.(playoffs := r.value.playoffs) && r.value.playoffs.teams == s.playoffs.teams
    ensures r.Ok? && P.Registered(s.playoffs) ==> P.Registered(r.value.playoffs)
  {
    if !Seasons.RegularSeasonComplete(s) then Err(RegularSeasonIncomplete)
    else if PT.Len(s.playoffs.teams) < 2 then Err(NotInitialized)
    else if P.PlayoffsComplete(s.playoffs) then Err(PlayoffsOver)
    else match PR.GenNextPlayoffRound(s.playoffs, flips, conferenceFlips)
      case Err(e) => Err(PlayoffsFailed(e))
      case Ok(next) => Ok(s.(playoffs := next))
  }

  /** `generate_next_conference_playoff_round`: refused unless the playoffs
      are split by conference, and once they are complete. */
  function GenerateNextConferencePlayoffRound(s: Seasons.Season, flips: nat -> bool, conferenceFlips: nat -> nat -> bool)
    : (r: Result<Seasons.Season, FieldError>)
    ensures !P.IsConferencePlayoff(s.playoffs) ==> r == Err(NotConferencePlayoff)
    ensures P.IsConferencePlayoff(s.playoffs) && P.PlayoffsComplete(s.playoffs) ==> r == Err(PlayoffsOver)
    ensures r.Ok? ==> r.value == s.(playoffs := r.value.playoffs) && r.value.playoffs.teams == s.playoffs.teams
    ensures r.Ok? && P.Registered(s.playoffs) ==> P.Registered(r.value.playoffs)
  {
    if !P.IsConferencePlayoff(s.playoffs) then Err(NotConferencePlayoff)
    else if P.PlayoffsComplete(s.playoffs) then Err(PlayoffsOver)
    else match PR.GenNextPlayoffRound(s.playoffs, flips, conferenceFlips)
      case Err(e) => Err(PlayoffsFailed(e))
      case Ok(next) => Ok(s.(playoffs := next))
  }

  // ----- queries -----

  /** `team_in_playoffs`: refused for a team outside the season. */
  function TeamInPlayoffs(s: Seasons.Season, id: nat): (r: Result<bool, FieldError>)
    ensures r.Err? <==> id !in s.teams
    ensures r.Ok? ==> (r.value <==> exists c :: c in s.playoffs.teams.teams && id in s.playoffs.teams.teams[c])
  {
    if id !in s.teams then Err(NotInSeason(id)) else Ok(PT.Contains(s.playoffs.teams, id))
  }

  /** `playoff_record`: the team's playoff record, an empty record for a
      season team that missed the playoffs. */
  function SeasonPlayoffRecord(s: Seasons.Season, id: nat): (r: Result<TeamRecord, FieldError>)
    ensures r.Err? <==> id !in s.teams
    ensures r.Ok? && !PT.Contains(s.playoffs.teams, id) ==> r.value == NewRecord()
    ensures r.Ok? && PT.Contains(s.playoffs.teams, id) ==> r.value == P.PlayoffRecord(s.playoffs, id).value
  {
    var inPlayoffs :- TeamInPlayoffs(s, id);
    if inPlayoffs then
      match P.PlayoffRecord(s.playoffs, id)
      case Err(e) => Err(PlayoffsFailed(e))
      case Ok(rec) => Ok(rec)
    else Ok(NewRecord())
  }

  /** `team_in_championship`. */
  function TeamInChampionship(s: Seasons.Season, id: nat): (r: Result<bool, FieldError>)
    ensures r.Err? <==> id !in s.teams
    ensures r.Ok? ==> (r.value <==> PT.Contains(s.playoffs.teams, id) && P.Championship(s.playoffs).Some?
                                     && SeasonMatchups.Participated(P.Championship(s.playoffs).value, id))
  {
    var inPlayoffs :- TeamInPlayoffs(s, id);
    if inPlayoffs then
      match P.InChampionship(s.playoffs, id)
      case Err(e) => Err(PlayoffsFailed(e))
      case Ok(b) => Ok(b)
    else Ok(false)
  }

  /** `team_won_championship`: a playoff team that is the champion. */
  function TeamWonChampionship(s: Seasons.Season, id: nat): (r: Result<bool, FieldError>)
    ensures r.Err? <==> id !in s.teams
    ensures r.Ok? ==> (r.value <==> PT.Contains(s.playoffs.teams, id) && P.Champion(s.playoffs) == Some(id))
  {
    var inPlayoffs :- TeamInPlayoffs(s, id);
    Ok(inPlayoffs && P.Champion(s.playoffs) == Some(id))
  }

  /** The champion played in the championship game. */
  lemma ChampionPlayedFinal(s: Seasons.Season, id: nat)
    requires TeamWonChampionship(s, id) == Ok(true)
    ensures TeamInChampionship(s, id) == Ok(true)
  {
  }
}
