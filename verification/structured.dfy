/** The structured scheduler of src/league/season.rs, used when a season has
    several conferences or divisions: circle-method games inside each
    division, a fixed number of games between every two conference teams
    from different divisions, a greedy choice of games between conferences,
    and the packing of all of them into weeks. */
module StructuredSchedules {
  import opened Wrappers
  import Team
  import opened SeasonMatchups
  import opened Weeks
  import C = Conferences
  import opened Schedules
  import Seasons
  import opened SeasonSchedules
  import Ids

  // ----- division games -----

  /** Every team of every game is in `ids`. */
  predicate Within(games: seq<Pair>, ids: seq<nat>) {
    forall k :: 0 <= k < |games| ==> games[k].0 in ids && games[k].1 in ids
  }

  /** The circle method only pairs teams of the field it is given. */
  lemma {:induction false} CircleWeeksWithin(ids: seq<nat>, weeks: nat)
    requires 2 <= |ids|
    ensures Within(CircleWeeks(ids, weeks), ids)
    decreases weeks
  {
    if weeks > 0 {
      CircleWeeksWithin(ids, weeks - 1);
      var g := CircleWeek(ids, weeks - 1);
      forall k | 0 <= k < |g| ensures g[k].0 in ids && g[k].1 in ids {
        CircleWeekGame(ids, weeks - 1, k);
      }
    }
  }

  lemma CircleMatchupsWithin(ids: seq<nat>, cycles: nat)
    ensures Within(CircleMatchups(ids, cycles), ids)
  {
    if |ids| >= 2 { CircleWeeksWithin(ids, cycles * (|ids| - 1)); }
  }

  /** `shuffled[c][d]` is division `d` of conference `c` in the order the
      circle method's shuffle left it. */
  predicate Shuffles(cs: seq<C.Conference>, shuffled: seq<seq<seq<nat>>>) {
    |shuffled| == |cs| && forall c :: 0 <= c < |cs| ==> DivisionShuffles(cs[c].divisions, shuffled[c])
  }

  predicate DivisionShuffles(ds: seq<C.Division>, shuffled: seq<seq<nat>>) {
    |shuffled| == |ds| && forall d :: 0 <= d < |ds| ==> multiset(shuffled[d]) == multiset(ds[d].teams)
  }

  /** `generate_division_matchups`: `cycles` cycles of the circle method
      inside every division, conference by conference, each over the
      division's teams in shuffled order (a division of fewer than two
      teams has none). */
  function DivisionGames(cs: seq<C.Conference>, shuffled: seq<seq<seq<nat>>>, cycles: nat): (r: seq<Pair>)
    requires Shuffles(cs, shuffled)
    ensures forall k :: 0 <= k < |r| ==> exists c, d :: (0 <= c < |cs| && 0 <= d < |cs[c].divisions|
              && r[k].0 in cs[c].divisions[d].teams && r[k].1 in cs[c].divisions[d].teams)
    decreases |cs|
  {
    if |cs| == 0 then []
    else
      var n := |cs| - 1;
      assert Shuffles(cs[..n], shuffled[..n]) by {
        forall c | 0 <= c < n ensures DivisionShuffles(cs[..n][c].divisions, shuffled[..n][c]) {
          assert cs[..n][c] == cs[c] && shuffled[..n][c] == shuffled[c];
        }
      }
      var front := DivisionGames(cs[..n], shuffled[..n], cycles);
      var last := DivisionsGames(cs[n].divisions, shuffled[n], cycles);
      forall k | 0 <= k < |front|
        ensures exists c, d :: (0 <= c < |cs| && 0 <= d < |cs[c].divisions|
                && front[k].0 in cs[c].divisions[d].teams && front[k].1 in cs[c].divisions[d].teams)
      {
        var c, d :| 0 <= c < n && 0 <= d < |cs[..n][c].divisions|
                    && front[k].0 in cs[..n][c].divisions[d].teams && front[k].1 in cs[..n][c].divisions[d].teams;
        assert cs[..n][c] == cs[c];
      }
      front + last
  }

  /** The division games of one conference. */
  function DivisionsGames(ds: seq<C.Division>, shuffled: seq<seq<nat>>, cycles: nat): (r: seq<Pair>)
    requires DivisionShuffles(ds, shuffled)
    ensures forall k :: 0 <= k < |r| ==> exists d :: 0 <= d < |ds| && r[k].0 in ds[d].teams && r[k].1 in ds[d].teams
    decreases |ds|
  {
    if |ds| == 0 then []
    else
      var n := |ds| - 1;
      assert DivisionShuffles(ds[..n], shuffled[..n]) by {
        forall d | 0 <= d < n ensures multiset(shuffled[..n][d]) == multiset(ds[..n][d].teams) {
          assert ds[..n][d] == ds[d] && shuffled[..n][d] == shuffled[d];
        }
      }
      var front := DivisionsGames(ds[..n], shuffled[..n], cycles);
      var teams := shuffled[n];
      var last := CircleMatchups(teams, cycles);
      CircleMatchupsWithin(teams, cycles);
      forall k | 0 <= k < |front| ensures exists d :: 0 <= d < |ds| && front[k].0 in ds[d].teams && front[k].1 in ds[d].teams {
        var d :| 0 <= d < n && front[k].0 in ds[..n][d].teams && front[k].1 in ds[..n][d].teams;
        assert ds[..n][d] == ds[d];
      }
      forall k | 0 <= k < |last| ensures last[k].0 in ds[n].teams && last[k].1 in ds[n].teams {
        ShuffledMember(teams, ds[n].teams, last[k].0);
        ShuffledMember(teams, ds[n].teams, last[k].1);
      }
      front + last
  }

  /** A shuffle holds the same teams. */
  lemma ShuffledMember(shuffled: seq<nat>, teams: seq<nat>, t: nat)
    requires multiset(shuffled) == multiset(teams) && t in shuffled
    ensures t in teams
  {
    assert t in multiset(shuffled);
  }

  /** Every two teams of a division with an even number of distinct teams
      meet in the division games, whatever order the shuffle left them in. */
  lemma DivisionRivalsMeet(cs: seq<C.Conference>, shuffled: seq<seq<seq<nat>>>, cycles: nat, c: nat, d: nat, x: nat, y: nat)
    requires Shuffles(cs, shuffled) && c < |cs| && d < |cs[c].divisions| && cycles >= 1
    requires var t := cs[c].divisions[d].teams;
             |t| >= 2 && |t| % 2 == 0 && Ids.Distinct(t) && x in t && y in t && x != y
    ensures Plays(DivisionGames(cs, shuffled, cycles), x, y)
  {
    var ids := shuffled[c][d];
    var teams := cs[c].divisions[d].teams;
    assert DivisionShuffles(cs[c].divisions, shuffled[c]);
    assert multiset(ids) == multiset(teams);
    assert |ids| == |multiset(ids)| == |multiset(teams)| == |teams|;
    Ids.DistinctCounts(teams);
    Ids.DistinctCounts(ids);
    assert x in multiset(ids) && y in multiset(ids);
    var g := CircleMeeting(ids, cycles, x, y);
    InDivisionsGames(cs[c].divisions, shuffled[c], cycles, d, g);
    InDivisionGames(cs, shuffled, cycles, c, g);
  }

  /** Two different teams of an even field of distinct teams share a game
      of the circle method's first cycle. */
  lemma CircleMeeting(ids: seq<nat>, cycles: nat, x: nat, y: nat) returns (g: Pair)
    requires 2 <= |ids| && |ids| % 2 == 0 && Ids.Distinct(ids) && x in ids && y in ids && x != y && cycles >= 1
    ensures g in CircleMatchups(ids, cycles) && (g == (x, y) || g == (y, x))
  {
    var m := |ids| - 1;
    var weeks := cycles * m;
    var w := FirstCycleMeeting(ids, x, y);
    AtLeastOnce(cycles, m);
    g := if (x, y) in CircleWeek(ids, w) then (x, y) else (y, x);
    InCircleWeeks(ids, weeks, w, g);
    assert CircleMatchups(ids, cycles) == CircleWeeks(ids, weeks);
  }

  /** The week of the first cycle in which two teams of an even field meet. */
  lemma FirstCycleMeeting(ids: seq<nat>, x: nat, y: nat) returns (w: nat)
    requires 2 <= |ids| && |ids| % 2 == 0 && Ids.Distinct(ids) && x in ids && y in ids && x != y
    ensures w < |ids| - 1 && Plays(CircleWeek(ids, w), x, y)
  {
    var a :| 0 <= a < |ids| && ids[a] == x;
    var b :| 0 <= b < |ids| && ids[b] == y;
    w := CycleHasMeeting(ids, 0, a, b);
    QuotientZero(w, |ids| - 1);
  }

  lemma QuotientZero(w: nat, m: nat)
    requires m > 0 && w / m == 0
    ensures w < m
  {
  }

  lemma {:induction false} InCircleWeeks(ids: seq<nat>, weeks: nat, w: nat, g: Pair)
    requires 2 <= |ids| && w < weeks && g in CircleWeek(ids, w)
    ensures g in CircleWeeks(ids, weeks)
    decreases weeks
  {
    if w < weeks - 1 {
      InCircleWeeks(ids, weeks - 1, w, g);
    }
  }

  lemma {:induction false} InDivisionsGames(ds: seq<C.Division>, shuffled: seq<seq<nat>>, cycles: nat, d: nat, g: Pair)
    requires DivisionShuffles(ds, shuffled) && d < |ds| && g in CircleMatchups(shuffled[d], cycles)
    ensures g in DivisionsGames(ds, shuffled, cycles)
    decreases |ds|
  {
    var n := |ds| - 1;
    assert DivisionShuffles(ds[..n], shuffled[..n]) by {
      forall e | 0 <= e < n ensures multiset(shuffled[..n][e]) == multiset(ds[..n][e].teams) {
        assert ds[..n][e] == ds[e] && shuffled[..n][e] == shuffled[e];
      }
    }
    assert DivisionsGames(ds, shuffled, cycles)
           == DivisionsGames(ds[..n], shuffled[..n], cycles) + CircleMatchups(shuffled[n], cycles);
    if d < n {
      assert shuffled[..n][d] == shuffled[d];
      InDivisionsGames(ds[..n], shuffled[..n], cycles, d, g);
    }
  }

  lemma {:induction false} InDivisionGames(cs: seq<C.Conference>, shuffled: seq<seq<seq<nat>>>, cycles: nat, c: nat, g: Pair)
    requires Shuffles(cs, shuffled) && c < |cs| && g in DivisionsGames(cs[c].divisions, shuffled[c], cycles)
    ensures g in DivisionGames(cs, shuffled, cycles)
    decreases |cs|
  {
    var n := |cs| - 1;
    assert Shuffles(cs[..n], shuffled[..n]) by {
      forall e | 0 <= e < n ensures DivisionShuffles(cs[..n][e].divisions, shuffled[..n][e]) {
        assert cs[..n][e] == cs[e] && shuffled[..n][e] == shuffled[e];
      }
    }
    assert DivisionGames(cs, shuffled, cycles)
           == DivisionGames(cs[..n], shuffled[..n], cycles) + DivisionsGames(cs[n].divisions, shuffled[n], cycles);
    if c < n {
      assert cs[..n][c] == cs[c] && shuffled[..n][c] == shuffled[c];
      InDivisionGames(cs[..n], shuffled[..n], cycles, c, g);
    }
  }

  // ----- conference games -----

  /** The games of one pair of conference rivals: `g` games alternating
      sides, the earlier-listed team at home first. */
  function PairGames(a: nat, b: nat, g: nat): (r: seq<Pair>)
    ensures |r| == g
    ensures forall c :: 0 <= c < g ==> r[c] == if c % 2 == 0 then (a, b) else (b, a)
  {
    seq(g, c requires 0 <= c < g => if c % 2 == 0 then (a, b) else (b, a))
  }

  /** Both teams are conference teams, and not division rivals. */
  predicate ConferenceRivals(s: Seasons.Season, all: seq<nat>, x: Pair) {
    x.0 in all && x.1 in all && !Seasons.SameDivision(s, x.0, x.1)
  }

  lemma PairGamesRivals(s: Seasons.Season, all: seq<nat>, i: nat, j: nat, g: nat)
    requires i < |all| && j < |all|
    ensures !Seasons.SameDivision(s, all[i], all[j]) ==>
              forall k :: 0 <= k < g ==> ConferenceRivals(s, all, PairGames(all[i], all[j], g)[k])
  {
    Seasons.SameDivisionImpliesSameConference(s, all[i], all[j]);
  }

  /** The inner loop over `j` for the team at position `i`. */
  function RowGames(s: Seasons.Season, all: seq<nat>, i: nat, j: nat, g: nat): (r: seq<Pair>)
    requires i < |all| && j <= |all|
    ensures forall k :: 0 <= k < |r| ==> ConferenceRivals(s, all, r[k])
    decreases |all| - j
  {
    if j == |all| then []
    else
      var here := if Seasons.SameDivision(s, all[i], all[j]) then [] else PairGames(all[i], all[j], g);
      PairGamesRivals(s, all, i, j, g);
      here + RowGames(s, all, i, j + 1, g)
  }

  /** The outer loop over `i`. */
  function TableGames(s: Seasons.Season, all: seq<nat>, i: nat, g: nat): (r: seq<Pair>)
    requires i <= |all|
    ensures forall k :: 0 <= k < |r| ==> ConferenceRivals(s, all, r[k])
    decreases |all| - i
  {
    if i == |all| then [] else RowGames(s, all, i, i + 1, g) + TableGames(s, all, i + 1, g)
  }

  /** `generate_conference_matchups`, before its shuffle: `g` games between
      every two teams of a conference's team list (earlier position first)
      that are not in the same division. */
  function ConferenceGames(s: Seasons.Season, g: nat): (r: seq<Pair>)
    ensures g == 0 ==> r == []
  {
    if g == 0 then [] else ConferenceGamesFrom(s, s.conferences, g)
  }

  function ConferenceGamesFrom(s: Seasons.Season, cs: seq<C.Conference>, g: nat): (r: seq<Pair>)
    ensures forall k :: 0 <= k < |r| ==> exists c :: 0 <= c < |cs| && ConferenceRivals(s, C.AllTeams(cs[c]), r[k])
    decreases |cs|
  {
    if |cs| == 0 then []
    else
      var front := ConferenceGamesFrom(s, cs[..|cs| - 1], g);
      var last := TableGames(s, C.AllTeams(cs[|cs| - 1]), 0, g);
      forall k | 0 <= k < |front| ensures exists c :: 0 <= c < |cs| && ConferenceRivals(s, C.AllTeams(cs[c]), front[k]) {
        var c :| 0 <= c < |cs| - 1 && ConferenceRivals(s, C.AllTeams(cs[..|cs| - 1][c]), front[k]);
        assert cs[..|cs| - 1][c] == cs[c];
      }
      front + last
  }

  /** Conference games never pit a team against itself: every team of a
      conference has a division, so it is its own division rival. */
  lemma ConferenceRivalsDiffer(s: Seasons.Season, c: nat, x: Pair)
    requires c < |s.conferences| && ConferenceRivals(s, C.AllTeams(s.conferences[c]), x)
    ensures x.0 != x.1
  {
    C.AllTeamsContains(s.conferences[c], x.0);
    assert C.TeamDivision(s.conferences[c], x.0).Some?;
    assert Seasons.TeamDivision(s, x.0).Some?;
  }

  /** Every two conference teams from different divisions meet: the
      earlier-listed team hosts the first game and, from two games on, the
      other team hosts the second. */
  lemma {:induction false} RowGamesHasPair(s: Seasons.Season, all: seq<nat>, i: nat, j: nat, j': nat, g: nat)
    requires i < |all| && j <= j' < |all| && g >= 1 && !Seasons.SameDivision(s, all[i], all[j'])
    ensures (all[i], all[j']) in RowGames(s, all, i, j, g)
    ensures g >= 2 ==> (all[j'], all[i]) in RowGames(s, all, i, j, g)
    decreases |all| - j
  {
    var here := if Seasons.SameDivision(s, all[i], all[j]) then [] else PairGames(all[i], all[j], g);
    assert RowGames(s, all, i, j, g) == here + RowGames(s, all, i, j + 1, g);
    if j == j' {
      assert here[0] == (all[i], all[j']);
      if g >= 2 { assert here[1] == (all[j'], all[i]); }
    } else {
      RowGamesHasPair(s, all, i, j + 1, j', g);
    }
  }

  lemma {:induction false} TableGamesHasPair(s: Seasons.Season, all: seq<nat>, i: nat, i': nat, j': nat, g: nat)
    requires i <= i' < j' < |all| && g >= 1 && !Seasons.SameDivision(s, all[i'], all[j'])
    ensures (all[i'], all[j']) in TableGames(s, all, i, g)
    ensures g >= 2 ==> (all[j'], all[i']) in TableGames(s, all, i, g)
    decreases |all| - i
  {
    assert TableGames(s, all, i, g) == RowGames(s, all, i, i + 1, g) + TableGames(s, all, i + 1, g);
    if i == i' {
      RowGamesHasPair(s, all, i, i + 1, j', g);
    } else {
      TableGamesHasPair(s, all, i + 1, i', j', g);
    }
  }

  /** The conference games are exactly between conference rivals: each game
      is between two teams of one conference that are not division rivals,
      never a team against itself, and every such pair listed in that order
      plays at home first and, with two or more games, away too. */
  lemma {:induction false} ConferenceGamesCover(s: Seasons.Season, g: nat, c: nat, i: nat, j: nat)
    requires c < |s.conferences| && i < j < |C.AllTeams(s.conferences[c])|
    requires g >= 1 && !Seasons.SameDivision(s, C.AllTeams(s.conferences[c])[i], C.AllTeams(s.conferences[c])[j])
    ensures var all := C.AllTeams(s.conferences[c]);
            (all[i], all[j]) in ConferenceGames(s, g) && (g >= 2 ==> (all[j], all[i]) in ConferenceGames(s, g))
  {
    CoverFrom(s, s.conferences, g, c, i, j);
  }

  lemma {:induction false} CoverFrom(s: Seasons.Season, cs: seq<C.Conference>, g: nat, c: nat, i: nat, j: nat)
    requires c < |cs| && i < j < |C.AllTeams(cs[c])|
    requires g >= 1 && !Seasons.SameDivision(s, C.AllTeams(cs[c])[i], C.AllTeams(cs[c])[j])
    ensures var all := C.AllTeams(cs[c]);
            (all[i], all[j]) in ConferenceGamesFrom(s, cs, g)
            && (g >= 2 ==> (all[j], all[i]) in ConferenceGamesFrom(s, cs, g))
    decreases |cs|
  {
    var front := cs[..|cs| - 1];
    assert ConferenceGamesFrom(s, cs, g)
           == ConferenceGamesFrom(s, front, g) + TableGames(s, C.AllTeams(cs[|cs| - 1]), 0, g);
    if c == |cs| - 1 {
      TableGamesHasPair(s, C.AllTeams(cs[c]), 0, i, j, g);
    } else {
      assert front[c] == cs[c];
      CoverFrom(s, front, g, c, i, j);
    }
  }

  /** Soundness: every conference game is between rivals of one conference
      and never a team against itself. */
  lemma ConferenceGamesSound(s: Seasons.Season, g: nat, k: nat)
    requires k < |ConferenceGames(s, g)|
    ensures var x := ConferenceGames(s, g)[k];
            x.0 != x.1 && exists c :: 0 <= c < |s.conferences| && ConferenceRivals(s, C.AllTeams(s.conferences[c]), x)
  {
    var x := ConferenceGames(s, g)[k];
    var c :| 0 <= c < |s.conferences| && ConferenceRivals(s, C.AllTeams(s.conferences[c]), x);
    ConferenceRivalsDiffer(s, c, x);
  }

  // ----- cross-conference games -----

  /** How often `t` is a side of the games (twice for a game against itself). */
  function Appearances(games: seq<Pair>, t: nat): nat
    decreases |games|
  {
    if |games| == 0 then 0
    else (if games[0].0 == t then 1 else 0) + (if games[0].1 == t then 1 else 0) + Appearances(games[1..], t)
  }

  /** The greedy loop of `generate_cross_conference_matchups` from pair `k`
      on: a pair is taken when both teams have fewer than `g` games so far,
      with the coin flip `flips(k)` deciding who is at home, and both
      counters go up. Counters exist for the season teams only; reading a
      missing one gives 0, but bumping it panics, which is `UnknownTeam`
      here. The games taken and the final counters. */
  function Greedy(pairs: seq<Pair>, g: nat, counts: map<nat, nat>, flips: nat -> bool, k: nat)
    : (r: Result<(seq<Pair>, map<nat, nat>), ScheduleError>)
    requires k <= |pairs|
    ensures r.Ok? ==> r.value.1.Keys == counts.Keys
    ensures r.Err? ==> exists j :: k <= j < |pairs| && (r.error == UnknownTeam(pairs[j].0) || r.error == UnknownTeam(pairs[j].1))
    decreases |pairs| - k
  {
    if k == |pairs| then Ok(([], counts))
    else
      var a := pairs[k].0;
      var b := pairs[k].1;
      var ca := if a in counts then counts[a] else 0;
      var cb := if b in counts then counts[b] else 0;
      if ca < g && cb < g then
        if a !in counts then Err(UnknownTeam(a))
        else
          var counts' := counts[a := counts[a] + 1];
          if b !in counts' then Err(UnknownTeam(b))
          else
            var rest :- Greedy(pairs, g, counts'[b := counts'[b] + 1], flips, k + 1);
            Ok(([if flips(k) then (a, b) else (b, a)] + rest.0, rest.1))
      else Greedy(pairs, g, counts, flips, k + 1)
  }

  /** `x` is one of the pairs from `k` on, either way round. */
  predicate Drawn(pairs: seq<Pair>, k: nat, x: Pair) {
    exists j :: k <= j < |pairs| && (x == pairs[j] || x == (pairs[j].1, pairs[j].0))
  }

  lemma AppearancesCons(x: Pair, rest: seq<Pair>, t: nat)
    ensures Appearances([x] + rest, t) == (if x.0 == t then 1 else 0) + (if x.1 == t then 1 else 0) + Appearances(rest, t)
  {
    assert ([x] + rest)[1..] == rest;
  }

  /** The counters end up counting the games taken. */
  lemma {:induction false} GreedyCounts(pairs: seq<Pair>, g: nat, counts: map<nat, nat>, flips: nat -> bool, k: nat)
    requires k <= |pairs| && Greedy(pairs, g, counts, flips, k).Ok?
    ensures var r := Greedy(pairs, g, counts, flips, k).value;
            forall t :: t in counts ==> r.1[t] == counts[t] + Appearances(r.0, t)
    decreases |pairs| - k
  {
    if k < |pairs| {
      var a := pairs[k].0;
      var b := pairs[k].1;
      var ca := if a in counts then counts[a] else 0;
      var cb := if b in counts then counts[b] else 0;
      if ca < g && cb < g {
        var next := counts[a := counts[a] + 1][b := counts[a := counts[a] + 1][b] + 1];
        GreedyCounts(pairs, g, next, flips, k + 1);
        var rest := Greedy(pairs, g, next, flips, k + 1).value;
        var game := if flips(k) then (a, b) else (b, a);
        var r := Greedy(pairs, g, counts, flips, k).value;
        assert r == ([game] + rest.0, rest.1);
        forall t | t in counts ensures r.1[t] == counts[t] + Appearances(r.0, t) {
          AppearancesCons(game, rest.0, t);
        }
      } else {
        GreedyCounts(pairs, g, counts, flips, k + 1);
      }
    }
  }

  /** Every game taken is one of the pairs from `k` on, either way round,
      and both its teams have counters. */
  lemma {:induction false} GreedyDrawn(pairs: seq<Pair>, g: nat, counts: map<nat, nat>, flips: nat -> bool, k: nat)
    requires k <= |pairs| && Greedy(pairs, g, counts, flips, k).Ok?
    ensures var r := Greedy(pairs, g, counts, flips, k).value;
            forall i :: 0 <= i < |r.0| ==> (r.0[i].0 in counts && r.0[i].1 in counts
              && Drawn(pairs, k, r.0[i]))
    decreases |pairs| - k
  {
    if k < |pairs| {
      var a := pairs[k].0;
      var b := pairs[k].1;
      var ca := if a in counts then counts[a] else 0;
      var cb := if b in counts then counts[b] else 0;
      if ca < g && cb < g {
        var next := counts[a := counts[a] + 1][b := counts[a := counts[a] + 1][b] + 1];
        GreedyDrawn(pairs, g, next, flips, k + 1);
        var rest := Greedy(pairs, g, next, flips, k + 1).value;
        var game := if flips(k) then (a, b) else (b, a);
        var r := Greedy(pairs, g, counts, flips, k).value;
        assert r == ([game] + rest.0, rest.1);
        forall i | 0 <= i < |r.0| ensures r.0[i].0 in counts && r.0[i].1 in counts && Drawn(pairs, k, r.0[i]) {
          if i == 0 {
            assert r.0[i] == game;
          } else {
            assert r.0[i] == rest.0[i - 1];
          }
        }
      } else {
        GreedyDrawn(pairs, g, counts, flips, k + 1);
      }
    }
  }

  /** With no pair of a team against itself, no counter passes `g`: a pair
      is only taken while both its counters are below `g`. */
  lemma {:induction false} GreedyBounded(pairs: seq<Pair>, g: nat, counts: map<nat, nat>, flips: nat -> bool, k: nat)
    requires k <= |pairs| && Greedy(pairs, g, counts, flips, k).Ok?
    requires forall j :: k <= j < |pairs| ==> pairs[j].0 != pairs[j].1
    requires forall t :: t in counts ==> counts[t] <= g
    ensures var r := Greedy(pairs, g, counts, flips, k).value;
            forall t :: t in r.1 ==> r.1[t] <= g
    decreases |pairs| - k
  {
    if k < |pairs| {
      var a := pairs[k].0;
      var b := pairs[k].1;
      var ca := if a in counts then counts[a] else 0;
      var cb := if b in counts then counts[b] else 0;
      if ca < g && cb < g {
        var next := counts[a := counts[a] + 1][b := counts[a := counts[a] + 1][b] + 1];
        GreedyBounded(pairs, g, next, flips, k + 1);
      } else {
        GreedyBounded(pairs, g, counts, flips, k + 1);
      }
    }
  }

  /** `x` pairs a team of one conference with a team of a later one. */
  predicate CrossOrdered(cs: seq<C.Conference>, x: Pair) {
    exists i, j :: 0 <= i < j < |cs| && x.0 in C.AllTeams(cs[i]) && x.1 in C.AllTeams(cs[j])
  }

  lemma CrossOrderedShift(cs: seq<C.Conference>, x: Pair)
    requires |cs| > 0 && CrossOrdered(cs[1..], x)
    ensures CrossOrdered(cs, x)
  {
    var i, j :| 0 <= i < j < |cs| - 1 && x.0 in C.AllTeams(cs[1..][i]) && x.1 in C.AllTeams(cs[1..][j]);
    assert cs[1..][i] == cs[i + 1] && cs[1..][j] == cs[j + 1];
  }

  /** Every pair `(t1, t2)` of teams with `t1` in an earlier conference
      than `t2`, conference by conference. */
  function CrossPairs(cs: seq<C.Conference>): (r: seq<Pair>)
    ensures forall k :: 0 <= k < |r| ==> CrossOrdered(cs, r[k])
    decreases |cs|
  {
    if |cs| == 0 then []
    else
      var rest := CrossPairs(cs[1..]);
      var here := PairsWithLater(C.AllTeams(cs[0]), cs[1..]);
      forall k | 0 <= k < |rest| ensures CrossOrdered(cs, rest[k]) {
        CrossOrderedShift(cs, rest[k]);
      }
      forall k | 0 <= k < |here| ensures CrossOrdered(cs, here[k]) {
        var j :| 0 <= j < |cs| - 1 && here[k].0 in C.AllTeams(cs[0]) && here[k].1 in C.AllTeams(cs[1..][j]);
        assert cs[1..][j] == cs[j + 1];
      }
      here + rest
  }

  /** Each team of `front` against each team of every later conference. */
  function PairsWithLater(front: seq<nat>, later: seq<C.Conference>): (r: seq<Pair>)
    ensures forall k :: 0 <= k < |r| ==> r[k].0 in front && exists j :: 0 <= j < |later| && r[k].1 in C.AllTeams(later[j])
    decreases |later|
  {
    if |later| == 0 then []
    else
      var rest := PairsWithLater(front, later[1..]);
      var here := Product(front, C.AllTeams(later[0]));
      forall k | 0 <= k < |rest| ensures exists j :: 0 <= j < |later| && rest[k].1 in C.AllTeams(later[j]) {
        var j :| 0 <= j < |later| - 1 && rest[k].1 in C.AllTeams(later[1..][j]);
        assert later[1..][j] == later[j + 1];
      }
      here + rest
  }

  /** Every team of `a` with every team of `b`, `a` outermost. */
  function Product(a: seq<nat>, b: seq<nat>): (r: seq<Pair>)
    ensures forall k :: 0 <= k < |r| ==> r[k].0 in a && r[k].1 in b
    decreases |a|
  {
    if |a| == 0 then []
    else seq(|b|, j requires 0 <= j < |b| => (a[0], b[j])) + Product(a[1..], b)
  }

  /** Zero games so far for every season team. */
  function ZeroCounts(teams: Teams): (m: map<nat, nat>)
    ensures m.Keys == teams.Keys && forall t :: t in m ==> m[t] == 0
  {
    map t | t in teams :: 0
  }

  /** `generate_cross_conference_matchups`, given the cross-conference
      pairs in the order the shuffle left them: nothing with fewer than two
      conferences or no games asked for, otherwise the greedy choice. */
  function CrossGames(s: Seasons.Season, g: nat, pairs: seq<Pair>, flips: nat -> bool)
    : (r: Result<seq<Pair>, ScheduleError>)
    requires multiset(pairs) == multiset(CrossPairs(s.conferences))
    ensures |s.conferences| < 2 || g == 0 ==> r == Ok([])
  {
    if |s.conferences| < 2 || g == 0 then Ok([])
    else
      var res :- Greedy(pairs, g, ZeroCounts(s.teams), flips, 0);
      Ok(res.0)
  }

  /** The greedy choice gives no season team more than `g`
      cross-conference games, as long as no pair is a team against itself. */
  lemma CrossGamesBounded(s: Seasons.Season, g: nat, pairs: seq<Pair>, flips: nat -> bool)
    requires multiset(pairs) == multiset(CrossPairs(s.conferences))
    requires forall j :: 0 <= j < |pairs| ==> pairs[j].0 != pairs[j].1
    requires CrossGames(s, g, pairs, flips).Ok?
    ensures forall t :: t in s.teams ==> Appearances(CrossGames(s, g, pairs, flips).value, t) <= g
  {
    var games := CrossGames(s, g, pairs, flips).value;
    if |s.conferences| >= 2 && g > 0 {
      var res := Greedy(pairs, g, ZeroCounts(s.teams), flips, 0).value;
      assert games == res.0;
      GreedyCounts(pairs, g, ZeroCounts(s.teams), flips, 0);
      GreedyBounded(pairs, g, ZeroCounts(s.teams), flips, 0);
      forall t | t in s.teams ensures Appearances(games, t) <= g {
        assert res.1[t] == 0 + Appearances(games, t);
      }
    }
  }

  /** Two teams listed under one pair of different conferences. */
  predicate CrossConference(cs: seq<C.Conference>, x: Pair) {
    exists i, j :: 0 <= i < |cs| && 0 <= j < |cs| && i != j && x.0 in C.AllTeams(cs[i]) && x.1 in C.AllTeams(cs[j])
  }

  lemma CrossPairIsCross(cs: seq<C.Conference>, pairs: seq<Pair>, p: nat)
    requires multiset(pairs) == multiset(CrossPairs(cs)) && p < |pairs|
    ensures CrossConference(cs, pairs[p]) && CrossConference(cs, (pairs[p].1, pairs[p].0))
  {
    assert pairs[p] in multiset(CrossPairs(cs));
    var q :| 0 <= q < |CrossPairs(cs)| && CrossPairs(cs)[q] == pairs[p];
    var i, j :| 0 <= i < j < |cs| && pairs[p].0 in C.AllTeams(cs[i]) && pairs[p].1 in C.AllTeams(cs[j]);
    assert CrossConference(cs, (pairs[p].1, pairs[p].0)) by {
      assert (pairs[p].1, pairs[p].0).0 in C.AllTeams(cs[j]);
    }
  }

  lemma DrawnIsCross(cs: seq<C.Conference>, pairs: seq<Pair>, x: Pair)
    requires multiset(pairs) == multiset(CrossPairs(cs)) && Drawn(pairs, 0, x)
    ensures CrossConference(cs, x)
  {
    var p :| 0 <= p < |pairs| && (x == pairs[p] || x == (pairs[p].1, pairs[p].0));
    CrossPairIsCross(cs, pairs, p);
  }

  /** Every cross-conference game is between teams of two different
      conferences, whichever side the coin put at home. */
  lemma CrossGamesBetweenConferences(s: Seasons.Season, g: nat, pairs: seq<Pair>, flips: nat -> bool)
    requires multiset(pairs) == multiset(CrossPairs(s.conferences))
    requires CrossGames(s, g, pairs, flips).Ok?
    ensures forall k :: 0 <= k < |CrossGames(s, g, pairs, flips).value| ==>
              CrossConference(s.conferences, CrossGames(s, g, pairs, flips).value[k])
  {
    var games := CrossGames(s, g, pairs, flips).value;
    if |s.conferences| >= 2 && g > 0 {
      var res := Greedy(pairs, g, ZeroCounts(s.teams), flips, 0).value;
      assert games == res.0;
      GreedyDrawn(pairs, g, ZeroCounts(s.teams), flips, 0);
      forall k | 0 <= k < |games| ensures CrossConference(s.conferences, games[k]) {
        DrawnIsCross(s.conferences, pairs, games[k]);
      }
    }
  }

  // ----- the structured generator -----

  /** The game counts of `LeagueSeasonScheduleOptions` this generator reads. */
  datatype StructuredOptions = StructuredOptions(
    divisionGames: Option<nat>, conferenceGames: Option<nat>, crossConferenceGames: Option<nat>, shift: Option<nat>)

  /** The first half of `generate_structured_schedule`: at least four teams
      and a season not yet started, then the division games (2 cycles by
      default), the conference games (1 by default) and, when asked for
      (0 by default), the cross-conference games, in that order. */
  function StructuredGames(s: Seasons.Season, o: StructuredOptions, shuffled: seq<seq<seq<nat>>>,
                           crossPairs: seq<Pair>, crossFlips: nat -> bool)
    : (r: Result<seq<Pair>, ScheduleError>)
    requires Shuffles(s.conferences, shuffled)
    requires multiset(crossPairs) == multiset(CrossPairs(s.conferences))
    ensures |s.teams| < 4 ==> r == Err(TooFewTeams(|s.teams|))
    ensures |s.teams| >= 4 && Seasons.HasStarted(s) ==> r == Err(AlreadyStarted)
    ensures r.Ok? ==> multiset(DivisionGames(s.conferences, shuffled, o.divisionGames.GetOr(2)))
                      + multiset(ConferenceGames(s, o.conferenceGames.GetOr(1))) <= multiset(r.value)
  {
    if |s.teams| < 4 then Err(TooFewTeams(|s.teams|))
    else if Seasons.HasStarted(s) then Err(AlreadyStarted)
    else
      var division := DivisionGames(s.conferences, shuffled, o.divisionGames.GetOr(2));
      var conference := ConferenceGames(s, o.conferenceGames.GetOr(1));
      var g := o.crossConferenceGames.GetOr(0);
      var cross :- if g > 0 then CrossGames(s, g, crossPairs, crossFlips) else Ok([]);
      Ok(division + conference + cross)
  }

  /** The weeks `interleave_matchups` builds before it stops: all of them,
      or the first `10 * n + 1` when there are more than `10 * n`. */
  function Pushed(packed: seq<seq<Pair>>, n: nat): (r: seq<seq<Pair>>)
    ensures |packed| > 10 * n ==> |r| == 10 * n + 1
    ensures |packed| <= 10 * n ==> r == packed
    ensures forall k :: 0 <= k < |r| ==> r[k] == packed[k]
  {
    if |packed| > 10 * n then packed[..10 * n + 1] else packed
  }

  /** The second half: `interleave_matchups` on the games in the order its
      shuffle left them, building each week's matchups (an unknown team or
      a long short name panics, `ShortNameRejected` here) and failing once
      it has pushed more than `10 * n` weeks, then a shift of the weeks when
      it is positive and at most their number. */
  function PackSchedule(s: Seasons.Season, order: seq<Pair>, shift: Option<nat>, flips: nat -> nat -> bool)
    : (r: Result<Seasons.Season, ScheduleError>)
    ensures var packed := Packed(order, |s.teams|);
            |packed| > 10 * |s.teams| && (forall k :: 0 <= k <= 10 * |s.teams| ==> AllNamed(s.teams, packed[k]))
            ==> r == Err(PackingFailed(10 * |s.teams| + 1))
    ensures r.Ok? <==> |Packed(order, |s.teams|)| <= 10 * |s.teams|
                       && forall k :: 0 <= k < |Packed(order, |s.teams|)| ==> AllNamed(s.teams, Packed(order, |s.teams|)[k])
    ensures r.Ok? ==> r.value == s.(weeks := r.value.weeks)
    ensures r.Ok? ==> |r.value.weeks| == |Packed(order, |s.teams|)|
  {
    var packed := Packed(order, |s.teams|);
    match BuildWeeks(s.teams, Pushed(packed, |s.teams|), flips)
    case None => Err(ShortNameRejected)
    case Some(ws) =>
      if |packed| > 10 * |s.teams| then Err(PackingFailed(10 * |s.teams| + 1))
      else
        var k := shift.GetOr(0);
        Ok(s.(weeks := if 0 < k <= |ws| then Shifted(ws, k) else ws))
  }

  /** The home and away teams of every matchup of a week. */
  function GamesOf(w: Week): (r: seq<Pair>)
    ensures |r| == |w.matchups| && forall i :: 0 <= i < |r| ==> r[i] == (w.matchups[i].home, w.matchups[i].away)
  {
    seq(|w.matchups|, i requires 0 <= i < |w.matchups| => (w.matchups[i].home, w.matchups[i].away))
  }

  /** Every game of the schedule, week by week. */
  function ScheduleGames(ws: seq<Week>): seq<Pair>
    decreases |ws|
  {
    if |ws| == 0 then [] else GamesOf(ws[0]) + ScheduleGames(ws[1..])
  }

  lemma {:induction false} ScheduleGamesOfRealized(ws: seq<Week>, gs: seq<seq<Pair>>)
    requires |ws| == |gs| && forall k :: 0 <= k < |ws| ==> Realizes(ws[k], gs[k])
    ensures ScheduleGames(ws) == Concat(gs)
    decreases |ws|
  {
    if |ws| > 0 {
      assert GamesOf(ws[0]) == gs[0];
      ScheduleGamesOfRealized(ws[1..], gs[1..]);
    }
  }

  lemma {:induction false} ScheduleGamesAppend(a: seq<Week>, b: seq<Week>)
    ensures ScheduleGames(a + b) == ScheduleGames(a) + ScheduleGames(b)
    decreases |a|
  {
    if |a| > 0 {
      assert (a + b)[0] == a[0];
      assert (a + b)[1..] == a[1..] + b;
      ScheduleGamesAppend(a[1..], b);
    } else {
      assert a + b == b;
    }
  }

  /** Moving weeks round keeps the games scheduled. */
  lemma ShiftedKeepsGames(ws: seq<Week>, k: nat)
    requires k <= |ws|
    ensures multiset(ScheduleGames(Shifted(ws, k))) == multiset(ScheduleGames(ws))
  {
    if k > 0 {
      var n := |ws|;
      assert ws == ws[..n - k] + ws[n - k..];
      assert Shifted(ws, k) == ws[n - k..] + ws[..n - k];
      ScheduleGamesAppend(ws[n - k..], ws[..n - k]);
      ScheduleGamesAppend(ws[..n - k], ws[n - k..]);
    }
  }

  /** The packed schedule holds every game handed to it exactly as often as
      it was handed over, in unfinished matchups, and, when no game pits a
      team against itself, every week fits the validator: season teams
      only, none twice. */
  lemma PackScheduleKeepsGames(s: Seasons.Season, order: seq<Pair>, shift: Option<nat>, flips: nat -> nat -> bool)
    requires PackSchedule(s, order, shift, flips).Ok?
    ensures multiset(ScheduleGames(PackSchedule(s, order, shift, flips).value.weeks)) == multiset(order)
    ensures forall i :: 0 <= i < |PackSchedule(s, order, shift, flips).value.weeks| ==>
              |PackSchedule(s, order, shift, flips).value.weeks[i].matchups| > 0
              && !Started(PackSchedule(s, order, shift, flips).value.weeks[i])
    ensures NoSelfGames(order) ==> forall i :: 0 <= i < |PackSchedule(s, order, shift, flips).value.weeks| ==>
              Seasons.WeekFits(s.teams, PackSchedule(s, order, shift, flips).value.weeks[i])
  {
    var packed := Packed(order, |s.teams|);
    assert Pushed(packed, |s.teams|) == packed;
    var ws := BuildWeeks(s.teams, packed, flips).value;
    var k := shift.GetOr(0);
    var kk := if 0 < k <= |ws| then k else 0;
    assert PackSchedule(s, order, shift, flips).value.weeks == Shifted(ws, kk);
    PackedPlacesEveryGame(order, |s.teams|);
    ScheduleGamesOfRealized(ws, packed);
    ShiftedKeepsGames(ws, kk);
    PackedWeeksFresh(s, order, shift, flips);
    if NoSelfGames(order) {
      PackedWeeksFit(s, order, shift, flips);
    }
  }

  lemma PackedWeeksFresh(s: Seasons.Season, order: seq<Pair>, shift: Option<nat>, flips: nat -> nat -> bool)
    requires PackSchedule(s, order, shift, flips).Ok?
    ensures forall i :: 0 <= i < |PackSchedule(s, order, shift, flips).value.weeks| ==>
              |PackSchedule(s, order, shift, flips).value.weeks[i].matchups| > 0
              && !Started(PackSchedule(s, order, shift, flips).value.weeks[i])
  {
    var packed := Packed(order, |s.teams|);
    assert Pushed(packed, |s.teams|) == packed;
    var ws := BuildWeeks(s.teams, packed, flips).value;
    var k := shift.GetOr(0);
    var out := PackSchedule(s, order, shift, flips).value.weeks;
    var kk := if 0 < k <= |ws| then k else 0;
    assert out == Shifted(ws, kk);
    PackedPlacesEveryGame(order, |s.teams|);
    forall i | 0 <= i < |out| ensures |out[i].matchups| > 0 && !Started(out[i]) {
      var j := Source(i, kk, |ws|);
      assert out[i] == ws[j] && |packed[j]| > 0;
      FreshWeek(ws[j], packed[j]);
    }
  }

  lemma PackedWeeksFit(s: Seasons.Season, order: seq<Pair>, shift: Option<nat>, flips: nat -> nat -> bool)
    requires PackSchedule(s, order, shift, flips).Ok? && NoSelfGames(order)
    ensures forall i :: 0 <= i < |PackSchedule(s, order, shift, flips).value.weeks| ==>
              Seasons.WeekFits(s.teams, PackSchedule(s, order, shift, flips).value.weeks[i])
  {
    var packed := Packed(order, |s.teams|);
    assert Pushed(packed, |s.teams|) == packed;
    var ws := BuildWeeks(s.teams, packed, flips).value;
    var k := shift.GetOr(0);
    var out := PackSchedule(s, order, shift, flips).value.weeks;
    var kk := if 0 < k <= |ws| then k else 0;
    assert out == Shifted(ws, kk);
    PackedPlacesEveryGame(order, |s.teams|);
    forall i | 0 <= i < |out| ensures Seasons.WeekFits(s.teams, out[i]) {
      var j := Source(i, kk, |ws|);
      assert out[i] == ws[j];
      assert OncePerWeek(packed[j]) && AllNamed(s.teams, packed[j]);
      RealizedWeekFits(s.teams, ws[j], packed[j]);
    }
  }

  /** `generate_structured_schedule` up to its optional shuffle of the
      weeks (`PermuteWeeks`), with the season it leaves beside its refusal,
      if any. The two checks refuse before anything changes. Past them the
      old weeks are cleared first, and `interleave_matchups` pushes every
      week as soon as it is built, so a refusal for too many weeks leaves
      the first `10 * n + 1` weeks on the season and the old schedule is
      gone. `shuffle` is the order `interleave_matchups` shuffles the games
      into; a panic leaves the weeks cleared. */
  function GenerateStructured(s: Seasons.Season, o: StructuredOptions, shuffled: seq<seq<seq<nat>>>,
                              crossPairs: seq<Pair>, crossFlips: nat -> bool,
                              shuffle: seq<Pair> -> seq<Pair>, flips: nat -> nat -> bool)
    : (r: (Seasons.Season, Option<ScheduleError>))
    requires Shuffles(s.conferences, shuffled)
    requires multiset(crossPairs) == multiset(CrossPairs(s.conferences))
    ensures r.0 == s.(weeks := r.0.weeks)
    ensures |s.teams| < 4 ==> r == (s, Some(TooFewTeams(|s.teams|)))
    ensures |s.teams| >= 4 && Seasons.HasStarted(s) ==> r == (s, Some(AlreadyStarted))
    ensures r.1.None? <==> (StructuredGames(s, o, shuffled, crossPairs, crossFlips).Ok?
              && PackSchedule(s, shuffle(StructuredGames(s, o, shuffled, crossPairs, crossFlips).value), o.shift, flips).Ok?)
    ensures r.1.Some? && r.0.weeks != s.weeks ==> r.1.value.PackingFailed? || r.0.weeks == []
  {
    match StructuredGames(s, o, shuffled, crossPairs, crossFlips)
    case Err(e) => (if |s.teams| < 4 || Seasons.HasStarted(s) then s else s.(weeks := []), Some(e))
    case Ok(games) =>
      var order := shuffle(games);
      match PackSchedule(s, order, o.shift, flips)
      case Ok(t) => (t, None)
      case Err(e) =>
        var pushed := if e.PackingFailed? then BuildWeeks(s.teams, Pushed(Packed(order, |s.teams|), |s.teams|), flips) else None;
        (s.(weeks := if pushed.Some? then pushed.value else []), Some(e))
  }

  /** Running out of weeks leaves the first `10 * n + 1` weeks of the
      packing on the season, in place of the schedule it had. */
  lemma PackingFailureLeavesPushedWeeks(s: Seasons.Season, o: StructuredOptions, shuffled: seq<seq<seq<nat>>>,
                                        crossPairs: seq<Pair>, crossFlips: nat -> bool,
                                        shuffle: seq<Pair> -> seq<Pair>, flips: nat -> nat -> bool)
    requires Shuffles(s.conferences, shuffled)
    requires multiset(crossPairs) == multiset(CrossPairs(s.conferences))
    requires StructuredGames(s, o, shuffled, crossPairs, crossFlips).Ok?
    requires var packed := Packed(shuffle(StructuredGames(s, o, shuffled, crossPairs, crossFlips).value), |s.teams|);
             |packed| > 10 * |s.teams| && forall k :: 0 <= k <= 10 * |s.teams| ==> AllNamed(s.teams, packed[k])
    ensures var r := GenerateStructured(s, o, shuffled, crossPairs, crossFlips, shuffle, flips);
            var packed := Packed(shuffle(StructuredGames(s, o, shuffled, crossPairs, crossFlips).value), |s.teams|);
            r.1 == Some(PackingFailed(10 * |s.teams| + 1)) && |r.0.weeks| == 10 * |s.teams| + 1
            && forall k :: 0 <= k <= 10 * |s.teams| ==> Realizes(r.0.weeks[k], packed[k])
  {
    var order := shuffle(StructuredGames(s, o, shuffled, crossPairs, crossFlips).value);
    var ws := PushedWeeksBuilt(s, order, o.shift, flips);
    assert GenerateStructured(s, o, shuffled, crossPairs, crossFlips, shuffle, flips)
           == (s.(weeks := ws), Some(PackingFailed(10 * |s.teams| + 1)));
  }

  lemma PushedWeeksBuilt(s: Seasons.Season, order: seq<Pair>, shift: Option<nat>, flips: nat -> nat -> bool)
    returns (ws: seq<Week>)
    requires var packed := Packed(order, |s.teams|);
             |packed| > 10 * |s.teams| && forall k :: 0 <= k <= 10 * |s.teams| ==> AllNamed(s.teams, packed[k])
    ensures var packed := Packed(order, |s.teams|);
            BuildWeeks(s.teams, Pushed(packed, |s.teams|), flips) == Some(ws)
            && |ws| == 10 * |s.teams| + 1 && forall k :: 0 <= k <= 10 * |s.teams| ==> Realizes(ws[k], packed[k])
    ensures PackSchedule(s, order, shift, flips) == Err(PackingFailed(10 * |s.teams| + 1))
  {
    var packed := Packed(order, |s.teams|);
    var pushed := Pushed(packed, |s.teams|);
    assert forall k :: 0 <= k < |pushed| ==> AllNamed(s.teams, pushed[k]);
    ws := BuildWeeks(s.teams, pushed, flips).value;
  }

  /** A finished schedule holds exactly the games generated, each in an
      unfinished matchup of a non-empty week, so every division game and
      every conference game is on it. */
  lemma GenerateStructuredKeepsGames(s: Seasons.Season, o: StructuredOptions, shuffled: seq<seq<seq<nat>>>,
                                     crossPairs: seq<Pair>, crossFlips: nat -> bool,
                                     shuffle: seq<Pair> -> seq<Pair>, flips: nat -> nat -> bool)
    requires Shuffles(s.conferences, shuffled)
    requires multiset(crossPairs) == multiset(CrossPairs(s.conferences))
    requires forall g :: multiset(shuffle(g)) == multiset(g)
    requires GenerateStructured(s, o, shuffled, crossPairs, crossFlips, shuffle, flips).1.None?
    ensures var ws := GenerateStructured(s, o, shuffled, crossPairs, crossFlips, shuffle, flips).0.weeks;
            multiset(ScheduleGames(ws)) == multiset(StructuredGames(s, o, shuffled, crossPairs, crossFlips).value)
            && multiset(DivisionGames(s.conferences, shuffled, o.divisionGames.GetOr(2)))
               + multiset(ConferenceGames(s, o.conferenceGames.GetOr(1))) <= multiset(ScheduleGames(ws))
            && forall i :: 0 <= i < |ws| ==> |ws[i].matchups| > 0 && !Started(ws[i])
  {
    var games := StructuredGames(s, o, shuffled, crossPairs, crossFlips).value;
    var order := shuffle(games);
    assert multiset(order) == multiset(games);
    PackScheduleKeepsGames(s, order, o.shift, flips);
  }

  /** Every two teams of a division with an even number of distinct teams
      meet in a finished structured schedule when at least one division
      cycle is asked for. */
  lemma StructuredDivisionRivalsMeet(s: Seasons.Season, o: StructuredOptions, shuffled: seq<seq<seq<nat>>>,
                                     crossPairs: seq<Pair>, crossFlips: nat -> bool,
                                     shuffle: seq<Pair> -> seq<Pair>, flips: nat -> nat -> bool,
                                     c: nat, d: nat, x: nat, y: nat)
    requires Shuffles(s.conferences, shuffled)
    requires multiset(crossPairs) == multiset(CrossPairs(s.conferences))
    requires forall g :: multiset(shuffle(g)) == multiset(g)
    requires GenerateStructured(s, o, shuffled, crossPairs, crossFlips, shuffle, flips).1.None?
    requires o.divisionGames.GetOr(2) >= 1
    requires c < |s.conferences| && d < |s.conferences[c].divisions|
    requires var t := s.conferences[c].divisions[d].teams;
             |t| >= 2 && |t| % 2 == 0 && Ids.Distinct(t) && x in t && y in t && x != y
    ensures Plays(ScheduleGames(GenerateStructured(s, o, shuffled, crossPairs, crossFlips, shuffle, flips).0.weeks), x, y)
  {
    var ws := GenerateStructured(s, o, shuffled, crossPairs, crossFlips, shuffle, flips).0.weeks;
    var division := DivisionGames(s.conferences, shuffled, o.divisionGames.GetOr(2));
    DivisionRivalsMeet(s.conferences, shuffled, o.divisionGames.GetOr(2), c, d, x, y);
    GenerateStructuredKeepsGames(s, o, shuffled, crossPairs, crossFlips, shuffle, flips);
    var g := if (x, y) in division then (x, y) else (y, x);
    assert g in multiset(division);
    assert g in multiset(ScheduleGames(ws));
  }

  /** A week realizing games that fit a week, all between named season
      teams, fits the validator. */
  lemma RealizedWeekFits(teams: Teams, w: Week, games: seq<Pair>)
    requires Realizes(w, games) && OncePerWeek(games) && AllNamed(teams, games)
    ensures Seasons.WeekFits(teams, w)
  {
    var ms := w.matchups;
    forall j, l | 0 <= j < l < |ms| ensures Seasons.MatchupsApart(ms[j], ms[l]) {
      assert Apart(games[j], games[l]);
    }
    Seasons.WeekFitsIffApart(teams, w);
  }
}
