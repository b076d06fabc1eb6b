/** Standings and head-to-head records of a season (src/league/season.rs,
    `standings`, `division_standings`, `conference_standings`,
    `division_record`, `conference_record`). The standings order teams by
    win percentage, then wins, then ID; the program sorts with a comparator
    on `f64` percentages, modelled here by exact rationals. */
module Standings {
  import opened Wrappers
  import opened Records
  import opened SeasonMatchups
  import opened Weeks
  import C = Conferences
  import Maps
  import Seasons

  /** A team and its record. */
  type Entry = (nat, TeamRecord)

  datatype StandingsError =
    | NoConference(index: nat)
    | NoDivision(conference: nat, division: nat)
    | NoDivisionFor(team: nat)
    | DivisionNotFound(team: nat)
    | NoConferenceFor(team: nat)
    | ConferenceNotFound(team: nat)

  // ----- the order -----

  /** The win percentage (wins + ties / 2) / games, and 0 without games. */
  function WinPct(r: TeamRecord): real {
    if Records.Games(r) == 0 then 0.0 else (r.wins as real + 0.5 * r.ties as real) / Records.Games(r) as real
  }

  /** The percentage as a fraction of naturals: twice the wins plus the
      ties, over twice the games (over 1 without games). */
  function Points(r: TeamRecord): nat {
    2 * r.wins + r.ties
  }

  function Scale(r: TeamRecord): nat {
    if Records.Games(r) == 0 then 1 else 2 * Records.Games(r)
  }

  /** `a` has the higher percentage, compared by cross-multiplication. */
  predicate Above(a: TeamRecord, b: TeamRecord) {
    Points(a) * Scale(b) > Points(b) * Scale(a)
  }

  /** The percentages are equal. */
  predicate Level(a: TeamRecord, b: TeamRecord) {
    Points(a) * Scale(b) == Points(b) * Scale(a)
  }

  lemma DivTimes(x: real, y: real)
    requires y > 0.0
    ensures (x / y) * y == x
  {
  }
  lemma DivUnique(x: real, y: real, q: real)
    requires y > 0.0 && q * y == x
    ensures x / y == q
  {
    DivTimes(x, y);
    assert (x / y - q) * y == 0.0;
  }
  lemma MulPos(a: real, b: real)
    requires a > 0.0 && b > 0.0
    ensures a * b > 0.0
  {
  }
  lemma FractionOrder(x: real, y: real, u: real, v: real)
    requires y > 0.0 && v > 0.0
    ensures x / y > u / v <==> x * v > u * y
    ensures x / y == u / v <==> x * v == u * y
  {
    var p := x / y;
    var q := u / v;
    DivTimes(x, y);
    DivTimes(u, v);
    assert x * v - u * y == (p - q) * (y * v);
    MulPos(y, v);
    if p > q {
      MulPos(p - q, y * v);
    } else if p < q {
      MulPos(q - p, y * v);
    }
  }
  lemma CrossCompare(pa: nat, sa: nat, pb: nat, sb: nat)
    requires sa > 0 && sb > 0
    ensures (pa as real) / (sa as real) > (pb as real) / (sb as real) <==> pa * sb > pb * sa
    ensures (pa as real) / (sa as real) == (pb as real) / (sb as real) <==> pa * sb == pb * sa
  {
    FractionOrder(pa as real, sa as real, pb as real, sb as real);
    assert (pa * sb) as real == pa as real * sb as real;
    assert (pb * sa) as real == pb as real * sa as real;
  }
  lemma Halves(w: nat, t: nat, g: nat)
    requires g > 0
    ensures (w as real + 0.5 * t as real) / (g as real) == ((2 * w + t) as real) / ((2 * g) as real)
  {
    var n := w as real + 0.5 * t as real;
    DivTimes(n, g as real);
    DivUnique((2 * w + t) as real, (2 * g) as real, n / g as real);
  }
  lemma NoGames(p: nat, s: nat)
    requires p == 0 && s == 1
    ensures (p as real) / (s as real) == 0.0
  {
  }
  lemma PctIsFraction(r: TeamRecord)
    ensures WinPct(r) == (Points(r) as real) / (Scale(r) as real)
  {
    if Records.Games(r) > 0 {
      Halves(r.wins, r.ties, Records.Games(r));
    } else {
      NoGames(Points(r), Scale(r));
    }
  }
  /** The integer comparison is the comparison of win percentages. */
  lemma AboveIsHigherPct(a: TeamRecord, b: TeamRecord)
    ensures Above(a, b) <==> WinPct(a) > WinPct(b)
    ensures Level(a, b) <==> WinPct(a) == WinPct(b)
  {
    PctIsFraction(a);
    PctIsFraction(b);
    CrossCompare(Points(a), Scale(a), Points(b), Scale(b));
  }

  /** The comparator of `standings`: higher percentage first, then more
      wins, then the lower ID. */
  predicate Before(a: Entry, b: Entry) {
    || Above(a.1, b.1)
    || (Level(a.1, b.1) && (a.1.wins > b.1.wins || (a.1.wins == b.1.wins && a.0 < b.0)))
  }

  /** `Before` is the lexicographic order on (percentage descending, wins
      descending, ID ascending). */
  lemma BeforeIsLexicographic(a: Entry, b: Entry)
    ensures Before(a, b) <==> (|| WinPct(a.1) > WinPct(b.1)
                               || (WinPct(a.1) == WinPct(b.1) && a.1.wins > b.1.wins)
                               || (WinPct(a.1) == WinPct(b.1) && a.1.wins == b.1.wins && a.0 < b.0))
  {
    AboveIsHigherPct(a.1, b.1);
  }

  /** The comparator is a strict order that ranks any two teams with
      different IDs one way or the other. */
  lemma BeforeIsStrictTotal(a: Entry, b: Entry, c: Entry)
    ensures !Before(a, a)
    ensures Before(a, b) ==> !Before(b, a)
    ensures Before(a, b) && Before(b, c) ==> Before(a, c)
    ensures !Before(b, a) && !Before(c, b) ==> !Before(c, a)
    ensures a.0 != b.0 ==> Before(a, b) || Before(b, a)
  {
    BeforeIsLexicographic(a, a);
    BeforeIsLexicographic(a, b);
    BeforeIsLexicographic(b, a);
    BeforeIsLexicographic(b, c);
    BeforeIsLexicographic(c, b);
    BeforeIsLexicographic(a, c);
    BeforeIsLexicographic(c, a);
  }

  // ----- sorting -----

  /** No entry belongs before an earlier one. */
  predicate Ordered(s: seq<Entry>) {
    forall i, j :: 0 <= i < j < |s| ==> !Before(s[j], s[i])
  }

  /** Every entry belongs before every later one. */
  predicate Ranked(s: seq<Entry>) {
    forall i, j :: 0 <= i < j < |s| ==> Before(s[i], s[j])
  }

  /** No team is listed twice. */
  predicate DistinctTeams(s: seq<Entry>) {
    forall i, j :: 0 <= i < j < |s| ==> s[i].0 != s[j].0
  }

  /** `e` goes in after the entries that come before it. */
  function Insert(e: Entry, s: seq<Entry>): (r: seq<Entry>)
    ensures |r| == |s| + 1 && multiset(r) == multiset(s) + multiset{e}
    ensures Ordered(s) ==> Ordered(r)
    ensures DistinctTeams(s) && (forall k :: 0 <= k < |s| ==> s[k].0 != e.0) ==> DistinctTeams(r)
    decreases |s|
  {
    if |s| == 0 then [e]
    else if Before(s[0], e) then
      var rest := Insert(e, s[1..]);
      assert s == [s[0]] + s[1..];
      InsertStep(e, s, rest);
      [s[0]] + rest
    else
      InsertFront(e, s);
      [e] + s
  }

  lemma InsertStep(e: Entry, s: seq<Entry>, rest: seq<Entry>)
    requires |s| > 0 && Before(s[0], e) && multiset(rest) == multiset(s[1..]) + multiset{e}
    requires Ordered(s[1..]) ==> Ordered(rest)
    requires DistinctTeams(s[1..]) && (forall k :: 0 <= k < |s| - 1 ==> s[1..][k].0 != e.0) ==> DistinctTeams(rest)
    ensures Ordered(s) ==> Ordered([s[0]] + rest)
    ensures DistinctTeams(s) && (forall k :: 0 <= k < |s| ==> s[k].0 != e.0) ==> DistinctTeams([s[0]] + rest)
  {
    var r := [s[0]] + rest;
    forall x | x in rest ensures x == e || x in s[1..] {
      assert x in multiset(rest);
    }
    if Ordered(s) {
      assert Ordered(s[1..]);
      forall i, j | 0 <= i < j < |r| ensures !Before(r[j], r[i]) {
        if i == 0 {
          assert r[j] in rest;
          BeforeIsStrictTotal(s[0], e, e);
          if r[j] != e {
            var k :| 0 <= k < |s[1..]| && s[1..][k] == r[j];
            assert s[k + 1] == r[j];
          }
        } else {
          assert r[i] == rest[i - 1] && r[j] == rest[j - 1];
        }
      }
    }
    if DistinctTeams(s) && (forall k :: 0 <= k < |s| ==> s[k].0 != e.0) {
      assert DistinctTeams(s[1..]);
      forall i, j | 0 <= i < j < |r| ensures r[i].0 != r[j].0 {
        if i == 0 {
          assert r[j] in rest;
          if r[j] != e {
            var k :| 0 <= k < |s[1..]| && s[1..][k] == r[j];
            assert s[k + 1] == r[j];
          }
        } else {
          assert r[i] == rest[i - 1] && r[j] == rest[j - 1];
        }
      }
    }
  }

  lemma InsertFront(e: Entry, s: seq<Entry>)
    requires |s| > 0 && !Before(s[0], e)
    ensures Ordered(s) ==> Ordered([e] + s)
    ensures DistinctTeams(s) && (forall k :: 0 <= k < |s| ==> s[k].0 != e.0) ==> DistinctTeams([e] + s)
  {
    var r := [e] + s;
    if Ordered(s) {
      forall i, j | 0 <= i < j < |r| ensures !Before(r[j], r[i]) {
        if i == 0 {
          if j > 1 {
            BeforeIsStrictTotal(e, s[0], s[j - 1]);
          }
        } else {
          assert r[i] == s[i - 1] && r[j] == s[j - 1];
        }
      }
    }
  }

  /** Insertion sort by the comparator. */
  function Sort(es: seq<Entry>): (r: seq<Entry>)
    ensures |r| == |es| && multiset(r) == multiset(es)
    ensures Ordered(r)
    ensures DistinctTeams(es) ==> DistinctTeams(r)
    decreases |es|
  {
    if |es| == 0 then []
    else
      var rest := Sort(es[1..]);
      assert es == [es[0]] + es[1..];
      NotAmongRest(es, rest);
      Insert(es[0], rest)
  }

  lemma NotAmongRest(es: seq<Entry>, rest: seq<Entry>)
    requires |es| > 0 && multiset(rest) == multiset(es[1..])
    ensures DistinctTeams(es) ==> DistinctTeams(es[1..]) && forall k :: 0 <= k < |rest| ==> rest[k].0 != es[0].0
  {
    if DistinctTeams(es) {
      forall k | 0 <= k < |rest| ensures rest[k].0 != es[0].0 {
        assert rest[k] in multiset(es[1..]);
        var m :| 0 <= m < |es[1..]| && es[1..][m] == rest[k];
        assert es[m + 1] == rest[k];
      }
    }
  }

  /** Sorted with distinct teams, the order is strict. */
  lemma OrderedDistinctIsRanked(s: seq<Entry>)
    requires Ordered(s) && DistinctTeams(s)
    ensures Ranked(s)
  {
    forall i, j | 0 <= i < j < |s| ensures Before(s[i], s[j]) {
      BeforeIsStrictTotal(s[i], s[j], s[j]);
    }
  }

  /** Any two strictly ranked lists of the same entries are the same list:
      the standings do not depend on the sorting algorithm. */
  lemma RankedMinimal(a: seq<Entry>, x: Entry)
    requires Ranked(a) && x in a
    ensures x == a[0] || Before(a[0], x)
  {
    var k :| 0 <= k < |a| && a[k] == x;
  }

  lemma MultisetCons(a: seq<Entry>)
    requires |a| > 0
    ensures multiset(a) == multiset{a[0]} + multiset(a[1..])
  {
    assert a == [a[0]] + a[1..];
  }

  /** Two strictly ranked lists of the same entries start alike. */
  lemma RankedFirst(a: seq<Entry>, b: seq<Entry>)
    requires Ranked(a) && Ranked(b) && multiset(a) == multiset(b) && |a| > 0
    ensures |b| > 0 && a[0] == b[0]
  {
    assert |multiset(a)| == |a| && |multiset(b)| == |b|;
    assert a[0] in multiset(b);
    assert b[0] in multiset(a);
    RankedMinimal(a, b[0]);
    RankedMinimal(b, a[0]);
    BeforeIsStrictTotal(a[0], b[0], b[0]);
  }

  /** Any two strictly ranked lists of the same entries are the same list:
      the standings do not depend on the sorting algorithm. */
  lemma {:induction false} RankedIsUnique(a: seq<Entry>, b: seq<Entry>)
    requires Ranked(a) && Ranked(b) && multiset(a) == multiset(b)
    ensures a == b
    decreases |a|
  {
    if |a| > 0 {
      RankedFirst(a, b);
      MultisetCons(a);
      MultisetCons(b);
      assert multiset(a[1..]) == multiset(a) - multiset{a[0]};
      assert multiset(b[1..]) == multiset(b) - multiset{b[0]};
      assert Ranked(a[1..]) && Ranked(b[1..]);
      RankedIsUnique(a[1..], b[1..]);
    } else {
      assert |multiset(b)| == |b|;
    }
  }

  // ----- the standings -----

  /** The record of a season team over the season's weeks. */
  function SeasonRecord(s: Seasons.Season, id: nat): TeamRecord
    requires id in s.teams
  {
    Record(Seasons.TeamMatchups(s, id).value)
  }

  /** The loop collecting each team's record, skipping a team whose games
      cannot be listed. */
  function Entries(s: Seasons.Season, ids: seq<nat>): (r: seq<Entry>)
    ensures forall e :: e in r <==> e.0 in ids && e.0 in s.teams && e.1 == SeasonRecord(s, e.0)
    ensures (forall k :: 0 <= k < |ids| ==> ids[k] in s.teams) ==> |r| == |ids|
    ensures Maps.Ascending(ids) ==> DistinctTeams(r) && (forall k :: 0 <= k < |r| ==> r[k].0 in ids)
    decreases |ids|
  {
    if |ids| == 0 then []
    else
      var rest := Entries(s, ids[1..]);
      match Seasons.TeamMatchups(s, ids[0])
      case Err(_) =>
        SkippedEntry(s, ids, rest);
        rest
      case Ok(m) =>
        KeptEntry(s, ids, rest);
        KeptDistinct(ids, rest, (ids[0], Record(m)));
        [(ids[0], Record(m))] + rest
  }

  /** Over ascending IDs, the first ID's entry is not repeated after it. */
  lemma KeptDistinct(ids: seq<nat>, rest: seq<Entry>, e: Entry)
    requires |ids| > 0 && e.0 == ids[0] && forall k :: 0 <= k < |rest| ==> rest[k].0 in ids[1..]
    requires Maps.Ascending(ids[1..]) ==> DistinctTeams(rest)
    ensures Maps.Ascending(ids) ==> DistinctTeams([e] + rest) && forall k :: 0 <= k < |[e] + rest| ==> ([e] + rest)[k].0 in ids
  {
    FirstIdFresh(ids, rest);
    if Maps.Ascending(ids) {
      var r := [e] + rest;
      forall k | 0 <= k < |r| ensures r[k].0 in ids {
        if k > 0 { assert r[k] == rest[k - 1]; }
      }
      forall i, j | 0 <= i < j < |r| ensures r[i].0 != r[j].0 {
        assert r[j] == rest[j - 1];
        if i > 0 { assert r[i] == rest[i - 1]; }
      }
    }
  }

  /** A first ID that is no season team adds no entry. */
  lemma SkippedEntry(s: Seasons.Season, ids: seq<nat>, rest: seq<Entry>)
    requires |ids| > 0 && ids[0] !in s.teams
    requires forall e :: e in rest <==> e.0 in ids[1..] && e.0 in s.teams && e.1 == SeasonRecord(s, e.0)
    ensures forall e :: e in rest <==> e.0 in ids && e.0 in s.teams && e.1 == SeasonRecord(s, e.0)
  {
    assert forall x :: x in ids <==> x == ids[0] || x in ids[1..];
  }

  /** A first ID that is a season team adds its entry in front. */
  lemma KeptEntry(s: Seasons.Season, ids: seq<nat>, rest: seq<Entry>)
    requires |ids| > 0 && ids[0] in s.teams
    requires forall e :: e in rest <==> e.0 in ids[1..] && e.0 in s.teams && e.1 == SeasonRecord(s, e.0)
    ensures forall e :: e in [(ids[0], SeasonRecord(s, ids[0]))] + rest <==> e.0 in ids && e.0 in s.teams && e.1 == SeasonRecord(s, e.0)
  {
    assert forall x :: x in ids <==> x == ids[0] || x in ids[1..];
  }

  lemma FirstIdFresh(ids: seq<nat>, rest: seq<Entry>)
    requires |ids| > 0 && forall k :: 0 <= k < |rest| ==> rest[k].0 in ids[1..]
    ensures Maps.Ascending(ids) ==> Maps.Ascending(ids[1..]) && forall k :: 0 <= k < |rest| ==> rest[k].0 != ids[0]
  {
    if Maps.Ascending(ids) {
      forall k | 0 <= k < |rest| ensures rest[k].0 != ids[0] {
        var j :| 0 <= j < |ids[1..]| && ids[1..][j] == rest[k].0;
        assert ids[j + 1] == rest[k].0;
      }
    }
  }

  /** `standings`: each season team once with its record, in the
      comparator's order. */
  function SeasonStandings(s: Seasons.Season): (r: seq<Entry>)
    ensures |r| == |s.teams|
    ensures forall e :: e in r <==> e.0 in s.teams && e.1 == SeasonRecord(s, e.0)
    ensures Ranked(r)
  {
    var ids := Maps.Keys(s.teams);
    var es := Entries(s, ids);
    KeyEntries(s, ids, es);
    var r := Sort(es);
    OrderedDistinctIsRanked(r);
    SameMembers(r, es);
    r
  }

  lemma KeyEntries(s: Seasons.Season, ids: seq<nat>, es: seq<Entry>)
    requires ids == Maps.Keys(s.teams) && es == Entries(s, ids)
    ensures |es| == |s.teams| && DistinctTeams(es)
    ensures forall e :: e in es <==> e.0 in s.teams && e.1 == SeasonRecord(s, e.0)
  {
    assert forall k :: 0 <= k < |ids| ==> ids[k] in s.teams;
  }

  lemma SameMembers(a: seq<Entry>, b: seq<Entry>)
    requires multiset(a) == multiset(b)
    ensures forall e :: e in a <==> e in b
  {
    forall e ensures e in a <==> e in b {
      assert e in a <==> e in multiset(a);
      assert e in b <==> e in multiset(b);
    }
  }

  /** The entries of the given teams, in order. */
  function Only(s: seq<Entry>, group: set<nat>): (r: seq<Entry>)
    ensures forall e :: e in r <==> e in s && e.0 in group
    ensures Ranked(s) ==> Ranked(r)
    decreases |s|
  {
    if |s| == 0 then []
    else
      var rest := Only(s[1..], group);
      assert forall x :: x in s <==> x == s[0] || x in s[1..];
      if s[0].0 in group then
        OnlyKeepsRank(s, rest);
        [s[0]] + rest
      else
        assert Ranked(s) ==> Ranked(s[1..]);
        rest
  }

  lemma OnlyKeepsRank(s: seq<Entry>, rest: seq<Entry>)
    requires |s| > 0 && (forall x :: x in rest ==> x in s[1..]) && (Ranked(s[1..]) ==> Ranked(rest))
    ensures Ranked(s) ==> Ranked([s[0]] + rest)
  {
    if Ranked(s) {
      assert Ranked(s[1..]);
      forall j | 0 <= j < |rest| ensures Before(s[0], rest[j]) {
        assert rest[j] in rest;
        var k :| 0 <= k < |s[1..]| && s[1..][k] == rest[j];
        assert s[k + 1] == rest[j];
      }
      forall i, j | 0 <= i < j < |rest| + 1 ensures Before(([s[0]] + rest)[i], ([s[0]] + rest)[j]) {
        if i > 0 { assert ([s[0]] + rest)[i] == rest[i - 1]; }
      }
    }
  }

  function DivisionTeams(d: C.Division): set<nat> {
    set t | t in d.teams
  }

  function ConferenceTeams(c: C.Conference): set<nat> {
    set t | t in C.AllTeams(c)
  }

  /** `division_standings`: the standings of one division's teams, after
      checking that the conference and the division exist. */
  function DivisionStandings(s: Seasons.Season, c: nat, d: nat): (r: Result<seq<Entry>, StandingsError>)
    ensures c >= |s.conferences| ==> r == Err(NoConference(c))
    ensures c < |s.conferences| && d >= |s.conferences[c].divisions| ==> r == Err(NoDivision(c, d))
    ensures r.Ok? <==> c < |s.conferences| && d < |s.conferences[c].divisions|
    ensures r.Ok? ==> Ranked(r.value)
    ensures r.Ok? ==> forall e :: e in r.value <==> (e.0 in s.conferences[c].divisions[d].teams && e.0 in s.teams
                                                    && e.1 == SeasonRecord(s, e.0))
  {
    if c >= |s.conferences| then Err(NoConference(c))
    else match C.DivisionAt(s.conferences[c], d)
      case None => Err(NoDivision(c, d))
      case Some(div) => Ok(Only(SeasonStandings(s), DivisionTeams(div)))
  }

  /** `conference_standings`: the standings of one conference's teams. */
  function ConferenceStandings(s: Seasons.Season, c: nat): (r: Result<seq<Entry>, StandingsError>)
    ensures r.Err? <==> c >= |s.conferences|
    ensures r.Ok? ==> Ranked(r.value)
    ensures r.Ok? ==> forall e :: e in r.value <==> (C.ContainsTeam(s.conferences[c], e.0) && e.0 in s.teams
                                                    && e.1 == SeasonRecord(s, e.0))
  {
    if c >= |s.conferences| then Err(NoConference(c))
    else
      var cs := ConferenceTeams(s.conferences[c]);
      forall t ensures t in cs <==> C.ContainsTeam(s.conferences[c], t) {
        C.AllTeamsContains(s.conferences[c], t);
      }
      Ok(Only(SeasonStandings(s), cs))
  }

  // ----- records against a group of opponents -----

  /** The other team of the matchup. */
  function Opponent(m: Matchup, team: nat): nat {
    if m.home == team then m.away else m.home
  }

  /** A finished game of the team against an opponent of the group. */
  predicate CountsAgainst(m: Matchup, team: nat, group: set<nat>) {
    Complete(m) && Participated(m, team) && Opponent(m, team) in group
  }

  /** Every matchup of the season, week by week. */
  function AllMatchups(ws: seq<Week>): seq<Matchup>
    decreases |ws|
  {
    if |ws| == 0 then [] else AllMatchups(ws[..|ws| - 1]) + ws[|ws| - 1].matchups
  }

  /** The loop of `division_record` and `conference_record`: each finished
      game of the team against the group adds its result. */
  function RecordAgainst(ms: seq<Matchup>, team: nat, group: set<nat>): TeamRecord
    decreases |ms|
  {
    if |ms| == 0 then NewRecord()
    else
      var prev := RecordAgainst(ms[..|ms| - 1], team, group);
      var m := ms[|ms| - 1];
      if CountsAgainst(m, team, group) then
        match SeasonMatchups.Result(m, team)
        case Some(res) => Records.Tally(prev, res)
        case None => prev
      else prev
  }

  /** The number of the team's finished games against the group. */
  function GamesAgainst(ms: seq<Matchup>, team: nat, group: set<nat>): nat
    decreases |ms|
  {
    if |ms| == 0 then 0
    else GamesAgainst(ms[..|ms| - 1], team, group) + (if CountsAgainst(ms[|ms| - 1], team, group) then 1 else 0)
  }

  /** The record holds exactly one result per finished game against the
      group, and a larger group never gives fewer wins, losses or ties. */
  lemma {:induction false} RecordAgainstCounts(ms: seq<Matchup>, team: nat, group: set<nat>, wider: set<nat>)
    requires group <= wider
    ensures Records.Games(RecordAgainst(ms, team, group)) == GamesAgainst(ms, team, group)
    ensures var r := RecordAgainst(ms, team, group);
            var w := RecordAgainst(ms, team, wider);
            r.wins <= w.wins && r.losses <= w.losses && r.ties <= w.ties
    decreases |ms|
  {
    RecordAgainstGames(ms, team, group);
    RecordAgainstWidens(ms, team, group, wider);
  }

  lemma {:induction false} RecordAgainstGames(ms: seq<Matchup>, team: nat, group: set<nat>)
    ensures Records.Games(RecordAgainst(ms, team, group)) == GamesAgainst(ms, team, group)
    decreases |ms|
  {
    if |ms| > 0 {
      RecordAgainstGames(ms[..|ms| - 1], team, group);
      if CountsAgainst(ms[|ms| - 1], team, group) {
        assert SeasonMatchups.Result(ms[|ms| - 1], team).Some?;
      }
    }
  }

  lemma {:induction false} RecordAgainstWidens(ms: seq<Matchup>, team: nat, group: set<nat>, wider: set<nat>)
    requires group <= wider
    ensures var r := RecordAgainst(ms, team, group);
            var w := RecordAgainst(ms, team, wider);
            r.wins <= w.wins && r.losses <= w.losses && r.ties <= w.ties
    decreases |ms|
  {
    if |ms| > 0 {
      RecordAgainstWidens(ms[..|ms| - 1], team, group, wider);
      var m := ms[|ms| - 1];
      if CountsAgainst(m, team, group) {
        assert SeasonMatchups.Result(m, team).Some?;
        assert CountsAgainst(m, team, wider);
      }
    }
  }

  /** The number of the team's finished games against the group that ended
      with the given result. */
  function ResultsAgainst(ms: seq<Matchup>, team: nat, group: set<nat>, res: MatchupResult): (r: nat)
    ensures r <= GamesAgainst(ms, team, group)
    decreases |ms|
  {
    if |ms| == 0 then 0
    else
      var m := ms[|ms| - 1];
      ResultsAgainst(ms[..|ms| - 1], team, group, res)
      + (if CountsAgainst(m, team, group) && SeasonMatchups.Result(m, team) == Some(res) then 1 else 0)
  }

  /** The record against a group counts, for each result, exactly the
      team's finished games against the group with that result. */
  lemma {:induction false} RecordAgainstTallies(ms: seq<Matchup>, team: nat, group: set<nat>)
    ensures RecordAgainst(ms, team, group)
            == TeamRecord(ResultsAgainst(ms, team, group, Win), ResultsAgainst(ms, team, group, Loss),
                          ResultsAgainst(ms, team, group, Tie))
    decreases |ms|
  {
    if |ms| > 0 {
      RecordAgainstTallies(ms[..|ms| - 1], team, group);
      var m := ms[|ms| - 1];
      if CountsAgainst(m, team, group) {
        assert SeasonMatchups.Result(m, team).Some?;
      }
    }
  }

  /** `division_record`: the team's record against its division, the
      division found by `team_division`. */
  function DivisionRecord(s: Seasons.Season, team: nat): (r: Result<TeamRecord, StandingsError>)
    ensures r.Err? <==> Seasons.TeamDivision(s, team).None?
    ensures r.Err? ==> r.error == NoDivisionFor(team)
    ensures r.Ok? ==> var (c, d) := Seasons.TeamDivision(s, team).value;
                      Records.Games(r.value) == GamesAgainst(AllMatchups(s.weeks), team, DivisionTeams(s.conferences[c].divisions[d]))
    ensures r.Ok? ==> var (c, d) := Seasons.TeamDivision(s, team).value;
                      var g := DivisionTeams(s.conferences[c].divisions[d]);
                      r.value == TeamRecord(ResultsAgainst(AllMatchups(s.weeks), team, g, Win),
                                            ResultsAgainst(AllMatchups(s.weeks), team, g, Loss),
                                            ResultsAgainst(AllMatchups(s.weeks), team, g, Tie))
  {
    match Seasons.TeamDivision(s, team)
    case None => Err(NoDivisionFor(team))
    case Some((c, d)) =>
      if c < |s.conferences| && d < |s.conferences[c].divisions| then
        var g := DivisionTeams(s.conferences[c].divisions[d]);
        RecordAgainstCounts(AllMatchups(s.weeks), team, g, g);
        RecordAgainstTallies(AllMatchups(s.weeks), team, g);
        Ok(RecordAgainst(AllMatchups(s.weeks), team, g))
      else Err(DivisionNotFound(team))
  }

  /** `conference_record`: the team's record against its conference. */
  function ConferenceRecord(s: Seasons.Season, team: nat): (r: Result<TeamRecord, StandingsError>)
    ensures r.Err? <==> Seasons.TeamConference(s, team).None?
    ensures r.Err? ==> r.error == NoConferenceFor(team)
    ensures r.Ok? ==> var c := Seasons.TeamConference(s, team).value;
                      Records.Games(r.value) == GamesAgainst(AllMatchups(s.weeks), team, ConferenceTeams(s.conferences[c]))
    ensures r.Ok? ==> var g := ConferenceTeams(s.conferences[Seasons.TeamConference(s, team).value]);
                      r.value == TeamRecord(ResultsAgainst(AllMatchups(s.weeks), team, g, Win),
                                            ResultsAgainst(AllMatchups(s.weeks), team, g, Loss),
                                            ResultsAgainst(AllMatchups(s.weeks), team, g, Tie))
  {
    match Seasons.TeamConference(s, team)
    case None => Err(NoConferenceFor(team))
    case Some(c) =>
      if c < |s.conferences| then
        var g := ConferenceTeams(s.conferences[c]);
        RecordAgainstCounts(AllMatchups(s.weeks), team, g, g);
        RecordAgainstTallies(AllMatchups(s.weeks), team, g);
        Ok(RecordAgainst(AllMatchups(s.weeks), team, g))
      else Err(ConferenceNotFound(team))
  }

  /** A team's division record is part of its conference record: its
      division lies inside its conference. */
  lemma DivisionRecordWithinConferenceRecord(s: Seasons.Season, team: nat)
    requires DivisionRecord(s, team).Ok?
    ensures ConferenceRecord(s, team).Ok?
    ensures var d := DivisionRecord(s, team).value;
            var c := ConferenceRecord(s, team).value;
            d.wins <= c.wins && d.losses <= c.losses && d.ties <= c.ties
  {
    Seasons.DivisionWithinConference(s, team);
    var (c, d) := Seasons.TeamDivision(s, team).value;
    var conf := s.conferences[c];
    forall t | t in DivisionTeams(conf.divisions[d]) ensures t in ConferenceTeams(conf) {
      assert exists i :: 0 <= i < |conf.divisions| && t in conf.divisions[i].teams;
    }
    RecordAgainstCounts(AllMatchups(s.weeks), team, DivisionTeams(conf.divisions[d]), ConferenceTeams(conf));
  }
}
