/** The playoff picture of a season (src/league/season/playoffs/picture.rs):
    for every team its place in the standings, the best and worst record it
    can still reach, its playoff status, games back and magic number.
    Percentages are exact rationals; the program compares `f64` percentages
    with a 1e-9 tolerance, which becomes an exact comparison here. */
module Picture {
  import opened Wrappers
  import opened Records
  import opened SeasonMatchups
  import opened Weeks
  import C = Conferences
  import St = Standings
  import Seasons
  import PF = PlayoffField

  datatype PlayoffStatus =
    | ClinchedTopSeed
    | ClinchedPlayoffs(currentSeed: nat)
    | InPlayoffPosition(currentSeed: nat)
    | InTheHunt
    | Eliminated

  datatype PictureEntry = PictureEntry(
    teamId: nat,
    teamName: string,
    currentRecord: TeamRecord,
    status: PlayoffStatus,
    gamesBack: real,
    remainingGames: nat,
    magicNumber: Option<nat>)

  /** `is_clinched`: a berth or the top seed is clinched. */
  predicate IsClinched(e: PictureEntry) {
    e.status.ClinchedTopSeed? || e.status.ClinchedPlayoffs?
  }

  /** `is_eliminated`. */
  predicate IsEliminated(e: PictureEntry) {
    e.status.Eliminated?
  }

  // ----- record bounds -----

  /** `RecordBounds`: a team's current record and the best and worst cases
      over its remaining games. */
  datatype RecordBounds = RecordBounds(
    teamId: nat,
    currentWins: nat,
    currentLosses: nat,
    currentTies: nat,
    remainingGames: nat,
    totalGames: nat,
    maxWins: nat,
    maxPct: real,
    minWins: nat,
    minPct: real)

  /** The worst case is no better than the best case. */
  predicate Sound(b: RecordBounds) {
    b.minWins <= b.maxWins && b.minPct <= b.maxPct
  }

  predicate AllSound(bs: seq<RecordBounds>) {
    forall i :: 0 <= i < |bs| ==> Sound(bs[i])
  }

  /** (wins + ties / 2) over the season's games, and 0 without games. */
  function Pct(wins: nat, ties: nat, total: nat): real {
    if total > 0 then (wins as real + 0.5 * ties as real) / total as real else 0.0
  }

  lemma DivMonotone(x: real, y: real, c: real)
    requires c > 0.0 && x <= y
    ensures x / c <= y / c
  {
  }

  /** More wins plus half ties gives at least the percentage. */
  lemma PctMonotone(w1: nat, t1: nat, w2: nat, t2: nat, total: nat)
    requires 2 * w1 + t1 <= 2 * w2 + t2
    ensures Pct(w1, t1, total) <= Pct(w2, t2, total)
  {
    if total > 0 {
      DivMonotone(w1 as real + 0.5 * t1 as real, w2 as real + 0.5 * t2 as real, total as real);
    }
  }

  /** `RecordBounds::from_record`: the worst case loses every remaining
      game, the best case wins every one. */
  function FromRecord(id: nat, r: TeamRecord, remaining: nat, total: nat): (b: RecordBounds)
    ensures b.teamId == id && b.remainingGames == remaining && b.currentWins == r.wins
    ensures b.minWins == r.wins && b.maxWins == r.wins + remaining
    ensures Sound(b)
  {
    PctMonotone(r.wins, r.ties, r.wins + remaining, r.ties, total);
    RecordBounds(id, r.wins, r.losses, r.ties, remaining, total,
                 r.wins + remaining, Pct(r.wins + remaining, r.ties, total),
                 r.wins, Pct(r.wins, r.ties, total))
  }

  /** Whatever happens in the remaining games (`x` wins, `y` ties, `z`
      losses), the final wins and percentage lie between the bounds. */
  lemma BoundsCoverOutcomes(id: nat, r: TeamRecord, remaining: nat, total: nat, x: nat, y: nat, z: nat)
    requires x + y + z == remaining
    ensures var b := FromRecord(id, r, remaining, total);
            && b.minWins <= r.wins + x <= b.maxWins
            && b.minPct <= Pct(r.wins + x, r.ties + y, total) <= b.maxPct
  {
    PctMonotone(r.wins, r.ties, r.wins + x, r.ties + y, total);
    PctMonotone(r.wins + x, r.ties + y, r.wins + remaining, r.ties, total);
  }

  // ----- who finishes ahead -----

  /** `would_finish_ahead`: the higher percentage, then more wins, then the
      lower ID. */
  function WouldFinishAhead(w1: nat, p1: real, id1: nat, w2: nat, p2: real, id2: nat): (r: bool)
    ensures r ==> p1 >= p2
    ensures p1 > p2 ==> r
  {
    if p1 != p2 then p1 > p2
    else if w1 != w2 then w1 > w2
    else id1 < id2
  }

  /** The comparison is irreflexive, asymmetric, transitive, and ranks any
      two teams with different IDs one way or the other. */
  lemma WouldFinishAheadIsStrictTotal(w1: nat, p1: real, id1: nat, w2: nat, p2: real, id2: nat,
                                      w3: nat, p3: real, id3: nat)
    ensures !WouldFinishAhead(w1, p1, id1, w1, p1, id1)
    ensures WouldFinishAhead(w1, p1, id1, w2, p2, id2) ==> !WouldFinishAhead(w2, p2, id2, w1, p1, id1)
    ensures id1 != id2 ==> WouldFinishAhead(w1, p1, id1, w2, p2, id2) || WouldFinishAhead(w2, p2, id2, w1, p1, id1)
    ensures WouldFinishAhead(w1, p1, id1, w2, p2, id2) && WouldFinishAhead(w2, p2, id2, w3, p3, id3)
            ==> WouldFinishAhead(w1, p1, id1, w3, p3, id3)
  {
  }

  /** Finishing ahead survives a better record for the first team and a
      worse one for the second. */
  lemma AheadMonotone(w1: nat, p1: real, id1: nat, w2: nat, p2: real, id2: nat,
                      w1': nat, p1': real, w2': nat, p2': real)
    requires w1 <= w1' && p1 <= p1' && w2' <= w2 && p2' <= p2
    ensures WouldFinishAhead(w1, p1, id1, w2, p2, id2) ==> WouldFinishAhead(w1', p1', id1, w2', p2', id2)
  {
  }

  /** `other` at its best finishes ahead of `team` at its worst. */
  predicate CanPass(other: RecordBounds, team: RecordBounds) {
    WouldFinishAhead(other.maxWins, other.maxPct, other.teamId, team.minWins, team.minPct, team.teamId)
  }

  /** `other` at its worst still finishes ahead of `team` at its best. */
  predicate SurelyAhead(other: RecordBounds, team: RecordBounds) {
    WouldFinishAhead(other.minWins, other.minPct, other.teamId, team.maxWins, team.maxPct, team.teamId)
  }

  /** A team that is surely ahead can also pass. */
  lemma SurelyAheadCanPass(other: RecordBounds, team: RecordBounds)
    requires Sound(other) && Sound(team)
    ensures SurelyAhead(other, team) ==> CanPass(other, team)
  {
    AheadMonotone(other.minWins, other.minPct, other.teamId, team.maxWins, team.maxPct, team.teamId,
                  other.maxWins, other.maxPct, team.minWins, team.minPct);
  }

  // ----- counting rivals -----

  /** The first bounds of the team, as `bounds.iter().find`. */
  function Find(bs: seq<RecordBounds>, id: nat): (r: Option<RecordBounds>)
    ensures r.None? <==> forall i :: 0 <= i < |bs| ==> bs[i].teamId != id
    ensures r.Some? ==> r.value in bs && r.value.teamId == id
    decreases |bs|
  {
    if |bs| == 0 then None
    else if bs[0].teamId == id then Some(bs[0])
    else
      var r := Find(bs[1..], id);
      assert forall i :: 1 <= i < |bs| ==> bs[i] == bs[1..][i - 1];
      r
  }

  /** The other teams (by ID) whose best case passes `team`'s worst case. */
  function CountPassers(bs: seq<RecordBounds>, team: RecordBounds): (r: nat)
    ensures r <= |bs|
    ensures r == 0 <==> forall i :: 0 <= i < |bs| && bs[i].teamId != team.teamId ==> !CanPass(bs[i], team)
    decreases |bs|
  {
    if |bs| == 0 then 0
    else
      var rest := CountPassers(bs[1..], team);
      assert forall i :: 1 <= i < |bs| ==> bs[i] == bs[1..][i - 1];
      if bs[0].teamId != team.teamId && CanPass(bs[0], team) then rest + 1 else rest
  }

  /** The other teams whose worst case beats `team`'s best case. */
  function CountSurelyAhead(bs: seq<RecordBounds>, team: RecordBounds): (r: nat)
    ensures r <= |bs|
    ensures r == 0 <==> forall i :: 0 <= i < |bs| && bs[i].teamId != team.teamId ==> !SurelyAhead(bs[i], team)
    decreases |bs|
  {
    if |bs| == 0 then 0
    else
      var rest := CountSurelyAhead(bs[1..], team);
      assert forall i :: 1 <= i < |bs| ==> bs[i] == bs[1..][i - 1];
      if bs[0].teamId != team.teamId && SurelyAhead(bs[0], team) then rest + 1 else rest
  }

  /** Every team surely ahead is one that can pass, so there are no more
      of the first than of the second. */
  lemma {:induction false} SurelyAheadAtMostPassers(bs: seq<RecordBounds>, team: RecordBounds)
    requires AllSound(bs) && Sound(team)
    ensures CountSurelyAhead(bs, team) <= CountPassers(bs, team)
    decreases |bs|
  {
    if |bs| > 0 {
      SurelyAheadCanPass(bs[0], team);
      assert AllSound(bs[1..]) by {
        forall i | 0 <= i < |bs[1..]| ensures Sound(bs[1..][i]) {
          assert bs[1..][i] == bs[i + 1];
        }
      }
      SurelyAheadAtMostPassers(bs[1..], team);
    }
  }

  /** `has_clinched_playoffs`: fewer than `n` other teams can still pass
      the team; an unknown team has not clinched. */
  function HasClinchedPlayoffs(id: nat, bs: seq<RecordBounds>, n: nat): bool {
    match Find(bs, id)
    case None => false
    case Some(t) => CountPassers(bs, t) < n
  }

  /** The loop of `has_clinched_top_seed`: is there another team that can
      pass? */
  function AnyPasser(bs: seq<RecordBounds>, team: RecordBounds): bool
    decreases |bs|
  {
    if |bs| == 0 then false
    else if bs[0].teamId != team.teamId && CanPass(bs[0], team) then true
    else AnyPasser(bs[1..], team)
  }

  /** `has_clinched_top_seed`: no other team can pass; an unknown team has
      not clinched. */
  function HasClinchedTopSeed(id: nat, bs: seq<RecordBounds>): bool {
    match Find(bs, id)
    case None => false
    case Some(t) => !AnyPasser(bs, t)
  }

  /** The early-exit loop finds a passer exactly when the count is
      positive. */
  lemma {:induction false} AnyPasserIffCount(bs: seq<RecordBounds>, team: RecordBounds)
    ensures AnyPasser(bs, team) <==> CountPassers(bs, team) > 0
    decreases |bs|
  {
    if |bs| > 0 {
      AnyPasserIffCount(bs[1..], team);
    }
  }

  /** The top seed is clinched exactly when the team is known and nobody can
      pass it; then, with at least one berth, a berth is clinched too. */
  lemma TopSeedClinchesBerth(id: nat, bs: seq<RecordBounds>, n: nat)
    ensures HasClinchedTopSeed(id, bs) <==> Find(bs, id).Some? && CountPassers(bs, Find(bs, id).value) == 0
    ensures HasClinchedTopSeed(id, bs) && n >= 1 ==> HasClinchedPlayoffs(id, bs, n)
  {
    if Find(bs, id).Some? {
      AnyPasserIffCount(bs, Find(bs, id).value);
    }
  }

  /** `is_eliminated`: at least `n` other teams finish ahead even at their
      worst and with the team at its best; an unknown team is eliminated. */
  function IsEliminatedTeam(id: nat, bs: seq<RecordBounds>, n: nat): bool {
    match Find(bs, id)
    case None => true
    case Some(t) => CountSurelyAhead(bs, t) >= n
  }

  /** With sound bounds a team that has clinched is not eliminated. */
  lemma ClinchedNotEliminated(id: nat, bs: seq<RecordBounds>, n: nat)
    ensures AllSound(bs) && HasClinchedPlayoffs(id, bs, n) ==> !IsEliminatedTeam(id, bs, n)
  {
    if AllSound(bs) && Find(bs, id).Some? {
      var t := Find(bs, id).value;
      var i :| 0 <= i < |bs| && bs[i] == t;
      SurelyAheadAtMostPassers(bs, t);
    }
  }

  // ----- status -----

  /** `compute_status`: eliminated first, then the top seed (only for the
      leader), then a clinched berth, then a playoff position, else in the
      hunt. Seeds are positions counted from 1. */
  function ComputeStatus(id: nat, position: nat, bs: seq<RecordBounds>, n: nat): (r: PlayoffStatus)
    ensures r.Eliminated? <==> IsEliminatedTeam(id, bs, n)
    ensures r.ClinchedTopSeed? ==> position == 0 && n >= 1 && HasClinchedTopSeed(id, bs)
    ensures r.ClinchedTopSeed? || r.ClinchedPlayoffs? <==> !IsEliminatedTeam(id, bs, n) && HasClinchedPlayoffs(id, bs, n)
    ensures r.InPlayoffPosition? <==> !IsEliminatedTeam(id, bs, n) && !HasClinchedPlayoffs(id, bs, n) && position < n
    ensures r.InTheHunt? <==> !IsEliminatedTeam(id, bs, n) && !HasClinchedPlayoffs(id, bs, n) && position >= n
    ensures r.ClinchedPlayoffs? || r.InPlayoffPosition? ==> r.currentSeed == position + 1
    ensures AllSound(bs) && HasClinchedPlayoffs(id, bs, n) ==> r.ClinchedTopSeed? || r.ClinchedPlayoffs?
  {
    TopSeedClinchesBerth(id, bs, n);
    ClinchedNotEliminated(id, bs, n);
    if IsEliminatedTeam(id, bs, n) then Eliminated
    else if position < n && position == 0 && HasClinchedTopSeed(id, bs) then ClinchedTopSeed
    else if HasClinchedPlayoffs(id, bs, n) then ClinchedPlayoffs(position + 1)
    else if position < n then InPlayoffPosition(position + 1)
    else InTheHunt
  }

  // ----- magic number -----

  /** The comparator of the magic number's sort: the better best case
      first (higher best-case percentage, then more best-case wins, then
      the lower ID). */
  predicate BestBefore(a: RecordBounds, b: RecordBounds) {
    WouldFinishAhead(a.maxWins, a.maxPct, a.teamId, b.maxWins, b.maxPct, b.teamId)
  }

  /** No later bounds belong before an earlier one. */
  predicate BestOrdered(s: seq<RecordBounds>) {
    forall i, j :: 0 <= i < j < |s| ==> !BestBefore(s[j], s[i])
  }

  lemma BestBeforeOrder(a: RecordBounds, b: RecordBounds, c: RecordBounds)
    ensures !BestBefore(b, a) && !BestBefore(c, b) ==> !BestBefore(c, a)
    ensures BestBefore(a, b) ==> !BestBefore(b, a)
  {
  }

  /** `x` goes in after the bounds that belong before it, so that equal
      bounds keep their order as in a stable sort. */
  function InsertBest(x: RecordBounds, s: seq<RecordBounds>): (r: seq<RecordBounds>)
    ensures |r| == |s| + 1 && multiset(r) == multiset(s) + multiset{x}
    ensures BestOrdered(s) ==> BestOrdered(r)
    decreases |s|
  {
    if |s| == 0 then [x]
    else if BestBefore(s[0], x) then
      var rest := InsertBest(x, s[1..]);
      assert s == [s[0]] + s[1..];
      InsertBestStep(x, s, rest);
      [s[0]] + rest
    else
      InsertBestFront(x, s);
      [x] + s
  }

  lemma InsertBestStep(x: RecordBounds, s: seq<RecordBounds>, rest: seq<RecordBounds>)
    requires |s| > 0 && BestBefore(s[0], x) && multiset(rest) == multiset(s[1..]) + multiset{x}
    requires BestOrdered(s[1..]) ==> BestOrdered(rest)
    ensures BestOrdered(s) ==> BestOrdered([s[0]] + rest)
  {
    var r := [s[0]] + rest;
    if BestOrdered(s) {
      assert BestOrdered(s[1..]);
      forall i, j | 0 <= i < j < |r| ensures !BestBefore(r[j], r[i]) {
        if i == 0 {
          assert r[j] in multiset(rest);
          BestBeforeOrder(x, s[0], s[0]);
          if r[j] != x {
            assert r[j] in multiset(s[1..]);
            var k :| 0 <= k < |s[1..]| && s[1..][k] == r[j];
            assert s[k + 1] == r[j];
          }
        } else {
          assert r[i] == rest[i - 1] && r[j] == rest[j - 1];
        }
      }
    }
  }

  lemma InsertBestFront(x: RecordBounds, s: seq<RecordBounds>)
    requires |s| > 0 && !BestBefore(s[0], x)
    ensures BestOrdered(s) ==> BestOrdered([x] + s)
  {
    var r := [x] + s;
    if BestOrdered(s) {
      forall i, j | 0 <= i < j < |r| ensures !BestBefore(r[j], r[i]) {
        if i == 0 {
          if j > 1 {
            BestBeforeOrder(x, s[0], s[j - 1]);
          }
        } else {
          assert r[i] == s[i - 1] && r[j] == s[j - 1];
        }
      }
    }
  }

  /** `sort_by` with the best-case comparator: the same bounds, best case
      first. */
  function SortBest(s: seq<RecordBounds>): (r: seq<RecordBounds>)
    ensures |r| == |s| && multiset(r) == multiset(s)
    ensures BestOrdered(r)
    decreases |s|
  {
    if |s| == 0 then []
    else
      assert s == [s[0]] + s[1..];
      InsertBest(s[0], SortBest(s[1..]))
  }

  /** The bounds of the other teams, in order. */
  function Rivals(bs: seq<RecordBounds>, id: nat): (r: seq<RecordBounds>)
    ensures |r| <= |bs|
    ensures forall x :: x in r <==> x in bs && x.teamId != id
    decreases |bs|
  {
    if |bs| == 0 then []
    else
      var rest := Rivals(bs[1..], id);
      assert forall x :: x in bs <==> x == bs[0] || x in bs[1..];
      if bs[0].teamId != id then [bs[0]] + rest else rest
  }

  /** The rival in position `n` of the best-case order: the last one that
      could still take a berth ahead of the team. */
  function Blocker(bs: seq<RecordBounds>, id: nat, n: nat): (b: RecordBounds)
    requires 1 <= n <= |Rivals(bs, id)|
    ensures b in bs && b.teamId != id
    ensures var sorted := SortBest(Rivals(bs, id));
            && sorted[n - 1] == b
            && (forall i :: 0 <= i < n - 1 ==> !BestBefore(b, sorted[i]))
            && (forall i :: n - 1 < i < |sorted| ==> !BestBefore(sorted[i], b))
  {
    var sorted := SortBest(Rivals(bs, id));
    assert sorted[n - 1] in multiset(Rivals(bs, id));
    sorted[n - 1]
  }

  /** `compute_magic_number`. With no games left it is 0 for a team that
      has clinched and absent otherwise; with fewer than `n` rivals it is
      0; otherwise it is the wins still needed to pass the blocker's best
      case, capped at the games left. The program subtracts 1 from `n`, so
      its callers pass at least one berth. */
  function MagicNumber(id: nat, bs: seq<RecordBounds>, n: nat): (r: Option<nat>)
    requires n >= 1
    ensures Find(bs, id).None? ==> r.None?
    ensures Find(bs, id).Some? ==>
              var t := Find(bs, id).value;
              && (r.Some? ==> r.value <= t.remainingGames)
              && (t.remainingGames == 0 ==> (r == Some(0) <==> HasClinchedPlayoffs(id, bs, n)))
              && (t.remainingGames == 0 ==> (r.None? <==> !HasClinchedPlayoffs(id, bs, n)))
              && (t.remainingGames > 0 ==> r.Some?)
              && (t.remainingGames > 0 && |Rivals(bs, id)| < n ==> r == Some(0))
              && (t.remainingGames > 0 && |Rivals(bs, id)| >= n ==>
                    var need := Blocker(bs, id, n).maxWins + 1 - t.currentWins;
                    r == Some(if need <= 0 then 0 else if need > t.remainingGames then t.remainingGames else need))
  {
    match Find(bs, id)
    case None => None
    case Some(t) =>
      if t.remainingGames == 0 then
        if HasClinchedPlayoffs(id, bs, n) then Some(0) else None
      else
        var blockers := SortBest(Rivals(bs, id));
        if |blockers| < n then Some(0)
        else
          var target := blockers[n - 1].maxWins + 1;
          if t.currentWins >= target then Some(0)
          else
            var magic := target - t.currentWins;
            if magic > t.remainingGames then Some(t.remainingGames) else Some(magic)
  }

  // ----- games back -----

  /** `compute_games_back`: half the difference in wins plus half the
      difference in losses to the last team inside the cutoff, 0 inside
      it. */
  function GamesBack(st: seq<St.Entry>, position: nat, n: nat): (r: real)
    requires position < |st|
    ensures position < n || n == 0 ==> r == 0.0
    ensures n > 0 && position >= n ==>
              var c := st[n - 1].1;
              var t := st[position].1;
              r == ((c.wins as int - t.wins as int) + (t.losses as int - c.losses as int)) as real / 2.0
  {
    if position < n || n == 0 then 0.0
    else
      var c := st[n - 1].1;
      var t := st[position].1;
      var cutoffWinValue := c.wins as real + 0.5 * c.ties as real;
      var teamWinValue := t.wins as real + 0.5 * t.ties as real;
      var cutoffLossValue := c.losses as real + 0.5 * c.ties as real;
      var teamLossValue := t.losses as real + 0.5 * t.ties as real;
      ((cutoffWinValue - teamWinValue) + (teamLossValue - cutoffLossValue)) / 2.0
  }

  lemma ScaleCancel(a: nat, b: nat, k: nat)
    requires k > 0 && a * k <= b * k
    ensures a <= b
  {
  }

  /** Between teams that have played the same number of games, games back
      is half the difference in points (two per win, one per tie), and in
      ordered standings a team outside the cutoff is never a negative
      number of games back. */
  lemma GamesBackOfEqualGames(st: seq<St.Entry>, position: nat, n: nat)
    requires 0 < n <= position < |st|
    requires Records.Games(st[n - 1].1) == Records.Games(st[position].1)
    ensures GamesBack(st, position, n) == (St.Points(st[n - 1].1) as int - St.Points(st[position].1) as int) as real / 2.0
    ensures St.Ordered(st) ==> GamesBack(st, position, n) >= 0.0
  {
    var c := st[n - 1].1;
    var t := st[position].1;
    if St.Ordered(st) {
      assert !St.Before(st[position], st[n - 1]);
      assert St.Scale(c) == St.Scale(t);
      assert !St.Above(t, c);
      ScaleCancel(St.Points(t), St.Points(c), St.Scale(c));
    }
  }

  /** Between teams that have played different numbers of games the
      standard formula can put a team ranked below the cutoff a negative
      number of games back: an 0-1 cutoff team and an 0-0 team tied with
      it on percentage and wins but ranked below it by ID. */
  lemma GamesBackNegativeExample()
    ensures var st := [(0, TeamRecord(0, 1, 0)), (1, TeamRecord(0, 0, 0))];
            St.Ordered(st) && GamesBack(st, 1, 1) == -0.5
  {
    var st := [(0, TeamRecord(0, 1, 0)), (1, TeamRecord(0, 0, 0))];
    assert St.Level(st[1].1, st[0].1);
    assert !St.Before(st[1], st[0]);
  }

  // ----- remaining games -----

  /** Games not yet over. */
  function SeasonRemaining(ms: seq<Matchup>): (r: nat)
    ensures r <= |ms|
    ensures r == 0 <==> forall i :: 0 <= i < |ms| ==> Complete(ms[i])
    decreases |ms|
  {
    if |ms| == 0 then 0
    else
      var rest := SeasonRemaining(ms[1..]);
      assert forall i :: 1 <= i < |ms| ==> ms[i] == ms[1..][i - 1];
      (if Complete(ms[0]) then 0 else 1) + rest
  }

  /** Games not yet over in which the team plays, a game against itself
      counting twice as in the program's two increments. */
  function TeamRemaining(ms: seq<Matchup>, id: nat): (r: nat)
    decreases |ms|
  {
    if |ms| == 0 then 0
    else
      var m := ms[0];
      var here := if Complete(m) then 0 else (if m.home == id then 1 else 0) + (if m.away == id then 1 else 0);
      here + TeamRemaining(ms[1..], id)
  }

  /** A team has no more games left than the season, when no team plays
      itself, and none left once every game is over. */
  lemma {:induction false} TeamRemainingAtMostSeason(ms: seq<Matchup>, id: nat)
    ensures (forall i :: 0 <= i < |ms| ==> ms[i].home != ms[i].away) ==> TeamRemaining(ms, id) <= SeasonRemaining(ms)
    ensures TeamRemaining(ms, id) <= 2 * SeasonRemaining(ms)
    ensures SeasonRemaining(ms) == 0 ==> TeamRemaining(ms, id) == 0
    decreases |ms|
  {
    if |ms| > 0 {
      assert forall i :: 1 <= i < |ms| ==> ms[i] == ms[1..][i - 1];
      TeamRemainingAtMostSeason(ms[1..], id);
    }
  }

  // ----- building the picture -----

  datatype PlayoffPicture = PlayoffPicture(numPlayoffTeams: nat, entries: seq<PictureEntry>, gamesRemainingInSeason: nat)

  datatype PictureError =
    | NoPlayoffTeams
    | TooManyPlayoffTeams(requested: nat, teams: nat)
    | NoSchedule
    | NoConferences
    | NoPlayoffTeamsPerConference
    | ExceedsSmallestConference(requested: nat, smallest: nat)

  /** The bounds of every team of the standings, in the same order. */
  function Bounds(st: seq<St.Entry>, ms: seq<Matchup>, total: nat): (bs: seq<RecordBounds>)
    ensures |bs| == |st| && AllSound(bs)
    ensures forall i :: 0 <= i < |st| ==> bs[i] == FromRecord(st[i].0, st[i].1, TeamRemaining(ms, st[i].0), total)
  {
    seq(|st|, i requires 0 <= i < |st| => FromRecord(st[i].0, st[i].1, TeamRemaining(ms, st[i].0), total))
  }

  /** The entry at one position of the standings. Inside the cutoff a team
      is 0 games back; an eliminated team has no magic number. */
  function EntryAt(s: Seasons.Season, st: seq<St.Entry>, bs: seq<RecordBounds>, n: nat, ms: seq<Matchup>,
                   position: nat, guaranteed: bool, winners: seq<nat>): (e: PictureEntry)
    requires n >= 1 && position < |st| && st[position].0 in s.teams
    ensures e.teamId == st[position].0 && e.currentRecord == st[position].1
    ensures e.status == ComputeStatus(st[position].0, position, bs, n)
    ensures position < n ==> e.gamesBack == 0.0
    ensures e.status.Eliminated? ==> e.magicNumber.None?
    ensures e.magicNumber.Some? && Find(bs, e.teamId).Some? ==> e.magicNumber.value <= Find(bs, e.teamId).value.remainingGames
  {
    var id := st[position].0;
    var status := ComputeStatus(id, position, bs, n);
    var finalStatus := if id in winners && guaranteed then (match status case Eliminated => status case _ => status) else status;
    PictureEntry(id, s.teams[id].name, st[position].1, finalStatus,
                 if position < n then 0.0 else GamesBack(st, position, n),
                 TeamRemaining(ms, id),
                 if status.Eliminated? then None else MagicNumber(id, bs, n))
  }

  /** The entries of the standings `st`, ranked among themselves. */
  function Entries(s: Seasons.Season, st: seq<St.Entry>, n: nat, ms: seq<Matchup>, total: nat,
                   guaranteed: bool, winners: seq<nat>): (es: seq<PictureEntry>)
    requires n >= 1 && forall i :: 0 <= i < |st| ==> st[i].0 in s.teams
    ensures |es| == |st|
    ensures forall i :: 0 <= i < |st| ==>
              es[i] == EntryAt(s, st, Bounds(st, ms, total), n, ms, i, guaranteed, winners)
  {
    var bs := Bounds(st, ms, total);
    seq(|st|, i requires 0 <= i < |st| => EntryAt(s, st, bs, n, ms, i, guaranteed, winners))
  }

  /** `non_conference_playoff_picture`: checks `n`, then the schedule, then
      ranks every team of the league against the rest. */
  function NonConferencePicture(s: Seasons.Season, n: nat): (r: Result<PlayoffPicture, PictureError>)
    ensures n == 0 ==> r == Err(NoPlayoffTeams)
    ensures 0 < n && n > |s.teams| ==> r == Err(TooManyPlayoffTeams(n, |s.teams|))
    ensures 0 < n <= |s.teams| && |s.weeks| == 0 ==> r == Err(NoSchedule)
    ensures r.Ok? <==> 0 < n <= |s.teams| && |s.weeks| > 0
    ensures r.Ok? ==> r.value.numPlayoffTeams == n && |r.value.entries| == |s.teams|
    ensures r.Ok? ==> r.value.gamesRemainingInSeason == SeasonRemaining(St.AllMatchups(s.weeks))
    ensures r.Ok? ==> var st := St.SeasonStandings(s);
                      forall i :: 0 <= i < |st| ==>
                        r.value.entries[i] == EntryAt(s, st, Bounds(st, St.AllMatchups(s.weeks), |s.weeks|), n,
                                                      St.AllMatchups(s.weeks), i, false, [])
  {
    if n == 0 then Err(NoPlayoffTeams)
    else if n > |s.teams| then Err(TooManyPlayoffTeams(n, |s.teams|))
    else if |s.weeks| == 0 then Err(NoSchedule)
    else
      var st := St.SeasonStandings(s);
      var ms := St.AllMatchups(s.weeks);
      assert forall i :: 0 <= i < |st| ==> st[i].0 in s.teams by {
        forall i | 0 <= i < |st| ensures st[i].0 in s.teams {
          assert st[i] in st;
        }
      }
      Ok(PlayoffPicture(n, Entries(s, st, n, ms, |s.weeks|, false, []), SeasonRemaining(ms)))
  }

  /** The fewest teams in any conference, 0 without conferences. */
  function MinConferenceSize(cs: seq<C.Conference>): (r: nat)
    ensures forall i :: 0 <= i < |cs| ==> r <= C.NumTeams(cs[i])
    ensures |cs| > 0 ==> exists i :: 0 <= i < |cs| && r == C.NumTeams(cs[i])
    ensures |cs| == 0 ==> r == 0
    decreases |cs|
  {
    if |cs| == 0 then 0
    else if |cs| == 1 then C.NumTeams(cs[0])
    else
      var rest := MinConferenceSize(cs[1..]);
      assert forall i :: 1 <= i < |cs| ==> cs[i] == cs[1..][i - 1];
      if C.NumTeams(cs[0]) <= rest then C.NumTeams(cs[0]) else rest
  }

  /** The entries of one conference: its teams ranked among themselves, `k`
      berths, with the division leaders computed when berths are
      guaranteed to them. */
  function ConferenceEntries(s: Seasons.Season, c: nat, k: nat, ms: seq<Matchup>, guaranteed: bool): (es: seq<PictureEntry>)
    requires c < |s.conferences| && k >= 1
    ensures var st := St.ConferenceStandings(s, c).value;
            && |es| == |st|
            && forall i :: 0 <= i < |st| ==> es[i].teamId == st[i].0 && es[i].currentRecord == st[i].1
  {
    var st := St.ConferenceStandings(s, c).value;
    StandingsKnown(s, c);
    var winners := if guaranteed then PF.DivisionWinners(s, c, 0) else [];
    Entries(s, st, k, ms, |s.weeks|, guaranteed, winners)
  }

  /** A conference's standings rank season teams only. */
  lemma StandingsKnown(s: Seasons.Season, c: nat)
    requires c < |s.conferences|
    ensures forall i :: 0 <= i < |St.ConferenceStandings(s, c).value| ==> St.ConferenceStandings(s, c).value[i].0 in s.teams
  {
    var st := St.ConferenceStandings(s, c).value;
    forall i | 0 <= i < |st| ensures st[i].0 in s.teams {
      assert st[i] in st;
    }
  }

  /** The entries of conferences `c` onward, conference by conference. */
  function ConferencesFrom(s: Seasons.Season, c: nat, k: nat, ms: seq<Matchup>, guaranteed: bool): (es: seq<PictureEntry>)
    requires c <= |s.conferences| && k >= 1
    decreases |s.conferences| - c
  {
    if c == |s.conferences| then []
    else ConferenceEntries(s, c, k, ms, guaranteed) + ConferencesFrom(s, c + 1, k, ms, guaranteed)
  }

  /** `conference_playoff_picture`: checks for conferences, then the
      schedule, then `k`, then that no conference is smaller than `k`;
      `numPlayoffTeams` is `k` per conference. */
  function ConferencePicture(s: Seasons.Season, k: nat, guaranteed: bool): (r: Result<PlayoffPicture, PictureError>)
    ensures |s.conferences| == 0 ==> r == Err(NoConferences)
    ensures |s.conferences| > 0 && |s.weeks| == 0 ==> r == Err(NoSchedule)
    ensures |s.conferences| > 0 && |s.weeks| > 0 && k == 0 ==> r == Err(NoPlayoffTeamsPerConference)
    ensures |s.conferences| > 0 && |s.weeks| > 0 && k > 0 && k > MinConferenceSize(s.conferences)
            ==> r == Err(ExceedsSmallestConference(k, MinConferenceSize(s.conferences)))
    ensures r.Ok? <==> |s.conferences| > 0 && |s.weeks| > 0 && 0 < k <= MinConferenceSize(s.conferences)
    ensures r.Ok? ==> r.value.numPlayoffTeams == k * |s.conferences|
    ensures r.Ok? ==> forall i :: 0 <= i < |s.conferences| ==> k <= C.NumTeams(s.conferences[i])
  {
    if |s.conferences| == 0 then Err(NoConferences)
    else if |s.weeks| == 0 then Err(NoSchedule)
    else if k == 0 then Err(NoPlayoffTeamsPerConference)
    else if k > MinConferenceSize(s.conferences) then Err(ExceedsSmallestConference(k, MinConferenceSize(s.conferences)))
    else
      var ms := St.AllMatchups(s.weeks);
      Ok(PlayoffPicture(k * |s.conferences|, ConferencesFrom(s, 0, k, ms, guaranteed), SeasonRemaining(ms)))
  }

  /** Guaranteeing division winners a berth changes no entry: the
      adjustment for division winners keeps every status as it is. */
  lemma {:induction false} GuaranteeChangesNothing(s: Seasons.Season, c: nat, k: nat, ms: seq<Matchup>)
    requires c <= |s.conferences| && k >= 1
    ensures ConferencesFrom(s, c, k, ms, true) == ConferencesFrom(s, c, k, ms, false)
    decreases |s.conferences| - c
  {
    if c < |s.conferences| {
      EntriesIgnoreGuarantee(s, c, k, ms);
      GuaranteeChangesNothing(s, c + 1, k, ms);
    }
  }

  /** One conference's entries are the same with or without the guarantee. */
  lemma EntriesIgnoreGuarantee(s: Seasons.Season, c: nat, k: nat, ms: seq<Matchup>)
    requires c < |s.conferences| && k >= 1
    ensures ConferenceEntries(s, c, k, ms, true) == ConferenceEntries(s, c, k, ms, false)
  {
    StandingsKnown(s, c);
    EntriesIgnoreWinners(s, St.ConferenceStandings(s, c).value, k, ms, |s.weeks|, PF.DivisionWinners(s, c, 0));
  }

  /** Ranking with the division winners guaranteed gives the same entries
      as ranking without. */
  lemma EntriesIgnoreWinners(s: Seasons.Season, st: seq<St.Entry>, n: nat, ms: seq<Matchup>, total: nat, winners: seq<nat>)
    requires n >= 1 && forall i :: 0 <= i < |st| ==> st[i].0 in s.teams
    ensures Entries(s, st, n, ms, total, true, winners) == Entries(s, st, n, ms, total, false, [])
  {
    var a := Entries(s, st, n, ms, total, true, winners);
    var b := Entries(s, st, n, ms, total, false, []);
    forall i | 0 <= i < |st| ensures a[i] == b[i] {
    }
  }

  /** The picture does not depend on whether division winners are
      guaranteed a berth. */
  lemma ConferencePictureIgnoresGuarantee(s: Seasons.Season, k: nat)
    ensures ConferencePicture(s, k, true) == ConferencePicture(s, k, false)
  {
    if |s.conferences| > 0 && |s.weeks| > 0 && 0 < k <= MinConferenceSize(s.conferences) {
      GuaranteeChangesNothing(s, 0, k, St.AllMatchups(s.weeks));
    }
  }

  /** `from_season`: by conference when asked, or by default when the
      season has more than one conference; `n` is then per conference. */
  function FromSeason(s: Seasons.Season, n: nat, byConference: Option<bool>, guaranteed: bool): (r: Result<PlayoffPicture, PictureError>)
    ensures n == 0 ==> r.Err?
    ensures |s.weeks| == 0 ==> r.Err?
    ensures byConference == Some(false) || (byConference.None? && |s.conferences| <= 1) ==>
              (r.Ok? <==> 0 < n <= |s.teams| && |s.weeks| > 0)
    ensures byConference == Some(true) || (byConference.None? && |s.conferences| > 1) ==>
              (r.Ok? <==> 0 < n <= MinConferenceSize(s.conferences) && |s.weeks| > 0 && |s.conferences| > 0)
    ensures r.Ok? && (byConference == Some(true) || (byConference.None? && |s.conferences| > 1)) ==>
              r.value.numPlayoffTeams == n * |s.conferences|
    ensures r.Ok? && (byConference == Some(false) || (byConference.None? && |s.conferences| <= 1)) ==>
              r.value.numPlayoffTeams == n
  {
    var useConferences := match byConference case Some(v) => v case None => |s.conferences| > 1;
    if useConferences then ConferencePicture(s, n, guaranteed) else NonConferencePicture(s, n)
  }

  // ----- queries -----

  /** The entries whose status satisfies `keep`, in order. */
  function Matching(es: seq<PictureEntry>, keep: PlayoffStatus -> bool): (r: seq<PictureEntry>)
    ensures |r| <= |es|
    ensures forall e :: e in r <==> e in es && keep(e.status)
    decreases |es|
  {
    if |es| == 0 then []
    else
      var rest := Matching(es[1..], keep);
      assert forall x :: x in es <==> x == es[0] || x in es[1..];
      if keep(es[0].status) then [es[0]] + rest else rest
  }

  predicate HoldsBerth(st: PlayoffStatus) {
    st.ClinchedTopSeed? || st.ClinchedPlayoffs? || st.InPlayoffPosition?
  }

  predicate ClinchedStatus(st: PlayoffStatus) {
    st.ClinchedTopSeed? || st.ClinchedPlayoffs?
  }

  predicate HuntStatus(st: PlayoffStatus) {
    st.InTheHunt?
  }

  predicate EliminatedStatus(st: PlayoffStatus) {
    st.Eliminated?
  }

  /** `playoff_teams`: the teams currently holding a berth. */
  function PlayoffTeams(p: PlayoffPicture): (r: seq<PictureEntry>)
    ensures forall e :: e in r <==> e in p.entries && (e.status.ClinchedTopSeed? || e.status.ClinchedPlayoffs? || e.status.InPlayoffPosition?)
  {
    Matching(p.entries, HoldsBerth)
  }

  /** `clinched_teams`. */
  function ClinchedTeams(p: PlayoffPicture): (r: seq<PictureEntry>)
    ensures forall e :: e in r <==> e in p.entries && IsClinched(e)
  {
    Matching(p.entries, ClinchedStatus)
  }

  /** `in_the_hunt`. */
  function InTheHuntTeams(p: PlayoffPicture): (r: seq<PictureEntry>)
    ensures forall e :: e in r <==> e in p.entries && e.status.InTheHunt?
  {
    Matching(p.entries, HuntStatus)
  }

  /** `eliminated_teams`. */
  function EliminatedTeams(p: PlayoffPicture): (r: seq<PictureEntry>)
    ensures forall e :: e in r <==> e in p.entries && IsEliminated(e)
  {
    Matching(p.entries, EliminatedStatus)
  }

  /** Teams holding a berth, teams in the hunt and eliminated teams split
      the entries between them. */
  lemma {:induction false} StatusesPartition(es: seq<PictureEntry>)
    ensures |Matching(es, HoldsBerth)| + |Matching(es, HuntStatus)| + |Matching(es, EliminatedStatus)| == |es|
    decreases |es|
  {
    if |es| > 0 {
      StatusesPartition(es[1..]);
    }
  }

  /** `team_status`: the first entry of the team. */
  function TeamStatus(p: PlayoffPicture, id: nat): (r: Option<PictureEntry>)
    ensures r.Some? ==> r.value in p.entries && r.value.teamId == id
    ensures r.None? <==> forall i :: 0 <= i < |p.entries| ==> p.entries[i].teamId != id
  {
    FirstEntry(p.entries, id)
  }

  function FirstEntry(es: seq<PictureEntry>, id: nat): (r: Option<PictureEntry>)
    ensures r.Some? ==> r.value in es && r.value.teamId == id
    ensures r.None? <==> forall i :: 0 <= i < |es| ==> es[i].teamId != id
    decreases |es|
  {
    if |es| == 0 then None
    else if es[0].teamId == id then Some(es[0])
    else
      assert forall i :: 1 <= i < |es| ==> es[i] == es[1..][i - 1];
      FirstEntry(es[1..], id)
  }
}
