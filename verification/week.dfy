/** A week of a season (src/league/season/week.rs): the list of its
    matchups. */
module Weeks {
  import opened Wrappers
  import opened SeasonMatchups

  datatype Week = Week(matchups: seq<Matchup>)

  /** A week has started once any of its games is over. */
  predicate Started(w: Week) {
    |w.matchups| > 0 && exists i :: 0 <= i < |w.matchups| && Complete(w.matchups[i])
  }

  /** A week is complete once it has games and all of them are over. */
  predicate WeekComplete(w: Week) {
    |w.matchups| > 0 && forall i :: 0 <= i < |w.matchups| ==> Complete(w.matchups[i])
  }

  /** `started`: an empty week has not started; otherwise the scan stops at
      the first finished game. */
  method IsStarted(w: Week) returns (b: bool)
    ensures b <==> Started(w)
  {
    if |w.matchups| == 0 {
      return false;
    }
    var i := 0;
    while i < |w.matchups|
      invariant 0 <= i <= |w.matchups|
      invariant forall k :: 0 <= k < i ==> !Complete(w.matchups[k])
    {
      if Complete(w.matchups[i]) {
        return true;
      }
      i := i + 1;
    }
    return false;
  }

  /** `complete`: an empty week is not complete; otherwise the scan stops at
      the first unfinished game. */
  method IsComplete(w: Week) returns (b: bool)
    ensures b <==> WeekComplete(w)
  {
    if |w.matchups| == 0 {
      return false;
    }
    var i := 0;
    while i < |w.matchups|
      invariant 0 <= i <= |w.matchups|
      invariant forall k :: 0 <= k < i ==> Complete(w.matchups[k])
    {
      if !Complete(w.matchups[i]) {
        return false;
      }
      i := i + 1;
    }
    return true;
  }

  /** Every complete week has started; a week with unfinished games can
      still have started. */
  lemma CompleteImpliesStarted(w: Week)
    ensures WeekComplete(w) ==> Started(w)
  {
    if WeekComplete(w) {
      assert Complete(w.matchups[0]);
    }
  }

  /** `team_matchup`: the first matchup the team plays in. */
  function TeamMatchup(w: Week, id: nat): (r: Option<Matchup>)
    ensures r.None? <==> forall i :: 0 <= i < |w.matchups| ==> !Participated(w.matchups[i], id)
    ensures r.Some? ==> exists i :: 0 <= i < |w.matchups| && r.value == w.matchups[i]
                                   && forall k :: 0 <= k < i ==> !Participated(w.matchups[k], id)
    ensures r.Some? ==> Participated(r.value, id)
  {
    FirstFrom(w.matchups, id, 0)
  }

  function FirstFrom(ms: seq<Matchup>, id: nat, k: nat): (r: Option<Matchup>)
    requires k <= |ms|
    ensures r.None? <==> forall i :: k <= i < |ms| ==> !Participated(ms[i], id)
    ensures r.Some? ==> exists i :: k <= i < |ms| && r.value == ms[i]
                                   && forall j :: k <= j < i ==> !Participated(ms[j], id)
    ensures r.Some? ==> Participated(r.value, id)
    decreases |ms| - k
  {
    if k == |ms| then None
    else if Participated(ms[k], id) then Some(ms[k])
    else FirstFrom(ms, id, k + 1)
  }

  /** A game to schedule: the two team IDs and their short names. */
  datatype Fixture = Fixture(home: nat, away: nat, homeShort: string, awayShort: string)

  /** A fixture the game context accepts: both short names fit. */
  predicate Schedulable(f: Fixture) {
    |f.homeShort| <= 4 && |f.awayShort| <= 4
  }

  /** A new week holding one fresh matchup per fixture, in order; the `i`-th
      coin flip is `flips(i)`. A short name the game context refuses makes
      the source's matchup constructor panic, which is `None` here. */
  function FromFixtures(fs: seq<Fixture>, flips: nat -> bool): (r: Option<Week>)
    ensures r.Some? <==> forall i :: 0 <= i < |fs| ==> Schedulable(fs[i])
    ensures r.Some? ==> |r.value.matchups| == |fs|
    ensures r.Some? ==> forall i :: 0 <= i < |fs| ==>
              r.value.matchups[i].home == fs[i].home && r.value.matchups[i].away == fs[i].away
              && !Complete(r.value.matchups[i])
    ensures r.Some? ==> !Started(r.value) && !WeekComplete(r.value)
    decreases |fs|
  {
    if |fs| == 0 then Some(Week([]))
    else
      var f := fs[|fs| - 1];
      match FromFixtures(fs[..|fs| - 1], flips)
      case None => None
      case Some(front) =>
        match NewMatchup(f.home, f.away, f.homeShort, f.awayShort, flips(|fs| - 1))
        case None => None
        case Some(m) => Some(Week(front.matchups + [m]))
  }
}
