/** What the conference round generators of src/league/season/playoffs.rs
    leave behind. `PlayoffRounds` gives each generator's outcome; the source
    changes the playoffs as it goes, so a refusal can come after part of the
    work is done. Here a generator returns the playoffs after the call beside
    its refusal, if any. */
module PlayoffStates {
  import opened Wrappers
  import opened SeasonMatchups
  import opened Weeks
  import opened Playoffs
  import PT = PlayoffTeams
  import Brackets
  import Maps
  import opened PlayoffRounds

  /** A conference round that restarts the bracket (an empty bracket, a
      field of two or more, no conference bracket started) first inserts an
      empty bracket for the conference. */
  predicate ClearsBracket(p: SeasonPlayoffs, c: nat) {
    Size(p, c) >= 2 && |Rounds(p, c)| == 0 && !Playoffs.Started(p)
  }

  /** The playoffs with conference `c`'s bracket set to no rounds. */
  function Cleared(p: SeasonPlayoffs, c: nat): (q: SeasonPlayoffs)
    ensures Rounds(q, c) == [] && c in q.conferenceBrackets
  {
    p.(conferenceBrackets := p.conferenceBrackets[c := []])
  }

  /** `gen_next_conference_round` with the playoffs it leaves: the new
      round on success; on a refusal, the emptied bracket when the round
      would have restarted it, and the playoffs as they were otherwise. */
  function NextConferenceRoundState(p: SeasonPlayoffs, c: nat, flips: nat -> bool)
    : (r: (SeasonPlayoffs, Option<PlayoffsError>))
    ensures r.1.None? <==> GenNextConferenceRound(p, c, flips).Ok?
    ensures r.1.None? ==> r.0 == GenNextConferenceRound(p, c, flips).value
    ensures r.1.Some? ==> GenNextConferenceRound(p, c, flips) == Err(r.1.value)
    ensures r.1.Some? && ClearsBracket(p, c) ==> r.0 == Cleared(p, c)
    ensures r.1.Some? && !ClearsBracket(p, c) ==> r.0 == p
  {
    match GenNextConferenceRound(p, c, flips)
    case Ok(q) => (q, None)
    case Err(e) => (if ClearsBracket(p, c) then Cleared(p, c) else p, Some(e))
  }

  /** The emptying is only ever applied to a bracket without rounds, so a
      refused round leaves every bracket's rounds, the field and the winners
      bracket as they were, and keeps the playoffs registered. */
  lemma RefusedRoundChangesNoRounds(p: SeasonPlayoffs, c: nat, flips: nat -> bool)
    requires NextConferenceRoundState(p, c, flips).1.Some?
    ensures var q := NextConferenceRoundState(p, c, flips).0;
            (forall d :: Rounds(q, d) == Rounds(p, d))
            && q.teams == p.teams && q.winnersBracket == p.winnersBracket
            && (Registered(p) ==> Registered(q))
  {
    var q := NextConferenceRoundState(p, c, flips).0;
    if ClearsBracket(p, c) {
      assert q == Cleared(p, c);
      forall d ensures Rounds(q, d) == Rounds(p, d) {
        if d == c { assert Rounds(p, c) == []; }
      }
      if Registered(p) {
        forall d | d in q.conferenceBrackets ensures RoundsRegistered(PT.Iter(q.teams), q.conferenceBrackets[d]) {
          if d != c { assert q.conferenceBrackets[d] == p.conferenceBrackets[d]; }
        }
      }
    }
  }

  /** `gen_next_conference_rounds` as written: the conferences are taken in
      key order, each round is put on its bracket as soon as it is built,
      and the first refusal stops the loop, so the rounds of the conferences
      before it stay. */
  function NextRoundsState(p: SeasonPlayoffs, cs: seq<nat>, flips: nat -> nat -> bool)
    : (r: (SeasonPlayoffs, Option<PlayoffsError>))
    ensures r.1.None? <==> NextRoundsFrom(p, cs, flips).Ok?
    ensures r.1.None? ==> r.0 == NextRoundsFrom(p, cs, flips).value
    ensures r.1.Some? ==> NextRoundsFrom(p, cs, flips) == Err(r.1.value)
    decreases |cs|
  {
    if |cs| == 0 then (p, None)
    else
      var first := NextConferenceRoundState(p, cs[0], flips(cs[0]));
      if first.1.Some? then first
      else NextRoundsState(first.0, cs[1..], flips)
  }

  /** Whether the loop finishes or stops, the field and the winners bracket
      are untouched and every bracket still names only teams of the field. */
  lemma {:induction false} NextRoundsStateKeepsField(p: SeasonPlayoffs, cs: seq<nat>, flips: nat -> nat -> bool)
    ensures var q := NextRoundsState(p, cs, flips).0;
            q.teams == p.teams && q.winnersBracket == p.winnersBracket && (Registered(p) ==> Registered(q))
    decreases |cs|
  {
    if |cs| > 0 {
      var first := NextConferenceRoundState(p, cs[0], flips(cs[0]));
      if first.1.Some? {
        RefusedRoundChangesNoRounds(p, cs[0], flips(cs[0]));
      } else {
        NextRoundsStateKeepsField(first.0, cs[1..], flips);
      }
    }
  }

  /** The whole loop over the field's conferences, as written. */
  function GenNextConferenceRoundsState(p: SeasonPlayoffs, flips: nat -> nat -> bool)
    : (r: (SeasonPlayoffs, Option<PlayoffsError>))
    ensures r.1.None? <==> GenNextConferenceRounds(p, flips).Ok?
    ensures r.1.None? ==> r.0 == GenNextConferenceRounds(p, flips).value
  {
    NextRoundsState(p, Maps.Keys(p.teams.teams), flips)
  }

  /** A four-team conference 0 beside a one-team conference 1: the first
      call puts conference 0's first round on its bracket and then refuses
      conference 1; calling again asks conference 0's unplayed games for
      their winners, which panics in the source (`Undecided` here), instead
      of refusing conference 1 again. */
  lemma RetryAfterPartialRounds(p: SeasonPlayoffs, flips: nat -> nat -> bool)
    requires Maps.Keys(p.teams.teams) == [0, 1]
    requires PT.SeedsDense(p.teams.teams[0]) && NamesFit(p.teams, 0)
    requires Size(p, 0) == 4 && Size(p, 1) == 1
    requires Rounds(p, 0) == [] && !Playoffs.Started(p)
    ensures var first := GenNextConferenceRoundsState(p, flips);
            first.1 == Some(TooFewTeams(1)) && |Rounds(first.0, 0)| == 1
            && var second := GenNextConferenceRoundsState(first.0, flips);
               second.1.Some? && second.1.value.Undecided?
  {
    var q, w := FirstCallBuildsRound(p, flips);
    UnplayedRoundRefused(q, w, flips(0));
    var second := NextConferenceRoundState(q, 0, flips(0));
    assert second.1.Some? && second.1.value.Undecided?;
    assert GenNextConferenceRoundsState(q, flips) == second;
  }

  /** The first call of the example: conference 0 gets its first round of
      two unplayed games, then conference 1 is refused. */
  lemma FirstCallBuildsRound(p: SeasonPlayoffs, flips: nat -> nat -> bool) returns (q: SeasonPlayoffs, w: Week)
    requires Maps.Keys(p.teams.teams) == [0, 1]
    requires PT.SeedsDense(p.teams.teams[0]) && NamesFit(p.teams, 0)
    requires Size(p, 0) == 4 && Size(p, 1) == 1
    requires Rounds(p, 0) == [] && !Playoffs.Started(p)
    ensures GenNextConferenceRoundsState(p, flips) == (q, Some(TooFewTeams(1)))
    ensures Rounds(q, 0) == [w] && |w.matchups| == 2 && !Complete(w.matchups[0])
    ensures Size(q, 0) == 4 && Maps.Keys(q.teams.teams) == [0, 1]
  {
    q, w := FirstConferenceBuilt(p, flips(0));
    SmallConferenceRefused(q, flips(1));
    assert NextRoundsState(q, [1], flips) == (q, Some(TooFewTeams(1)));
    assert [0, 1][1..] == [1];
  }

  lemma FirstConferenceBuilt(p: SeasonPlayoffs, flips: nat -> bool) returns (q: SeasonPlayoffs, w: Week)
    requires 0 in p.teams.teams && PT.SeedsDense(p.teams.teams[0]) && NamesFit(p.teams, 0)
    requires Size(p, 0) == 4 && Rounds(p, 0) == [] && !Playoffs.Started(p)
    ensures NextConferenceRoundState(p, 0, flips) == (q, None)
    ensures Rounds(q, 0) == [w] && |w.matchups| == 2 && !Complete(w.matchups[0]) && q.teams == p.teams
  {
    FourIsPowerOfTwo();
    PowerOfTwoFirstRoundBuilt(p, 0, flips);
    q := GenConferenceFirstRound(p, 0, flips).value;
    w :| SetsBracket(p, q, 0, [w]) && SeatsSeeds(p.teams, 0, Brackets.PowerOfTwoFirstRound(4), w);
  }

  lemma SmallConferenceRefused(q: SeasonPlayoffs, flips: nat -> bool)
    requires Size(q, 1) == 1
    ensures NextConferenceRoundState(q, 1, flips) == (q, Some(TooFewTeams(1)))
  {
  }

  lemma FourIsPowerOfTwo()
    ensures Brackets.IsPowerOfTwo(4)
  {
    assert Brackets.IsPowerOfTwo(2);
  }

  /** The next round after a full first round whose games are unplayed asks
      for a winner that does not exist yet. */
  lemma UnplayedRoundRefused(q: SeasonPlayoffs, w: Week, flips: nat -> bool)
    requires Size(q, 0) == 4 && Rounds(q, 0) == [w] && |w.matchups| == 2 && !Complete(w.matchups[0])
    ensures GenNextConferenceRound(q, 0, flips).Err? && GenNextConferenceRound(q, 0, flips).error.Undecided?
  {
    FourIsPowerOfTwo();
    assert LastRound(Rounds(q, 0)) == w;
    assert WinnerOf(w.matchups[0]).Err?;
    var ids := WinnerIds(w);
    assert ids.Err? && ids.error.Undecided?;
  }

  /** The loop as evidently intended: all conferences advance or none does,
      so a refusal leaves the playoffs as they were. */
  function GenNextConferenceRoundsAtomic(p: SeasonPlayoffs, flips: nat -> nat -> bool)
    : (r: (SeasonPlayoffs, Option<PlayoffsError>))
    ensures r.1.None? <==> GenNextConferenceRounds(p, flips).Ok?
    ensures r.1.None? ==> r.0 == GenNextConferenceRounds(p, flips).value
    ensures r.1.Some? ==> r.0 == p && GenNextConferenceRounds(p, flips) == Err(r.1.value)
  {
    match GenNextConferenceRounds(p, flips)
    case Ok(q) => (q, None)
    case Err(e) => (p, Some(e))
  }

  /** With the atomic loop, calling again after a refusal refuses again in
      the same way. */
  lemma AtomicRetryRepeats(p: SeasonPlayoffs, flips: nat -> nat -> bool)
    requires GenNextConferenceRoundsAtomic(p, flips).1.Some?
    ensures var first := GenNextConferenceRoundsAtomic(p, flips);
            GenNextConferenceRoundsAtomic(first.0, flips) == first
  {
  }
}
