/** The round generators of the playoffs (src/league/season/playoffs.rs,
    `gen_*`): each builds the next week of one bracket from the seeds, the
    conference champions or the winners of the previous round, and puts it
    on the bracket. The pairings come from `Brackets`; here they are looked
    up in the field and turned into matchups. The random coin flip of each
    new matchup is the `flips` parameter. */
module PlayoffRounds {
  import opened Wrappers
  import opened SeasonMatchups
  import opened Weeks
  import opened Playoffs
  import PT = PlayoffTeams
  import Brackets
  import Maps

  // ----- looking teams up -----

  /** `get_by_seed` as the generators use it: a missing seed is an error. */
  function LookupSeed(t: PT.PlayoffTeams, c: nat, seed: nat): (r: Result<(nat, PT.PlayoffTeam), PlayoffsError>)
    ensures r.Ok? <==> PT.GetBySeed(t, c, seed).Some?
    ensures r.Ok? ==> r.value == PT.GetBySeed(t, c, seed).value
    ensures r.Err? ==> r.error == NoTeamWithSeed(c, seed)
  {
    match PT.GetBySeed(t, c, seed)
    case Some(e) => Ok(e)
    case None => Err(NoTeamWithSeed(c, seed))
  }

  /** The fixture seats the teams of conference `c` holding the two seeds,
      with the short names they were entered with. */
  predicate Seats(t: PT.PlayoffTeams, c: nat, seeds: (nat, nat), f: Fixture) {
    && c in t.teams
    && f.home in t.teams[c] && t.teams[c][f.home].seed == seeds.0 && t.teams[c][f.home].shortName == f.homeShort
    && f.away in t.teams[c] && t.teams[c][f.away].seed == seeds.1 && t.teams[c][f.away].shortName == f.awayShort
  }

  /** Both seeds of a pairing are held in conference `c`. */
  predicate Held(t: PT.PlayoffTeams, c: nat, seeds: (nat, nat)) {
    PT.GetBySeed(t, c, seeds.0).Some? && PT.GetBySeed(t, c, seeds.1).Some?
  }

  /** The fixture of a seed pairing, home seed looked up first. */
  function SeedFixture(t: PT.PlayoffTeams, c: nat, seeds: (nat, nat)): (r: Result<Fixture, PlayoffsError>)
    ensures r.Ok? <==> Held(t, c, seeds)
    ensures r.Err? ==> r.error.NoTeamWithSeed? && r.error.conference == c
    ensures r.Ok? ==> Seats(t, c, seeds, r.value)
  {
    var home :- LookupSeed(t, c, seeds.0);
    var away :- LookupSeed(t, c, seeds.1);
    Ok(Fixture(home.0, away.0, home.1.shortName, away.1.shortName))
  }

  /** The fixtures of seed pairings in order; the first seed nobody holds
      is the error. */
  function SeedFixtures(t: PT.PlayoffTeams, c: nat, pairs: seq<(nat, nat)>): (r: Result<seq<Fixture>, PlayoffsError>)
    ensures r.Ok? <==> forall i :: 0 <= i < |pairs| ==> Held(t, c, pairs[i])
    ensures r.Ok? ==> |r.value| == |pairs| && forall i :: 0 <= i < |pairs| ==> Seats(t, c, pairs[i], r.value[i])
  {
    MapResult(pairs, (pr: (nat, nat)) => SeedFixture(t, c, pr))
  }

  /** A team's entry as `get` finds it: a team missing from the field makes
      the source's `unwrap` panic, which is an error here. */
  function LookupTeam(p: SeasonPlayoffs, id: nat): (r: Result<PT.PlayoffTeam, PlayoffsError>)
    ensures r.Ok? <==> PT.Contains(p.teams, id)
    ensures r.Ok? ==> PT.Get(p.teams, id) == Some(r.value)
    ensures r.Err? ==> r.error == NotInPlayoffs(id)
  {
    match PT.Get(p.teams, id)
    case Some(e) => Ok(e)
    case None => Err(NotInPlayoffs(id))
  }

  /** The fixture of two teams of the field, home first. */
  function TeamFixture(p: SeasonPlayoffs, home: nat, away: nat): (r: Result<Fixture, PlayoffsError>)
    ensures r.Ok? <==> PT.Contains(p.teams, home) && PT.Contains(p.teams, away)
    ensures r.Ok? ==> r.value.home == home && r.value.away == away
    ensures r.Ok? ==> r.value.homeShort == PT.Get(p.teams, home).value.shortName
                      && r.value.awayShort == PT.Get(p.teams, away).value.shortName
  {
    var h :- LookupTeam(p, home);
    var a :- LookupTeam(p, away);
    Ok(Fixture(home, away, h.shortName, a.shortName))
  }

  /** The week of the fixtures; a rejected short name is an error. */
  function Build(fs: seq<Fixture>, flips: nat -> bool): (r: Result<Week, PlayoffsError>)
    ensures r.Ok? <==> forall i :: 0 <= i < |fs| ==> Schedulable(fs[i])
    ensures r.Ok? ==> |r.value.matchups| == |fs|
    ensures r.Ok? ==> forall i :: 0 <= i < |fs| ==>
              r.value.matchups[i].home == fs[i].home && r.value.matchups[i].away == fs[i].away
              && !Complete(r.value.matchups[i])
    ensures r.Ok? ==> !Weeks.Started(r.value)
  {
    match FromFixtures(fs, flips)
    case Some(w) => Ok(w)
    case None => Err(ShortNameRejected)
  }

  /** The winner of a game; a game without one makes the source's `unwrap`
      panic, which is an error here. */
  function WinnerOf(m: Matchup): (r: Result<nat, PlayoffsError>)
    ensures r.Ok? <==> Winner(m).Some?
    ensures r.Ok? ==> Winner(m) == Some(r.value)
  {
    match Winner(m)
    case Some(id) => Ok(id)
    case None => Err(Undecided(m.home, m.away))
  }

  /** The winners of a round's games in order. */
  function WinnerIds(w: Week): (r: Result<seq<nat>, PlayoffsError>)
    ensures r.Ok? <==> forall j :: 0 <= j < |w.matchups| ==> Winner(w.matchups[j]).Some?
    ensures r.Ok? ==> |r.value| == |w.matchups|
                      && forall j :: 0 <= j < |w.matchups| ==> Winner(w.matchups[j]) == Some(r.value[j])
  {
    MapResult(w.matchups, WinnerOf)
  }

  /** The seeds of the given teams; a team outside the field makes the
      source's `unwrap` panic, which is an error here. */
  function SeedsOf(p: SeasonPlayoffs, ids: seq<nat>): (r: Result<seq<nat>, PlayoffsError>)
    ensures r.Ok? <==> forall j :: 0 <= j < |ids| ==> TeamSeed(p, ids[j]).Ok?
    ensures r.Ok? ==> |r.value| == |ids| && forall j :: 0 <= j < |ids| ==> TeamSeed(p, ids[j]) == Ok(r.value[j])
  {
    MapResult(ids, (id: nat) => TeamSeed(p, id))
  }

  // ----- what a generator leaves behind -----

  /** The rounds of conference `c`'s bracket, none before the first. */
  function Rounds(p: SeasonPlayoffs, c: nat): seq<Week> {
    if c in p.conferenceBrackets then p.conferenceBrackets[c] else []
  }

  /** `q` is `p` with conference `c`'s bracket replaced by `rounds`. */
  predicate SetsBracket(p: SeasonPlayoffs, q: SeasonPlayoffs, c: nat, rounds: seq<Week>) {
    q == p.(conferenceBrackets := p.conferenceBrackets[c := rounds])
  }

  /** Each new matchup seats the teams holding its pair of seeds in
      conference `c`, and none is played yet. */
  predicate SeatsSeeds(t: PT.PlayoffTeams, c: nat, seeds: seq<(nat, nat)>, w: Week) {
    && |w.matchups| == |seeds|
    && forall i :: 0 <= i < |seeds| ==>
         && c in t.teams
         && w.matchups[i].home in t.teams[c] && t.teams[c][w.matchups[i].home].seed == seeds[i].0
         && w.matchups[i].away in t.teams[c] && t.teams[c][w.matchups[i].away].seed == seeds[i].1
         && !Complete(w.matchups[i])
  }

  /** The conference's week of the given seed pairings. */
  function SeededWeek(p: SeasonPlayoffs, c: nat, seeds: seq<(nat, nat)>, flips: nat -> bool): (r: Result<Week, PlayoffsError>)
    ensures r.Ok? ==> SeatsSeeds(p.teams, c, seeds, r.value) && !Weeks.Started(r.value)
    ensures r.Ok? ==> RoundRegistered(PT.Iter(p.teams), r.value)
    ensures (forall i :: 0 <= i < |seeds| ==> Held(p.teams, c, seeds[i])) && NamesFit(p.teams, c) ==> r.Ok?
  {
    var fs :- SeedFixtures(p.teams, c, seeds);
    SeatedNamesFit(p.teams, c, seeds, fs);
    var w :- Build(fs, flips);
    SeatedWeek(p.teams, c, seeds, fs, w);
    Ok(w)
  }

  /** Fixtures seating teams of a conference whose names all fit can be
      scheduled. */
  lemma SeatedNamesFit(t: PT.PlayoffTeams, c: nat, seeds: seq<(nat, nat)>, fs: seq<Fixture>)
    requires |fs| == |seeds| && forall i :: 0 <= i < |seeds| ==> Seats(t, c, seeds[i], fs[i])
    ensures NamesFit(t, c) ==> forall i :: 0 <= i < |fs| ==> Schedulable(fs[i])
  {
    if NamesFit(t, c) {
      forall i | 0 <= i < |fs| ensures Schedulable(fs[i]) {
        assert Seats(t, c, seeds[i], fs[i]);
      }
    }
  }

  /** The week built from seated fixtures seats the seeds and names only
      teams of the field. */
  lemma SeatedWeek(t: PT.PlayoffTeams, c: nat, seeds: seq<(nat, nat)>, fs: seq<Fixture>, w: Week)
    requires |fs| == |seeds| && forall i :: 0 <= i < |seeds| ==> Seats(t, c, seeds[i], fs[i])
    requires |w.matchups| == |fs|
    requires forall i :: 0 <= i < |fs| ==>
               w.matchups[i].home == fs[i].home && w.matchups[i].away == fs[i].away && !Complete(w.matchups[i])
    ensures SeatsSeeds(t, c, seeds, w) && RoundRegistered(PT.Iter(t), w)
  {
    forall i | 0 <= i < |seeds|
      ensures && c in t.teams
              && w.matchups[i].home in t.teams[c] && t.teams[c][w.matchups[i].home].seed == seeds[i].0
              && w.matchups[i].away in t.teams[c] && t.teams[c][w.matchups[i].away].seed == seeds[i].1
              && !Complete(w.matchups[i])
    {
      assert Seats(t, c, seeds[i], fs[i]);
    }
    assert SeatsSeeds(t, c, seeds, w);
    forall i | 0 <= i < |w.matchups| ensures w.matchups[i].home in PT.Iter(t) && w.matchups[i].away in PT.Iter(t) {
      assert Seats(t, c, seeds[i], fs[i]);
      Listed(t, c, fs[i].home);
      Listed(t, c, fs[i].away);
    }
  }

  /** Every team of conference `c` was entered with a short name the game
      context accepts. */
  predicate NamesFit(t: PT.PlayoffTeams, c: nat) {
    c in t.teams && forall id :: id in t.teams[c] ==> |t.teams[c][id].shortName| <= 4
  }

  /** A team of a conference is listed by `iter`. */
  lemma Listed(t: PT.PlayoffTeams, c: nat, id: nat)
    requires c in t.teams && id in t.teams[c]
    ensures id in PT.Iter(t)
  {
    PT.ContainsIffListed(t, id);
  }

  /** A week of two teams of the field per game. */
  function TeamsWeek(p: SeasonPlayoffs, pairs: seq<(nat, nat)>, flips: nat -> bool): (r: Result<Week, PlayoffsError>)
    ensures r.Ok? ==> Plays(r.value, pairs) && !Weeks.Started(r.value)
    ensures r.Ok? ==> RoundRegistered(PT.Iter(p.teams), r.value)
  {
    var fs :- TeamFixtures(p, pairs);
    var w :- Build(fs, flips);
    forall i | 0 <= i < |w.matchups| ensures w.matchups[i].home in PT.Iter(p.teams) && w.matchups[i].away in PT.Iter(p.teams) {
      PT.ContainsIffListed(p.teams, pairs[i].0);
      PT.ContainsIffListed(p.teams, pairs[i].1);
    }
    Ok(w)
  }

  function TeamFixtures(p: SeasonPlayoffs, pairs: seq<(nat, nat)>): (r: Result<seq<Fixture>, PlayoffsError>)
    ensures r.Ok? ==> |r.value| == |pairs|
    ensures r.Ok? ==> forall i :: 0 <= i < |pairs| ==> TeamFixture(p, pairs[i].0, pairs[i].1) == Ok(r.value[i])
  {
    MapResult(pairs, (pr: (nat, nat)) => TeamFixture(p, pr.0, pr.1))
  }

  /** Putting a registered week on a bracket keeps the playoffs registered. */
  lemma ExtendKeepsRegistered(p: SeasonPlayoffs, c: nat, w: Week)
    requires RoundRegistered(PT.Iter(p.teams), w)
    ensures Registered(p) ==> Registered(p.(conferenceBrackets := p.conferenceBrackets[c := Rounds(p, c) + [w]]))
  {
    if Registered(p) {
      var rounds := Rounds(p, c);
      var rs := rounds + [w];
      forall i | 0 <= i < |rs| ensures RoundRegistered(PT.Iter(p.teams), rs[i]) {
        if i < |rounds| {
          assert rs[i] == rounds[i];
          assert RoundsRegistered(PT.Iter(p.teams), rounds);
        }
      }
    }
  }

  /** So does restarting a bracket from a registered week. */
  lemma RestartKeepsRegistered(p: SeasonPlayoffs, c: nat, w: Week)
    requires RoundRegistered(PT.Iter(p.teams), w)
    ensures Registered(p) ==> Registered(p.(conferenceBrackets := p.conferenceBrackets[c := [w]]))
  {
  }

  lemma ExtendWinnersKeepsRegistered(p: SeasonPlayoffs, w: Week)
    requires RoundRegistered(PT.Iter(p.teams), w)
    ensures Registered(p) ==> Registered(p.(winnersBracket := p.winnersBracket + [w]))
  {
    if Registered(p) {
      var rs := p.winnersBracket + [w];
      forall i | 0 <= i < |rs| ensures RoundRegistered(PT.Iter(p.teams), rs[i]) {
        if i < |p.winnersBracket| {
          assert rs[i] == p.winnersBracket[i];
        }
      }
    }
  }

  lemma RestartWinnersKeepsRegistered(p: SeasonPlayoffs, w: Week)
    requires RoundRegistered(PT.Iter(p.teams), w)
    ensures Registered(p) ==> Registered(p.(winnersBracket := [w]))
  {
  }

  // ----- conference brackets -----

  /** The number of teams in conference `c`. */
  function Size(p: SeasonPlayoffs, c: nat): nat {
    |PT.Members(p.teams, c)|
  }

  /** `gen_conference_wild_card_round`: refused with fewer than two teams,
      with a power of two (no wild-card round then) or once play has
      started; otherwise the bracket restarts from a single round in which
      seed `byes + i + 1` hosts seed `n - i`. */
  function GenConferenceWildCardRound(p: SeasonPlayoffs, c: nat, flips: nat -> bool): (r: Result<SeasonPlayoffs, PlayoffsError>)
    ensures Size(p, c) < 2 ==> r == Err(TooFewTeams(Size(p, c)))
    ensures Size(p, c) >= 2 && Brackets.IsPowerOfTwo(Size(p, c)) ==> r == Err(NoWildCardRound(Size(p, c)))
    ensures Size(p, c) >= 2 && !Brackets.IsPowerOfTwo(Size(p, c)) && Playoffs.Started(p) ==> r == Err(AlreadyStarted)
    ensures r.Ok? ==> exists w :: SetsBracket(p, r.value, c, [w])
                                  && SeatsSeeds(p.teams, c, Brackets.WildCardRound(Size(p, c)).value, w)
    ensures r.Ok? && Registered(p) ==> Registered(r.value)
  {
    var n := Size(p, c);
    if n < 2 then Err(TooFewTeams(n))
    else if Brackets.IsPowerOfTwo(n) then Err(NoWildCardRound(n))
    else if Playoffs.Started(p) then Err(AlreadyStarted)
    else
      var w :- SeededWeek(p, c, Brackets.WildCardRound(n).value, flips);
      RestartKeepsRegistered(p, c, w);
      Ok(p.(conferenceBrackets := p.conferenceBrackets[c := [w]]))
  }

  /** In a field entered through `add` (dense seeds, names that fit) the
      wild-card round of a bracket that has not started is always built. */
  lemma WildCardRoundBuilt(p: SeasonPlayoffs, c: nat, flips: nat -> bool)
    requires c in p.teams.teams && PT.SeedsDense(p.teams.teams[c]) && NamesFit(p.teams, c)
    requires Size(p, c) >= 2 && !Brackets.IsPowerOfTwo(Size(p, c)) && !Playoffs.Started(p)
    ensures GenConferenceWildCardRound(p, c, flips).Ok?
  {
    var n := Size(p, c);
    Brackets.WildCardRoundCovers(n);
    var seeds := Brackets.WildCardRound(n).value;
    forall i | 0 <= i < |seeds| ensures Held(p.teams, c, seeds[i]) {
      assert Brackets.Plays(seeds, i, seeds[i].0) && Brackets.Plays(seeds, i, seeds[i].1);
      PT.SeedLookup(p.teams, c, seeds[i].0);
      PT.SeedLookup(p.teams, c, seeds[i].1);
    }
  }

  /** The seed a first-round slot stands for: bye rank `k` is seed `k + 1`,
      and wild-card winner `j` brings the seed it was entered with. */
  function SlotSeed(s: Brackets.Slot, winnerSeeds: seq<nat>): nat {
    match s
    case Bye(k) => k + 1
    case Winner(j) => if j < |winnerSeeds| then winnerSeeds[j] else 0
  }

  /** The seed pairings of the first round after a wild-card round: a bye
      hosts the winner it meets, two byes play in the order given, and of
      two winners the lower seed is at home. */
  function SlotSeeds(slots: seq<(Brackets.Slot, Brackets.Slot)>, winnerSeeds: seq<nat>): (r: seq<(nat, nat)>)
    ensures |r| == |slots|
    ensures forall i :: 0 <= i < |slots| ==>
              var a := SlotSeed(slots[i].0, winnerSeeds);
              var b := SlotSeed(slots[i].1, winnerSeeds);
              if slots[i].0.Winner? && slots[i].1.Winner? && b <= a then r[i] == (b, a) else r[i] == (a, b)
  {
    seq(|slots|, i requires 0 <= i < |slots| =>
      var a := SlotSeed(slots[i].0, winnerSeeds);
      var b := SlotSeed(slots[i].1, winnerSeeds);
      if slots[i].0.Winner? && slots[i].1.Winner? && !(a < b) then (b, a) else (a, b))
  }

  /** The seeds of the winners of a round's games. */
  function WinnerSeeds(p: SeasonPlayoffs, w: Week): (r: Result<seq<nat>, PlayoffsError>)
    ensures r.Ok? ==> |r.value| == |w.matchups|
    ensures r.Ok? ==> forall j :: 0 <= j < |w.matchups| ==>
              Winner(w.matchups[j]).Some? && TeamSeed(p, Winner(w.matchups[j]).value) == Ok(r.value[j])
  {
    var ids :- WinnerIds(w);
    SeedsOf(p, ids)
  }

  /** `gen_conference_first_round`. A power-of-two field is refused once
      play has started and otherwise restarts the bracket with seed `i + 1`
      hosting seed `n - i`. Any other field needs its wild-card round, and
      only that, to be on the bracket; the byes and the winners then meet as
      `Brackets.ConferenceFirstRoundSlotsAsWritten` pairs them
      (`FirstRoundAfterWildCard`). */
  function GenConferenceFirstRound(p: SeasonPlayoffs, c: nat, flips: nat -> bool): (r: Result<SeasonPlayoffs, PlayoffsError>)
    ensures Size(p, c) < 2 ==> r == Err(TooFewTeams(Size(p, c)))
    ensures Size(p, c) >= 2 && Brackets.IsPowerOfTwo(Size(p, c)) && Playoffs.Started(p) ==> r == Err(AlreadyStarted)
    ensures Size(p, c) >= 2 && Brackets.IsPowerOfTwo(Size(p, c)) && r.Ok? ==>
              exists w :: SetsBracket(p, r.value, c, [w])
                          && SeatsSeeds(p.teams, c, Brackets.PowerOfTwoFirstRound(Size(p, c)), w)
    ensures Size(p, c) >= 2 && !Brackets.IsPowerOfTwo(Size(p, c)) ==>
              (|Rounds(p, c)| > 1 ==> r == Err(TooManyRounds(|Rounds(p, c)|)))
              && (|Rounds(p, c)| == 0 ==> r == Err(NoPreviousRound))
    ensures Size(p, c) >= 2 && !Brackets.IsPowerOfTwo(Size(p, c)) && r.Ok? ==>
              |Rounds(p, c)| == 1
              && WinnerSeeds(p, Rounds(p, c)[0]).Ok?
              && var ws := WinnerSeeds(p, Rounds(p, c)[0]).value;
                 var slots := Brackets.ConferenceFirstRoundSlotsAsWritten(Brackets.ConferenceByes(Size(p, c)).value, |ws|);
                 slots.Ok?
                 && exists w :: SetsBracket(p, r.value, c, Rounds(p, c) + [w])
                                && SeatsSeeds(p.teams, c, SlotSeeds(slots.value, ws), w)
    ensures Size(p, c) >= 2 && !Brackets.IsPowerOfTwo(Size(p, c)) && |Rounds(p, c)| == 1
            && WinnerSeeds(p, Rounds(p, c)[0]).Ok?
            && Brackets.ConferenceFirstRoundSlotsAsWritten(Brackets.ConferenceByes(Size(p, c)).value,
                                                           |WinnerSeeds(p, Rounds(p, c)[0]).value|).Err?
            ==> r.Err?
    ensures Size(p, c) >= 2 && !Brackets.IsPowerOfTwo(Size(p, c)) && |Rounds(p, c)| == 1
            && WinnerSeeds(p, Rounds(p, c)[0]).Ok?
            ==> var ws := WinnerSeeds(p, Rounds(p, c)[0]).value;
                var byes := Brackets.ConferenceByes(Size(p, c)).value;
                var slots := Brackets.ConferenceFirstRoundSlotsAsWritten(byes, |ws|);
                slots.Err? && SeededWeek(p, c, SlotSeeds(Brackets.ByesHostWinners(byes, |ws|), ws), flips).Ok?
                ==> r == Err(Bracket(slots.error))
    ensures Size(p, c) >= 2 && !Brackets.IsPowerOfTwo(Size(p, c)) && |Rounds(p, c)| == 1
            && WinnerSeeds(p, Rounds(p, c)[0]).Ok?
            ==> r == FirstRoundAfterWildCard(p, c, WinnerSeeds(p, Rounds(p, c)[0]).value, flips)
    ensures r.Ok? && Registered(p) ==> Registered(r.value)
  {
    var n := Size(p, c);
    if n < 2 then Err(TooFewTeams(n))
    else if Brackets.IsPowerOfTwo(n) then
      if Playoffs.Started(p) then Err(AlreadyStarted)
      else
        var w :- SeededWeek(p, c, Brackets.PowerOfTwoFirstRound(n), flips);
        RestartKeepsRegistered(p, c, w);
        Ok(p.(conferenceBrackets := p.conferenceBrackets[c := [w]]))
    else
      var rounds := Rounds(p, c);
      if |rounds| > 1 then Err(TooManyRounds(|rounds|))
      else if |rounds| == 0 then Err(NoPreviousRound)
      else
        var ws :- WinnerSeeds(p, rounds[0]);
        FirstRoundAfterWildCard(p, c, ws, flips)
  }

  /** The part of `gen_conference_first_round` that follows a decided
      wild-card round of a field of `Size(p, c)` teams whose winners hold
      the seeds `ws`: the byes and the winners meet as
      `Brackets.ConferenceFirstRoundSlotsAsWritten` pairs them, and when
      that lookup fails the games of the byes are seated before the missing
      winner is reported. */
  function FirstRoundAfterWildCard(p: SeasonPlayoffs, c: nat, ws: seq<nat>, flips: nat -> bool)
    : (r: Result<SeasonPlayoffs, PlayoffsError>)
    requires Size(p, c) >= 2
    ensures var slots := Brackets.ConferenceFirstRoundSlotsAsWritten(Brackets.ConferenceByes(Size(p, c)).value, |ws|);
            r.Ok? ==>
              slots.Ok?
              && exists w :: SetsBracket(p, r.value, c, Rounds(p, c) + [w])
                             && SeatsSeeds(p.teams, c, SlotSeeds(slots.value, ws), w)
    ensures var byes := Brackets.ConferenceByes(Size(p, c)).value;
            var slots := Brackets.ConferenceFirstRoundSlotsAsWritten(byes, |ws|);
            slots.Err? ==>
              r.Err?
              && (SeededWeek(p, c, SlotSeeds(Brackets.ByesHostWinners(byes, |ws|), ws), flips).Ok?
                  ==> r == Err(Bracket(slots.error)))
    ensures r.Ok? && Registered(p) ==> Registered(r.value)
  {
    var byes := Brackets.ConferenceByes(Size(p, c)).value;
    match Brackets.ConferenceFirstRoundSlotsAsWritten(byes, |ws|)
    case Err(e) =>
      var byeGames :- SeededWeek(p, c, SlotSeeds(Brackets.ByesHostWinners(byes, |ws|), ws), flips);
      Err(Bracket(e))
    case Ok(slots) =>
      var w :- SeededWeek(p, c, SlotSeeds(slots, ws), flips);
      ExtendKeepsRegistered(p, c, w);
      Ok(p.(conferenceBrackets := p.conferenceBrackets[c := Rounds(p, c) + [w]]))
  }

  /** The first round with the winners bracket's fold `diff - (i + 1)` in
      place of the written index: it differs from `GenConferenceFirstRound`
      only after a wild-card round, where the byes and the winners meet as
      `Brackets.FirstRoundSlots` pairs them. */
  function GenConferenceFirstRoundCorrected(p: SeasonPlayoffs, c: nat, flips: nat -> bool): (r: Result<SeasonPlayoffs, PlayoffsError>)
    ensures !(Size(p, c) >= 2 && !Brackets.IsPowerOfTwo(Size(p, c)) && |Rounds(p, c)| == 1) ==>
              r == GenConferenceFirstRound(p, c, flips)
    ensures Size(p, c) >= 2 && !Brackets.IsPowerOfTwo(Size(p, c)) && r.Ok? ==>
              |Rounds(p, c)| == 1
              && WinnerSeeds(p, Rounds(p, c)[0]).Ok?
              && var ws := WinnerSeeds(p, Rounds(p, c)[0]).value;
                 var slots := Brackets.FirstRoundSlots(Brackets.ConferenceByes(Size(p, c)).value, |ws|);
                 exists w :: SetsBracket(p, r.value, c, Rounds(p, c) + [w])
                             && SeatsSeeds(p.teams, c, SlotSeeds(slots, ws), w)
    ensures r.Ok? && Registered(p) ==> Registered(r.value)
  {
    var n := Size(p, c);
    if n >= 2 && !Brackets.IsPowerOfTwo(n) && |Rounds(p, c)| == 1 then
      var rounds := Rounds(p, c);
      var ws :- WinnerSeeds(p, rounds[0]);
      var byes := Brackets.ConferenceByes(n).value;
      var w :- SeededWeek(p, c, SlotSeeds(Brackets.FirstRoundSlots(byes, |ws|), ws), flips);
      ExtendKeepsRegistered(p, c, w);
      Ok(p.(conferenceBrackets := p.conferenceBrackets[c := rounds + [w]]))
    else
      GenConferenceFirstRound(p, c, flips)
  }

  /** The seeds a first round asks for are held when the conference is
      densely seeded, the byes are among its seeds and every wild-card
      winner holds a seed of the conference. */
  lemma SlotSeedsHeld(p: SeasonPlayoffs, c: nat, slots: seq<(Brackets.Slot, Brackets.Slot)>, ws: seq<nat>, byes: nat)
    requires c in p.teams.teams && PT.SeedsDense(p.teams.teams[c])
    requires byes <= Size(p, c) && forall j :: 0 <= j < |ws| ==> 1 <= ws[j] <= Size(p, c)
    requires forall i :: 0 <= i < |slots| ==>
               Brackets.InField(slots[i].0, byes, |ws|) && Brackets.InField(slots[i].1, byes, |ws|)
    ensures forall i :: 0 <= i < |slots| ==> Held(p.teams, c, SlotSeeds(slots, ws)[i])
  {
    var seeds := SlotSeeds(slots, ws);
    forall i | 0 <= i < |slots| ensures Held(p.teams, c, seeds[i]) {
      var a := SlotSeed(slots[i].0, ws);
      var b := SlotSeed(slots[i].1, ws);
      assert 1 <= a <= Size(p, c) && 1 <= b <= Size(p, c);
      PT.SeedLookup(p.teams, c, a);
      PT.SeedLookup(p.teams, c, b);
    }
  }

  /** Some of the facts every first round after a wild-card round relies on:
      the byes are among the field's seeds. */
  lemma ByesWithinField(n: nat)
    requires n >= 2
    ensures Brackets.ConferenceByes(n).value <= n
  {
    Brackets.ByesAndWildCards(n);
  }

  /** As written, a conference whose decided wild-card round leaves at most
      one bye and two winners to meet each other is refused (seven teams:
      one bye, three winners). Once the games of the byes are seated (as
      `ByeGamesSeated` shows they are for a densely seeded conference), the
      refusal names the missing winner at index `winners - byes + 1`. `ws`
      are the seeds of the wild-card winners and `byes` the conference's
      number of byes. */
  lemma FirstRoundRefusedAsWritten(p: SeasonPlayoffs, c: nat, ws: seq<nat>, byes: nat, flips: nat -> bool)
    requires Size(p, c) >= 2 && !Brackets.IsPowerOfTwo(Size(p, c)) && |Rounds(p, c)| == 1
    requires WinnerSeeds(p, Rounds(p, c)[0]) == Ok(ws) && byes == Brackets.ConferenceByes(Size(p, c)).value
    requires byes <= 1 && |ws| >= byes + 2
    ensures GenConferenceFirstRound(p, c, flips).Err?
    ensures SeededWeek(p, c, SlotSeeds(Brackets.ByesHostWinners(byes, |ws|), ws), flips).Ok? ==>
              GenConferenceFirstRound(p, c, flips) == Err(Bracket(Brackets.MissingWinner(|ws| - byes + 1)))
  {
    assert GenConferenceFirstRound(p, c, flips) == FirstRoundAfterWildCard(p, c, ws, flips);
    AfterWildCardRefused(p, c, ws, byes, flips);
    if SeededWeek(p, c, SlotSeeds(Brackets.ByesHostWinners(byes, |ws|), ws), flips).Ok? {
      AfterWildCardMissesWinner(p, c, ws, byes, flips);
    }
  }

  /** Once the winners of the wild-card round are known, at most one bye
      with two winners to meet is refused. */
  lemma AfterWildCardRefused(p: SeasonPlayoffs, c: nat, ws: seq<nat>, byes: nat, flips: nat -> bool)
    requires Size(p, c) >= 2 && byes == Brackets.ConferenceByes(Size(p, c)).value
    requires byes <= 1 && |ws| >= byes + 2
    ensures FirstRoundAfterWildCard(p, c, ws, flips).Err?
  {
    Brackets.AsWrittenMissesWinner(byes, |ws|);
  }

  /** When the games of the byes are seated, that refusal names the winner
      at index `winners - byes + 1`. */
  lemma AfterWildCardMissesWinner(p: SeasonPlayoffs, c: nat, ws: seq<nat>, byes: nat, flips: nat -> bool)
    requires Size(p, c) >= 2 && byes == Brackets.ConferenceByes(Size(p, c)).value
    requires byes <= 1 && |ws| >= byes + 2
    requires SeededWeek(p, c, SlotSeeds(Brackets.ByesHostWinners(byes, |ws|), ws), flips).Ok?
    ensures FirstRoundAfterWildCard(p, c, ws, flips) == Err(Bracket(Brackets.MissingWinner(|ws| - byes + 1)))
  {
    Brackets.AsWrittenMissesWinner(byes, |ws|);
  }

  /** The games of the byes of a densely seeded conference whose short names
      fit can always be seated. */
  lemma ByeGamesSeated(p: SeasonPlayoffs, c: nat, ws: seq<nat>, byes: nat, flips: nat -> bool)
    requires c in p.teams.teams && PT.SeedsDense(p.teams.teams[c]) && NamesFit(p.teams, c)
    requires Size(p, c) >= 2 && forall j :: 0 <= j < |ws| ==> 1 <= ws[j] <= Size(p, c)
    requires byes == Brackets.ConferenceByes(Size(p, c)).value && byes <= |ws|
    ensures SeededWeek(p, c, SlotSeeds(Brackets.ByesHostWinners(byes, |ws|), ws), flips).Ok?
  {
    ByesWithinField(Size(p, c));
    SlotSeedsHeld(p, c, Brackets.ByesHostWinners(byes, |ws|), ws, byes);
  }

  /** With the fold corrected, the same conference always gets its first
      round, whatever the numbers of byes and winners. */
  lemma CorrectedFirstRoundBuilt(p: SeasonPlayoffs, c: nat, flips: nat -> bool)
    requires c in p.teams.teams && PT.SeedsDense(p.teams.teams[c]) && NamesFit(p.teams, c)
    requires Size(p, c) >= 2 && !Brackets.IsPowerOfTwo(Size(p, c)) && |Rounds(p, c)| == 1
    requires WinnerSeeds(p, Rounds(p, c)[0]).Ok?
    requires forall j :: 0 <= j < |WinnerSeeds(p, Rounds(p, c)[0]).value| ==>
               1 <= WinnerSeeds(p, Rounds(p, c)[0]).value[j] <= Size(p, c)
    ensures GenConferenceFirstRoundCorrected(p, c, flips).Ok?
  {
    var ws := WinnerSeeds(p, Rounds(p, c)[0]).value;
    CorrectedGamesSeated(p, c, ws, flips);
  }

  /** Every game of the corrected first round of such a conference can be
      seated. */
  lemma CorrectedGamesSeated(p: SeasonPlayoffs, c: nat, ws: seq<nat>, flips: nat -> bool)
    requires c in p.teams.teams && PT.SeedsDense(p.teams.teams[c]) && NamesFit(p.teams, c)
    requires Size(p, c) >= 2 && forall j :: 0 <= j < |ws| ==> 1 <= ws[j] <= Size(p, c)
    ensures SeededWeek(p, c, SlotSeeds(Brackets.FirstRoundSlots(Brackets.ConferenceByes(Size(p, c)).value, |ws|), ws), flips).Ok?
  {
    var byes := Brackets.ConferenceByes(Size(p, c)).value;
    ByesWithinField(Size(p, c));
    var slots := Brackets.FirstRoundSlots(byes, |ws|);
    Brackets.FirstRoundSlotsShape(byes, |ws|);
    if |ws| >= byes {
      Brackets.WideInField(slots, byes, |ws|);
    } else {
      Brackets.NarrowInField(slots, byes, |ws|);
    }
    SlotSeedsHeld(p, c, slots, ws, byes);
  }

  /** In a field entered through `add`, the first round of a power-of-two
      bracket that has not started is always built. */
  lemma PowerOfTwoFirstRoundBuilt(p: SeasonPlayoffs, c: nat, flips: nat -> bool)
    requires c in p.teams.teams && PT.SeedsDense(p.teams.teams[c]) && NamesFit(p.teams, c)
    requires Size(p, c) >= 2 && Brackets.IsPowerOfTwo(Size(p, c)) && !Playoffs.Started(p)
    ensures GenConferenceFirstRound(p, c, flips).Ok?
  {
    var n := Size(p, c);
    Brackets.PowerOfTwoFirstRoundCovers(n);
    var seeds := Brackets.PowerOfTwoFirstRound(n);
    forall i | 0 <= i < |seeds| ensures Held(p.teams, c, seeds[i]) {
      assert Brackets.Plays(seeds, i, seeds[i].0) && Brackets.Plays(seeds, i, seeds[i].1);
      PT.SeedLookup(p.teams, c, seeds[i].0);
      PT.SeedLookup(p.teams, c, seeds[i].1);
    }
  }

  /** The entrants of a later round: each winner keyed by its seed. */
  function SeedEntrants(seeds: seq<nat>): (r: seq<Brackets.Entrant>)
    ensures |r| == |seeds| && forall j :: 0 <= j < |seeds| ==> r[j] == Brackets.Entrant(seeds[j], seeds[j])
  {
    seq(|seeds|, j requires 0 <= j < |seeds| => Brackets.Entrant(seeds[j], seeds[j]))
  }

  /** `gen_next_conference_round`: with fewer than two teams it is refused;
      an empty bracket gets its wild-card round, or its first round for a
      power of two; a bracket holding only its wild-card round gets its first
      round; otherwise the winners of the last round are paired two by two,
      the lower seed at home, which needs at least two of them. */
  function GenNextConferenceRound(p: SeasonPlayoffs, c: nat, flips: nat -> bool): (r: Result<SeasonPlayoffs, PlayoffsError>)
    ensures Size(p, c) < 2 ==> r == Err(TooFewTeams(Size(p, c)))
    ensures Size(p, c) >= 2 && |Rounds(p, c)| == 0 ==>
              r == (if Brackets.IsPowerOfTwo(Size(p, c)) then GenConferenceFirstRound(p, c, flips)
                    else GenConferenceWildCardRound(p, c, flips))
    ensures Size(p, c) >= 2 && |Rounds(p, c)| == 1 && !Brackets.IsPowerOfTwo(Size(p, c)) ==>
              r == GenConferenceFirstRound(p, c, flips)
    ensures Size(p, c) >= 2 && (|Rounds(p, c)| >= 2 || (|Rounds(p, c)| == 1 && Brackets.IsPowerOfTwo(Size(p, c)))) ==>
              && (|LastRound(Rounds(p, c)).matchups| <= 1 ==> r.Err?)
              && (r.Ok? ==>
                    WinnerSeeds(p, LastRound(Rounds(p, c))).Ok? &&
                    var ws := WinnerSeeds(p, LastRound(Rounds(p, c))).value;
                    exists w :: SetsBracket(p, r.value, c, Rounds(p, c) + [w])
                                && SeatsSeeds(p.teams, c, Brackets.NextRound(SeedEntrants(ws)).value, w))
    ensures r.Ok? ==> r.value.teams == p.teams && r.value.winnersBracket == p.winnersBracket
    ensures r.Ok? && Registered(p) ==> Registered(r.value)
  {
    var n := Size(p, c);
    if n < 2 then Err(TooFewTeams(n))
    else
      var f := Brackets.NumFirstRoundTeams(n).value;
      FirstRoundIsWholeField(n);
      var rounds := Rounds(p, c);
      if |rounds| == 0 then
        if f != n then GenConferenceWildCardRound(p, c, flips) else GenConferenceFirstRound(p, c, flips)
      else if |rounds| == 1 && f != n then GenConferenceFirstRound(p, c, flips)
      else
        var ws :- WinnerSeeds(p, LastRound(rounds));
        var pairs :- if |ws| <= 1 then Err(TooFewWinners(|ws|)) else Ok(Brackets.NextRound(SeedEntrants(ws)).value);
        var w :- SeededWeek(p, c, pairs, flips);
        ExtendKeepsRegistered(p, c, w);
        Ok(p.(conferenceBrackets := p.conferenceBrackets[c := rounds + [w]]))
  }

  /** The first round takes the whole field exactly when the field is a
      power of two. */
  lemma FirstRoundIsWholeField(n: nat)
    requires n >= 2
    ensures Brackets.NumFirstRoundTeams(n).value == n <==> Brackets.IsPowerOfTwo(n)
  {
    var f := Brackets.NumFirstRoundTeams(n).value;
    if Brackets.IsPowerOfTwo(n) {
      Brackets.FirstRoundIsLargestPowerOfTwo(n, n);
    }
  }

  /** `gen_next_conference_rounds`: the next round of every conference of
      the field, in key order, stopping at the first refusal. Conference `c`
      draws its coin flips from `flips(c)`. */
  function GenNextConferenceRounds(p: SeasonPlayoffs, flips: nat -> nat -> bool): (r: Result<SeasonPlayoffs, PlayoffsError>)
    ensures r.Ok? ==> r.value.teams == p.teams && r.value.winnersBracket == p.winnersBracket
    ensures r.Ok? && Registered(p) ==> Registered(r.value)
  {
    NextRoundsFrom(p, Maps.Keys(p.teams.teams), flips)
  }

  function NextRoundsFrom(p: SeasonPlayoffs, cs: seq<nat>, flips: nat -> nat -> bool): (r: Result<SeasonPlayoffs, PlayoffsError>)
    ensures r.Ok? ==> r.value.teams == p.teams && r.value.winnersBracket == p.winnersBracket
    ensures r.Ok? && Registered(p) ==> Registered(r.value)
    ensures |cs| > 0 && GenNextConferenceRound(p, cs[0], flips(cs[0])).Err? ==> r == GenNextConferenceRound(p, cs[0], flips(cs[0]))
    decreases |cs|
  {
    if |cs| == 0 then Ok(p)
    else
      var q :- GenNextConferenceRound(p, cs[0], flips(cs[0]));
      NextRoundsFrom(q, cs[1..], flips)
  }

  // ----- the winners bracket -----

  /** The number of conferences, which is the winners bracket's field. */
  function Conferences(p: SeasonPlayoffs): nat {
    PT.NumConferences(p.teams)
  }

  /** The champions of the conferences with the given IDs, home first; a
      conference without a champion is an error. */
  function ChampionPairs(p: SeasonPlayoffs, conferences: seq<(nat, nat)>): (r: Result<seq<(nat, nat)>, PlayoffsError>)
    ensures r.Ok? <==> forall i :: 0 <= i < |conferences| ==>
              ConferenceChampion(p, conferences[i].0).Some? && ConferenceChampion(p, conferences[i].1).Some?
    ensures r.Ok? ==> |r.value| == |conferences| && forall i :: 0 <= i < |conferences| ==>
              r.value[i] == (ConferenceChampion(p, conferences[i].0).value, ConferenceChampion(p, conferences[i].1).value)
  {
    MapResult(conferences, (pr: (nat, nat)) => ChampionPair(p, pr))
  }

  function ChampionPair(p: SeasonPlayoffs, conferences: (nat, nat)): (r: Result<(nat, nat), PlayoffsError>)
    ensures r.Ok? <==> ConferenceChampion(p, conferences.0).Some? && ConferenceChampion(p, conferences.1).Some?
    ensures r.Ok? ==> r.value == (ConferenceChampion(p, conferences.0).value, ConferenceChampion(p, conferences.1).value)
  {
    var home :- ChampionOf(p, conferences.0);
    var away :- ChampionOf(p, conferences.1);
    Ok((home, away))
  }

  function ChampionOf(p: SeasonPlayoffs, c: nat): (r: Result<nat, PlayoffsError>)
    ensures r.Ok? <==> ConferenceChampion(p, c).Some?
    ensures r.Ok? ==> r.value == ConferenceChampion(p, c).value
  {
    match ConferenceChampion(p, c)
    case Some(id) => Ok(id)
    case None => Err(NoChampion(c))
  }

  /** `q` is `p` with the winners bracket replaced by `rounds`. */
  predicate SetsWinners(p: SeasonPlayoffs, q: SeasonPlayoffs, rounds: seq<Week>) {
    q == p.(winnersBracket := rounds)
  }

  /** The week's games are the given pairings of team IDs. */
  predicate Plays(w: Week, pairs: seq<(nat, nat)>) {
    |w.matchups| == |pairs| && forall i :: 0 <= i < |pairs| ==>
      w.matchups[i].home == pairs[i].0 && w.matchups[i].away == pairs[i].1 && !Complete(w.matchups[i])
  }

  /** Conferences `byes + i` and `C - (i + 1)` meet in the winners
      bracket's wild-card round; the first round of a power of two folds
      conferences `0..C-1`. The conference IDs are taken to be `0..C-1`. */
  function WinnersWildCardConferences(conferences: nat): (r: seq<(nat, nat)>)
    requires conferences >= 2
  {
    var byes := Brackets.WinnersBracketByes(conferences).value;
    var wc := Brackets.WildCardWinners(conferences).value;
    Brackets.Folded(byes, conferences - 1, wc / 2)
  }

  /** The winners bracket restarted from the week of the given pairings. */
  function RestartWinners(p: SeasonPlayoffs, pairs: seq<(nat, nat)>, flips: nat -> bool): (r: Result<SeasonPlayoffs, PlayoffsError>)
    ensures r.Ok? ==> exists w :: SetsWinners(p, r.value, [w]) && Plays(w, pairs)
    ensures r.Ok? && Registered(p) ==> Registered(r.value)
  {
    var w :- TeamsWeek(p, pairs, flips);
    RestartWinnersKeepsRegistered(p, w);
    Ok(p.(winnersBracket := [w]))
  }

  /** The winners bracket extended by the week of the given pairings. */
  function ExtendWinners(p: SeasonPlayoffs, pairs: seq<(nat, nat)>, flips: nat -> bool): (r: Result<SeasonPlayoffs, PlayoffsError>)
    ensures r.Ok? ==> exists w :: SetsWinners(p, r.value, p.winnersBracket + [w]) && Plays(w, pairs)
    ensures r.Ok? && Registered(p) ==> Registered(r.value)
  {
    var w :- TeamsWeek(p, pairs, flips);
    ExtendWinnersKeepsRegistered(p, w);
    Ok(p.(winnersBracket := p.winnersBracket + [w]))
  }

  /** The winners bracket restarted from the week in which the champions of
      the given pairs of conferences meet. */
  function ChampionsRound(p: SeasonPlayoffs, conferences: seq<(nat, nat)>, flips: nat -> bool)
    : (r: Result<SeasonPlayoffs, PlayoffsError>)
    ensures r.Ok? ==> ChampionPairs(p, conferences).Ok?
                      && exists w :: SetsWinners(p, r.value, [w]) && Plays(w, ChampionPairs(p, conferences).value)
    ensures r.Ok? && Registered(p) ==> Registered(r.value)
  {
    var pairs :- ChampionPairs(p, conferences);
    RestartWinners(p, pairs, flips)
  }

  /** The first round of a power of two of conferences folds conferences
      `0..C-1`: conference `i` meets conference `C - (i + 1)`. */
  function FoldedConferences(conferences: nat): (r: seq<(nat, nat)>)
    requires conferences >= 2
  {
    Brackets.Folded(0, conferences - 1, conferences / 2)
  }

  /** `gen_winners_wild_card_round`: needs two conferences or more and not a
      power of two, complete conference brackets and an unstarted winners
      bracket; the winners bracket restarts from a single round of the
      champions of the wild-card conferences. */
  function GenWinnersWildCardRound(p: SeasonPlayoffs, flips: nat -> bool): (r: Result<SeasonPlayoffs, PlayoffsError>)
    ensures Conferences(p) < 2 ==> r == Err(TooFewTeams(Conferences(p)))
    ensures Conferences(p) >= 2 && Brackets.IsPowerOfTwo(Conferences(p)) ==> r == Err(NoWildCardRound(Conferences(p)))
    ensures Conferences(p) >= 2 && !Brackets.IsPowerOfTwo(Conferences(p)) && !ConferenceBracketsComplete(p) ==>
              r == Err(ConferencesIncomplete)
    ensures (Conferences(p) >= 2 && !Brackets.IsPowerOfTwo(Conferences(p)) && ConferenceBracketsComplete(p)
             && WinnersBracketStarted(p)) ==> r == Err(AlreadyStarted)
    ensures r.Ok? ==> ChampionPairs(p, WinnersWildCardConferences(Conferences(p))).Ok?
                      && exists w :: SetsWinners(p, r.value, [w])
                                     && Plays(w, ChampionPairs(p, WinnersWildCardConferences(Conferences(p))).value)
    ensures r.Ok? && Registered(p) ==> Registered(r.value)
  {
    var n := Conferences(p);
    if n < 2 then Err(TooFewTeams(n))
    else if Brackets.IsPowerOfTwo(n) then Err(NoWildCardRound(n))
    else if !ConferenceBracketsComplete(p) then Err(ConferencesIncomplete)
    else if WinnersBracketStarted(p) then Err(AlreadyStarted)
    else
      ChampionsRound(p, WinnersWildCardConferences(n), flips)
  }

  /** The team a first-round slot of the winners bracket stands for: bye
      rank `k` is the champion of conference `k`, wild-card winner `j` is the
      `j`-th winner. */
  function SlotTeam(p: SeasonPlayoffs, s: Brackets.Slot, winners: seq<nat>): (r: Result<nat, PlayoffsError>)
    ensures s.Bye? ==> r == ChampionOf(p, s.rank)
    ensures s.Winner? && s.index < |winners| ==> r == Ok(winners[s.index])
  {
    match s
    case Bye(k) => ChampionOf(p, k)
    case Winner(j) => if j < |winners| then Ok(winners[j]) else Err(TooFewWinners(|winners|))
  }

  /** The conference a slot's team is looked up in again: bye rank `k`
      is conference `k`, a winner is in the first conference holding it. */
  function SlotConference(p: SeasonPlayoffs, s: Brackets.Slot, t: nat): (r: nat)
    requires s.Winner? ==> PT.Contains(p.teams, t)
    ensures s.Bye? ==> r == s.rank
    ensures s.Winner? ==> TeamConference(p, t) == Ok(r)
  {
    match s
    case Bye(k) => k
    case Winner(_) => TeamConference(p, t).value
  }

  /** The pairing of a first-round slot pair of the winners bracket: a bye
      hosts the winner it meets. Otherwise the lower seed is at home (the
      second team on equal seeds), and each side is the team found again by
      its seed in its conference, the lowest ID holding that seed. */
  function SlotPair(p: SeasonPlayoffs, a: Brackets.Slot, b: Brackets.Slot, winners: seq<nat>): (r: Result<(nat, nat), PlayoffsError>)
    ensures r.Ok? ==> SlotTeam(p, a, winners).Ok? && SlotTeam(p, b, winners).Ok?
    ensures r.Ok? && a.Bye? && b.Winner? ==> r.value == (SlotTeam(p, a, winners).value, SlotTeam(p, b, winners).value)
    ensures r.Ok? && !(a.Bye? && b.Winner?) ==>
              var t1 := SlotTeam(p, a, winners).value;
              var t2 := SlotTeam(p, b, winners).value;
              TeamSeed(p, t1).Ok? && TeamSeed(p, t2).Ok?
              && var s1 := TeamSeed(p, t1).value;
                 var s2 := TeamSeed(p, t2).value;
                 var c1 := SlotConference(p, a, t1);
                 var c2 := SlotConference(p, b, t2);
                 var home := if s1 < s2 then (c1, s1) else (c2, s2);
                 var away := if s1 < s2 then (c2, s2) else (c1, s1);
                 PT.GetBySeed(p.teams, home.0, home.1).Some? && PT.GetBySeed(p.teams, away.0, away.1).Some?
                 && r.value == (PT.GetBySeed(p.teams, home.0, home.1).value.0, PT.GetBySeed(p.teams, away.0, away.1).value.0)
  {
    var t1 :- SlotTeam(p, a, winners);
    var t2 :- SlotTeam(p, b, winners);
    if a.Bye? && b.Winner? then Ok((t1, t2))
    else
      var s1 :- TeamSeed(p, t1);
      var c1 := SlotConference(p, a, t1);
      var s2 :- TeamSeed(p, t2);
      var c2 := SlotConference(p, b, t2);
      var home := if s1 < s2 then (c1, s1) else (c2, s2);
      var away := if s1 < s2 then (c2, s2) else (c1, s1);
      var h :- LookupSeed(p.teams, home.0, home.1);
      var w :- LookupSeed(p.teams, away.0, away.1);
      Ok((h.0, w.0))
  }

  /** No two teams of a conference share a seed. */
  predicate SeedsUnique(t: PT.PlayoffTeams) {
    forall c, x, y :: c in t.teams && x in t.teams[c] && y in t.teams[c] && t.teams[c][x].seed == t.teams[c][y].seed ==> x == y
  }

  /** With seeds unique in every conference, looking two winners up again
      finds the winners themselves: the lower seed hosts the higher. */
  lemma WinnerPairFindsWinners(p: SeasonPlayoffs, i: nat, j: nat, winners: seq<nat>)
    requires SeedsUnique(p.teams)
    requires SlotPair(p, Brackets.Winner(i), Brackets.Winner(j), winners).Ok?
    ensures i < |winners| && j < |winners|
    ensures var t1 := winners[i];
            var t2 := winners[j];
            SlotPair(p, Brackets.Winner(i), Brackets.Winner(j), winners).value
              == if TeamSeed(p, t1).value < TeamSeed(p, t2).value then (t1, t2) else (t2, t1)
  {
    var t1 := winners[i];
    var t2 := winners[j];
    FoundAgain(p, t1);
    FoundAgain(p, t2);
  }

  /** A team's seed in its first conference finds it again there. */
  lemma FoundAgain(p: SeasonPlayoffs, t: nat)
    requires SeedsUnique(p.teams) && TeamSeed(p, t).Ok?
    ensures TeamConference(p, t).Ok?
    ensures var c := TeamConference(p, t).value;
            PT.GetBySeed(p.teams, c, TeamSeed(p, t).value) == Some((t, p.teams.teams[c][t]))
  {
    var c := PT.TeamConference(p.teams, t).value;
    assert PT.Get(p.teams, t) == Some(p.teams.teams[c][t]);
    var g := PT.GetBySeed(p.teams, c, TeamSeed(p, t).value);
    assert g.Some?;
  }

  function SlotPairs(p: SeasonPlayoffs, slots: seq<(Brackets.Slot, Brackets.Slot)>, winners: seq<nat>): (r: Result<seq<(nat, nat)>, PlayoffsError>)
    ensures r.Ok? ==> |r.value| == |slots| && forall i :: 0 <= i < |slots| ==>
              SlotPair(p, slots[i].0, slots[i].1, winners) == Ok(r.value[i])
  {
    MapResult(slots, (s: (Brackets.Slot, Brackets.Slot)) => SlotPair(p, s.0, s.1, winners))
  }

  /** `gen_winners_first_round`: needs two conferences or more and complete
      conference brackets. A power of two is refused once the winners bracket
      has started and otherwise restarts it with the champion of conference
      `i` hosting that of conference `C - (i + 1)`. Any other count needs the
      wild-card round, and only that, on the bracket; the byes and the
      winners then meet as `Brackets.FirstRoundSlots` pairs them. */
  function GenWinnersFirstRound(p: SeasonPlayoffs, flips: nat -> bool): (r: Result<SeasonPlayoffs, PlayoffsError>)
    ensures Conferences(p) < 2 ==> r == Err(TooFewTeams(Conferences(p)))
    ensures Conferences(p) >= 2 && !ConferenceBracketsComplete(p) ==> r == Err(ConferencesIncomplete)
    ensures (Conferences(p) >= 2 && ConferenceBracketsComplete(p) && Brackets.IsPowerOfTwo(Conferences(p))) ==>
              r == FoldedChampionsRound(p, flips)
    ensures (Conferences(p) >= 2 && ConferenceBracketsComplete(p) && !Brackets.IsPowerOfTwo(Conferences(p))) ==>
              r == AfterWildCardRound(p, flips)
    ensures r.Ok? && Registered(p) ==> Registered(r.value)
  {
    var n := Conferences(p);
    if n < 2 then Err(TooFewTeams(n))
    else if !ConferenceBracketsComplete(p) then Err(ConferencesIncomplete)
    else if Brackets.IsPowerOfTwo(n) then FoldedChampionsRound(p, flips)
    else AfterWildCardRound(p, flips)
  }

  /** The first round of a power of two of conferences: refused once the
      winners bracket has started, otherwise it restarts the bracket with the
      champion of conference `i` hosting that of conference `C - (i + 1)`. */
  function FoldedChampionsRound(p: SeasonPlayoffs, flips: nat -> bool): (r: Result<SeasonPlayoffs, PlayoffsError>)
    requires Conferences(p) >= 2
    ensures WinnersBracketStarted(p) ==> r == Err(AlreadyStarted)
    ensures r.Ok? ==> ChampionPairs(p, FoldedConferences(Conferences(p))).Ok?
                      && exists w :: SetsWinners(p, r.value, [w])
                                     && Plays(w, ChampionPairs(p, FoldedConferences(Conferences(p))).value)
    ensures r.Ok? && Registered(p) ==> Registered(r.value)
  {
    var n := Conferences(p);
    if WinnersBracketStarted(p) then Err(AlreadyStarted)
    else ChampionsRound(p, FoldedConferences(n), flips)
  }

  /** The first round after the winners bracket's wild-card round: needs
      that round and only that on the bracket; the byes and its winners then
      meet as `Brackets.FirstRoundSlots` pairs them. */
  function AfterWildCardRound(p: SeasonPlayoffs, flips: nat -> bool): (r: Result<SeasonPlayoffs, PlayoffsError>)
    requires Conferences(p) >= 2
    ensures |p.winnersBracket| > 1 ==> r == Err(TooManyRounds(|p.winnersBracket|))
    ensures |p.winnersBracket| == 0 ==> r == Err(NoPreviousRound)
    ensures r.Ok? ==>
              |p.winnersBracket| == 1
              && WinnerIds(p.winnersBracket[0]).Ok?
              && var ws := WinnerIds(p.winnersBracket[0]).value;
                 var slots := Brackets.FirstRoundSlots(Brackets.WinnersBracketByes(Conferences(p)).value, |ws|);
                 SlotPairs(p, slots, ws).Ok?
                 && exists w :: SetsWinners(p, r.value, p.winnersBracket + [w])
                                && Plays(w, SlotPairs(p, slots, ws).value)
    ensures r.Ok? && Registered(p) ==> Registered(r.value)
  {
    var rounds := p.winnersBracket;
    if |rounds| > 1 then Err(TooManyRounds(|rounds|))
    else if |rounds| == 0 then Err(NoPreviousRound)
    else
      var ws :- WinnerIds(rounds[0]);
      var byes := Brackets.WinnersBracketByes(Conferences(p)).value;
      var pairs :- SlotPairs(p, Brackets.FirstRoundSlots(byes, |ws|), ws);
      ExtendWinners(p, pairs, flips)
  }

  /** The entrants of a later winners-bracket round: each winner keyed by
      its ID, with the seed it was entered with. */
  function IdEntrants(ids: seq<nat>, seeds: seq<nat>): (r: seq<Brackets.Entrant>)
    requires |ids| == |seeds|
    ensures |r| == |ids| && forall j :: 0 <= j < |ids| ==> r[j] == Brackets.Entrant(ids[j], seeds[j])
  {
    seq(|ids|, j requires 0 <= j < |ids| => Brackets.Entrant(ids[j], seeds[j]))
  }

  /** `gen_next_winners_round`: needs two conferences or more and complete
      conference brackets; an empty winners bracket gets its wild-card round,
      or its first round for a power of two; one holding only its wild-card
      round gets its first round; otherwise the winners of the last round are
      paired two by two, the lower seed at home. */
  function GenNextWinnersRound(p: SeasonPlayoffs, flips: nat -> bool): (r: Result<SeasonPlayoffs, PlayoffsError>)
    ensures Conferences(p) < 2 ==> r == Err(TooFewTeams(Conferences(p)))
    ensures Conferences(p) >= 2 && !ConferenceBracketsComplete(p) ==> r == Err(ConferencesIncomplete)
    ensures Conferences(p) >= 2 && ConferenceBracketsComplete(p) && |p.winnersBracket| == 0 ==>
              r == (if Brackets.IsPowerOfTwo(Conferences(p)) then GenWinnersFirstRound(p, flips)
                    else GenWinnersWildCardRound(p, flips))
    ensures (Conferences(p) >= 2 && ConferenceBracketsComplete(p) && |p.winnersBracket| == 1
             && !Brackets.IsPowerOfTwo(Conferences(p))) ==> r == GenWinnersFirstRound(p, flips)
    ensures Conferences(p) >= 2 && ConferenceBracketsComplete(p)
            && (|p.winnersBracket| >= 2 || (|p.winnersBracket| == 1 && Brackets.IsPowerOfTwo(Conferences(p)))) ==>
              && (|LastRound(p.winnersBracket).matchups| <= 1 ==> r.Err?)
              && (r.Ok? ==>
                    WinnerIds(LastRound(p.winnersBracket)).Ok? &&
                    var ids := WinnerIds(LastRound(p.winnersBracket)).value;
                    SeedsOf(p, ids).Ok? &&
                    var seeds := SeedsOf(p, ids).value;
                    exists w :: SetsWinners(p, r.value, p.winnersBracket + [w])
                                && Plays(w, Brackets.NextRound(IdEntrants(ids, seeds)).value))
    ensures r.Ok? ==> r.value.teams == p.teams && r.value.conferenceBrackets == p.conferenceBrackets
    ensures r.Ok? && Registered(p) ==> Registered(r.value)
  {
    var n := Conferences(p);
    if n < 2 then Err(TooFewTeams(n))
    else if !ConferenceBracketsComplete(p) then Err(ConferencesIncomplete)
    else
      var f := Brackets.FirstRoundWinners(n).value;
      FirstRoundIsWholeField(n);
      var rounds := p.winnersBracket;
      if |rounds| == 0 then
        if f != n then GenWinnersWildCardRound(p, flips) else GenWinnersFirstRound(p, flips)
      else if |rounds| == 1 && f != n then GenWinnersFirstRound(p, flips)
      else
        var ids :- WinnerIds(LastRound(rounds));
        if |ids| <= 1 then Err(TooFewWinners(|ids|))
        else
          var seeds :- SeedsOf(p, ids);
          var pairs := Brackets.NextRound(IdEntrants(ids, seeds)).value;
          ExtendWinners(p, pairs, flips)
  }

  // ----- the next round of the playoffs -----

  /** `gen_next_playoff_round`: refused once the playoffs are complete; in a
      conference playoff whose conference brackets are complete, the next
      round of the winners bracket; otherwise the next round of every
      conference bracket. The field never changes. */
  function GenNextPlayoffRound(p: SeasonPlayoffs, flips: nat -> bool, conferenceFlips: nat -> nat -> bool)
    : (r: Result<SeasonPlayoffs, PlayoffsError>)
    ensures PlayoffsComplete(p) ==> r == Err(AlreadyComplete)
    ensures !PlayoffsComplete(p) && IsConferencePlayoff(p) && ConferenceBracketsComplete(p) ==>
              r == GenNextWinnersRound(p, flips)
    ensures !PlayoffsComplete(p) && !(IsConferencePlayoff(p) && ConferenceBracketsComplete(p)) ==>
              r == GenNextConferenceRounds(p, conferenceFlips)
    ensures r.Ok? ==> r.value.teams == p.teams
    ensures r.Ok? && Registered(p) ==> Registered(r.value)
  {
    if PlayoffsComplete(p) then Err(AlreadyComplete)
    else if IsConferencePlayoff(p) && ConferenceBracketsComplete(p) then GenNextWinnersRound(p, flips)
    else GenNextConferenceRounds(p, conferenceFlips)
  }
}
