/** The arithmetic and pairing rules of playoff brackets
    (src/league/season/playoffs.rs): how many of a field's teams play in the
    first full round, how many play a wild-card round and how many sit it out
    with a bye, and which entrants meet in each round. A bracket is either a
    conference bracket, whose entrants are seeds, or the winners bracket,
    whose entrants are the conference champions. */
module Brackets {
  import opened Wrappers

  datatype BracketError =
    | TooFewTeams(count: nat)
    | NoConferences
    | CalculationFailed
    | MissingWinner(index: nat)
    | TooFewWinners(count: nat)

  /** `usize::is_power_of_two`. */
  predicate IsPowerOfTwo(n: nat)
    decreases n
  {
    n == 1 || (n >= 2 && n % 2 == 0 && IsPowerOfTwo(n / 2))
  }

  /** Between two distinct powers of two lies a factor of at least two. */
  lemma {:induction false} PowersOfTwoSpread(a: nat, b: nat)
    requires IsPowerOfTwo(a) && IsPowerOfTwo(b) && a < b
    ensures 2 * a <= b
    decreases a
  {
    if a != 1 {
      PowersOfTwoSpread(a / 2, b / 2);
    }
  }

  /** `next_power_of_two`: the smallest power of two not below `n`. */
  function NextPowerOfTwo(n: nat): (p: nat)
    ensures IsPowerOfTwo(p) && n <= p
    ensures p == 1 || p / 2 < n
  {
    NextPowerFrom(n, 1)
  }

  function NextPowerFrom(n: nat, p: nat): (r: nat)
    requires IsPowerOfTwo(p) && (p == 1 || p / 2 < n)
    ensures IsPowerOfTwo(r) && n <= r
    ensures r == 1 || r / 2 < n
    decreases n - p
  {
    if p >= n then p else NextPowerFrom(n, 2 * p)
  }

  /** `num_first_round_teams`: the number of a field's teams that play in
      the first full round, the next power of two halved unless the field is
      itself a power of two. */
  function NumFirstRoundTeams(n: nat): (r: Result<nat, BracketError>)
    ensures r.Err? <==> n < 2
    ensures r.Err? ==> r.error == TooFewTeams(n)
    ensures r.Ok? ==> IsPowerOfTwo(r.value) && r.value <= n < 2 * r.value
  {
    if n < 2 then Err(TooFewTeams(n))
    else
      var p := NextPowerOfTwo(n);
      if p == n then Ok(n) else Ok(p / 2)
  }

  /** The first round holds the largest power of two not above the field:
      no other power of two fits `f <= n < 2f`. */
  lemma FirstRoundIsLargestPowerOfTwo(n: nat, f: nat)
    requires IsPowerOfTwo(f) && f <= n
    requires NumFirstRoundTeams(n).Ok?
    ensures f <= NumFirstRoundTeams(n).value
    ensures n < 2 * f ==> f == NumFirstRoundTeams(n).value
  {
    var g := NumFirstRoundTeams(n).value;
    if g < f {
      PowersOfTwoSpread(g, f);
    }
    if f < g {
      PowersOfTwoSpread(f, g);
    }
  }

  /** The documented values: three teams give a first round of two, and
      powers of two play in full. */
  lemma FirstRoundExamples()
    ensures NumFirstRoundTeams(3) == Ok(2)
    ensures NumFirstRoundTeams(8) == Ok(8)
    ensures NumFirstRoundTeams(13) == Ok(8)
    ensures NumFirstRoundTeams(1) == Err(TooFewTeams(1))
  {
    assert NextPowerOfTwo(3) == 4 by {
      assert NextPowerFrom(3, 1) == NextPowerFrom(3, 2) == NextPowerFrom(3, 4);
    }
    assert NextPowerOfTwo(8) == 8 by {
      assert NextPowerFrom(8, 1) == NextPowerFrom(8, 2) == NextPowerFrom(8, 4) == NextPowerFrom(8, 8);
    }
    assert NextPowerOfTwo(13) == 16 by {
      assert NextPowerFrom(13, 1) == NextPowerFrom(13, 2) == NextPowerFrom(13, 4)
             == NextPowerFrom(13, 8) == NextPowerFrom(13, 16);
    }
  }

  /** `num_wild_card_teams`: twice the teams above the first-round size; a
      lone conference champion with no first round has none. */
  function NumWildCardTeams(n: nat, firstRound: nat): (r: Result<nat, BracketError>)
    ensures r.Err? <==> !(n == 1 && firstRound == 0) && n < firstRound
    ensures r.Ok? && !(n == 1 && firstRound == 0) ==> r.value == 2 * (n - firstRound)
  {
    if n == 1 && firstRound == 0 then Ok(0)
    else if n < firstRound then Err(CalculationFailed)
    else Ok(2 * (n - firstRound))
  }

  /** `num_bye_teams`: what is left of the field once the wild-card teams are
      taken out, in checked unsigned arithmetic. */
  function NumByeTeams(n: nat, firstRound: nat): (r: Result<nat, BracketError>)
    ensures r.Err? <==> !(n == 0 && firstRound == 1) && (n < firstRound || n < 2 * (n - firstRound))
    ensures r.Ok? && !(n == 0 && firstRound == 1) ==> r.value + 2 * (n - firstRound) == n
  {
    if n == 0 && firstRound == 1 then Ok(0)
    else if n < firstRound then Err(CalculationFailed)
    else
      var k := n - firstRound;
      if n < 2 * k then Err(CalculationFailed) else Ok(n - 2 * k)
  }

  /** `first_round_teams`, `wild_cards` and `byes` of a conference bracket
      with `n` teams. */
  function ConferenceWildCards(n: nat): (r: Result<nat, BracketError>)
    ensures r.Err? <==> n < 2
  {
    var f :- NumFirstRoundTeams(n);
    NumWildCardTeams(n, f)
  }

  function ConferenceByes(n: nat): (r: Result<nat, BracketError>)
    ensures r.Err? <==> n < 2
  {
    var f :- NumFirstRoundTeams(n);
    NumByeTeams(n, f)
  }

  /** With `f` first-round teams, a field of `n >= 2` sends `2(n - f)` teams
      to the wild-card round and gives the other `2f - n` a bye: together
      the whole field, and the byes plus the wild-card winners fill the first
      round exactly. */
  lemma ByesAndWildCards(n: nat)
    requires n >= 2
    ensures var f := NumFirstRoundTeams(n).value;
            && ConferenceWildCards(n) == Ok(2 * (n - f))
            && ConferenceByes(n) == Ok(2 * f - n)
            && ConferenceWildCards(n).value + ConferenceByes(n).value == n
            && ConferenceByes(n).value + ConferenceWildCards(n).value / 2 == f
  {
  }

  /** The documented three-team bracket: two wild cards and one bye. */
  lemma ThreeTeamBracket()
    ensures ConferenceWildCards(3) == Ok(2) && ConferenceByes(3) == Ok(1)
  {
    FirstRoundExamples();
  }

  /** `first_round_winners`: the first round of the winners bracket, which
      has a bracket only with two or more conferences. */
  function FirstRoundWinners(conferences: nat): (r: Result<nat, BracketError>)
    ensures r.Err? <==> conferences == 0
    ensures conferences == 1 ==> r == Ok(0)
    ensures conferences >= 2 ==> r == NumFirstRoundTeams(conferences)
  {
    if conferences == 0 then Err(NoConferences)
    else if conferences == 1 then Ok(0)
    else NumFirstRoundTeams(conferences)
  }

  /** `wild_card_winners`. */
  function WildCardWinners(conferences: nat): (r: Result<nat, BracketError>)
    ensures r.Err? <==> conferences == 0
    ensures conferences == 1 ==> r == Ok(0)
  {
    var f :- FirstRoundWinners(conferences);
    NumWildCardTeams(conferences, f)
  }

  /** `winners_bracket_byes`. */
  function WinnersBracketByes(conferences: nat): (r: Result<nat, BracketError>)
    ensures conferences >= 2 ==> r.Ok? && r.value + WildCardWinners(conferences).value == conferences
  {
    var f :- FirstRoundWinners(conferences);
    NumByeTeams(conferences, f)
  }

  /** The documented three-conference winners bracket: a first round of two,
      two wild-card teams and one bye. */
  lemma ThreeConferenceWinnersBracket()
    ensures FirstRoundWinners(3) == Ok(2)
    ensures WildCardWinners(3) == Ok(2)
    ensures WinnersBracketByes(3) == Ok(1)
  {
    FirstRoundExamples();
  }

  /** With a single conference the wild-card count takes its special case
      `(1, 0)`, but the bye count's special case reads `(0, 1)`, so it
      computes `1 - 2` and fails. */
  lemma SingleConferenceByesFail()
    ensures WildCardWinners(1) == Ok(0)
    ensures WinnersBracketByes(1) == Err(CalculationFailed)
  {
  }

  /** `num_bye_teams` with the special case the wild-card count has. */
  function NumByeTeamsCorrected(n: nat, firstRound: nat): (r: Result<nat, BracketError>)
    ensures r.Err? <==> !(n == 1 && firstRound == 0) && (n < firstRound || n < 2 * (n - firstRound))
    ensures r.Ok? && !(n == 1 && firstRound == 0) ==> r.value + 2 * (n - firstRound) == n
    ensures n == 1 && firstRound == 0 ==> r == Ok(0)
  {
    if n == 1 && firstRound == 0 then Ok(0)
    else if n < firstRound then Err(CalculationFailed)
    else
      var k := n - firstRound;
      if n < 2 * k then Err(CalculationFailed) else Ok(n - 2 * k)
  }

  function WinnersBracketByesCorrected(conferences: nat): (r: Result<nat, BracketError>)
  {
    var f :- FirstRoundWinners(conferences);
    NumByeTeamsCorrected(conferences, f)
  }

  /** Corrected, the winners-bracket byes and wild cards are defined for every
      non-empty set of conferences and always add up to it. */
  lemma WinnersBracketByesCorrectedTotal(conferences: nat)
    ensures WinnersBracketByesCorrected(conferences).Ok? <==> conferences >= 1
    ensures conferences == 1 ==> WinnersBracketByesCorrected(conferences) == Ok(0)
    ensures conferences >= 2 ==>
      WinnersBracketByesCorrected(conferences).value + WildCardWinners(conferences).value == conferences
  {
  }

  /** Entrants `lo, ..., hi` folded onto each other: the `i`-th pairing puts
      `lo + i` at home against `hi - i`. The full first round of a
      power-of-two bracket folds seeds `1..n`, the wild-card round folds the
      seeds after the byes. */
  function Folded(lo: nat, hi: nat, count: nat): (r: seq<(nat, nat)>)
    requires count <= hi + 1
    ensures |r| == count
    ensures forall i :: 0 <= i < count ==> r[i].0 == lo + i && r[i].1 == hi - i
  {
    seq(count, i requires 0 <= i < count => (lo + i, hi - i))
  }

  /** The entrant `s` plays in the `i`-th pairing. */
  predicate Plays<T(==)>(pairs: seq<(T, T)>, i: nat, s: T)
    requires i < |pairs|
  {
    pairs[i].0 == s || pairs[i].1 == s
  }

  /** The entrant `s` has a game. */
  predicate Scheduled<T(==,!new)>(pairs: seq<(T, T)>, s: T) {
    exists i :: 0 <= i < |pairs| && Plays(pairs, i, s)
  }

  /** No entrant has two games. */
  ghost predicate AtMostOnce<T(!new)>(pairs: seq<(T, T)>) {
    forall i, j, s :: 0 <= i < |pairs| && 0 <= j < |pairs| && i != j && Plays(pairs, i, s) ==> !Plays(pairs, j, s)
  }

  /** Folding an even range of entrants pairs each of them exactly once, the
      better (lower) one at home, and nobody outside the range. */
  lemma FoldedCoversRange(lo: nat, hi: nat, count: nat)
    requires lo >= 1 && hi + 1 == lo + 2 * count
    ensures forall i :: 0 <= i < count ==> Folded(lo, hi, count)[i].0 < Folded(lo, hi, count)[i].1
    ensures forall s :: lo <= s <= hi ==> Scheduled(Folded(lo, hi, count), s)
    ensures AtMostOnce(Folded(lo, hi, count))
    ensures forall i, s :: 0 <= i < count && Plays(Folded(lo, hi, count), i, s) ==> lo <= s <= hi
  {
    var r := Folded(lo, hi, count);
    forall s | lo <= s <= hi ensures Scheduled(r, s) {
      if s < lo + count {
        assert Plays(r, s - lo, s);
      } else {
        assert Plays(r, hi - s, s);
      }
    }
    forall i, j, s | 0 <= i < count && 0 <= j < count && i != j && Plays(r, i, s)
      ensures !Plays(r, j, s)
    {
      assert r[i] == (lo + i, hi - i) && r[j] == (lo + j, hi - j);
    }
  }

  /** `gen_conference_first_round` on a power-of-two field of `n` teams:
      seed `i + 1` hosts seed `n - i`. */
  function PowerOfTwoFirstRound(n: nat): (r: seq<(nat, nat)>)
    ensures |r| == n / 2
  {
    Folded(1, n, n / 2)
  }

  /** The full first round gives every seed one game, the best seed against
      the worst, and the better seed at home. */
  lemma PowerOfTwoFirstRoundCovers(n: nat)
    requires IsPowerOfTwo(n) && n >= 2
    ensures var r := PowerOfTwoFirstRound(n);
            && (forall i :: 0 <= i < |r| ==> r[i].0 < r[i].1 && r[i].0 + r[i].1 == n + 1)
            && (forall s :: 1 <= s <= n ==> Scheduled(r, s))
            && AtMostOnce(r)
  {
    assert n % 2 == 0;
    FoldedCoversRange(1, n, n / 2);
  }

  /** `gen_conference_wild_card_round` on a field of `n` teams: the seeds
      after the byes are folded. */
  function WildCardRound(n: nat): (r: Result<seq<(nat, nat)>, BracketError>)
    ensures r.Err? <==> n < 2
  {
    if n < 2 then Err(TooFewTeams(n))
    else
      ByesAndWildCards(n);
      Ok(Folded(ConferenceByes(n).value + 1, n, ConferenceWildCards(n).value / 2))
  }

  /** The wild-card round gives each non-bye seed exactly one game and leaves
      the bye seeds out. */
  lemma WildCardRoundCovers(n: nat)
    requires n >= 2
    ensures var r := WildCardRound(n).value;
            var byes := ConferenceByes(n).value;
            && (forall s :: byes < s <= n ==> Scheduled(r, s))
            && (forall i, s :: 0 <= i < |r| && Plays(r, i, s) ==> byes < s <= n)
            && AtMostOnce(r)
  {
    ByesAndWildCards(n);
    var byes := ConferenceByes(n).value;
    var wildCards := ConferenceWildCards(n).value;
    FoldedCoversRange(byes + 1, n, wildCards / 2);
  }

  /** An entrant of the first round after a wild-card round: the team with
      the given bye rank (0 for the best), or the winner of the wild-card
      matchup with the given index. */
  datatype Slot = Bye(rank: nat) | Winner(index: nat)

  /** The slot is one of the first round's entrants. */
  predicate InField(s: Slot, byes: nat, winners: nat) {
    match s
    case Bye(r) => r < byes
    case Winner(j) => j < winners
  }

  /** The first round after the wild-card round, as the winners bracket
      builds it: the best byes host the winners in reverse order; the
      winners left over meet each other folded, or, with more byes than
      winners, the byes left over meet each other folded. */
  function FirstRoundSlots(byes: nat, winners: nat): (r: seq<(Slot, Slot)>)
  {
    if winners >= byes then
      var diff := winners - byes;
      seq(byes, i requires 0 <= i < byes => (Bye(i), Winner(winners - (i + 1))))
      + seq(diff / 2, i requires 0 <= i < diff / 2 => (Winner(i), Winner(diff - (i + 1))))
    else
      var diff := byes - winners;
      seq(winners, i requires 0 <= i < winners => (Bye(i), Winner(winners - (i + 1))))
      + seq(diff / 2, i requires 0 <= i < diff / 2 => (Bye(winners + i), Bye(byes - (i + 1))))
  }

  /** The first round holds the pairings it is built from: with at least as
      many winners as byes, the byes against the last winners, then the
      first `diff` winners folded. */
  predicate WideShape(r: seq<(Slot, Slot)>, byes: nat, winners: nat)
    requires winners >= byes
  {
    && |r| == byes + (winners - byes) / 2
    && (forall i :: 0 <= i < byes ==> r[i] == (Bye(i), Winner(winners - 1 - i)))
    && (forall i :: byes <= i < |r| ==> r[i] == (Winner(i - byes), Winner(winners - byes - 1 - (i - byes))))
  }

  /** With more byes than winners: every winner against a bye, then the
      remaining byes folded. */
  predicate NarrowShape(r: seq<(Slot, Slot)>, byes: nat, winners: nat)
    requires winners < byes
  {
    && |r| == winners + (byes - winners) / 2
    && (forall i :: 0 <= i < winners ==> r[i] == (Bye(i), Winner(winners - 1 - i)))
    && (forall i :: winners <= i < |r| ==> r[i] == (Bye(i), Bye(byes - 1 - (i - winners))))
  }

  lemma FirstRoundSlotsShape(byes: nat, winners: nat)
    ensures winners >= byes ==> WideShape(FirstRoundSlots(byes, winners), byes, winners)
    ensures winners < byes ==> NarrowShape(FirstRoundSlots(byes, winners), byes, winners)
  {
    if winners >= byes {
      WideSlots(byes, winners);
    } else {
      NarrowSlots(byes, winners);
    }
  }

  lemma WideSlots(byes: nat, winners: nat)
    requires winners >= byes
    ensures WideShape(FirstRoundSlots(byes, winners), byes, winners)
  {
    var r := FirstRoundSlots(byes, winners);
    var diff := winners - byes;
    var a := seq(byes, i requires 0 <= i < byes => (Bye(i), Winner(winners - (i + 1))));
    var b := seq(diff / 2, i requires 0 <= i < diff / 2 => (Winner(i), Winner(diff - (i + 1))));
    assert r == a + b;
    forall i | byes <= i < |r| ensures r[i] == (Winner(i - byes), Winner(winners - byes - 1 - (i - byes))) {
      assert r[i] == b[i - byes];
    }
  }

  lemma NarrowSlots(byes: nat, winners: nat)
    requires winners < byes
    ensures NarrowShape(FirstRoundSlots(byes, winners), byes, winners)
  {
    var r := FirstRoundSlots(byes, winners);
    var diff := byes - winners;
    var a := seq(winners, i requires 0 <= i < winners => (Bye(i), Winner(winners - (i + 1))));
    var b := seq(diff / 2, i requires 0 <= i < diff / 2 => (Bye(winners + i), Bye(byes - (i + 1))));
    assert r == a + b;
    forall i | winners <= i < |r| ensures r[i] == (Bye(i), Bye(byes - 1 - (i - winners))) {
      assert r[i] == b[i - winners];
    }
  }

  /** Each pairing is of two different entrants of the field. */
  predicate PairsInField(r: seq<(Slot, Slot)>, byes: nat, winners: nat) {
    forall i :: 0 <= i < |r| ==> r[i].0 != r[i].1 && InField(r[i].0, byes, winners) && InField(r[i].1, byes, winners)
  }

  /** Every entrant of the field has a game. */
  ghost predicate SchedulesField(r: seq<(Slot, Slot)>, byes: nat, winners: nat) {
    forall s :: InField(s, byes, winners) ==> Scheduled(r, s)
  }

  lemma WideInField(r: seq<(Slot, Slot)>, byes: nat, winners: nat)
    requires winners >= byes && WideShape(r, byes, winners)
    ensures PairsInField(r, byes, winners)
  {
    forall i | 0 <= i < |r|
      ensures r[i].0 != r[i].1 && InField(r[i].0, byes, winners) && InField(r[i].1, byes, winners)
    {
      if i >= byes {
        assert r[i] == (Winner(i - byes), Winner(winners - byes - 1 - (i - byes)));
      }
    }
  }

  lemma WideSchedules(r: seq<(Slot, Slot)>, byes: nat, winners: nat)
    requires winners >= byes && (winners - byes) % 2 == 0
    requires WideShape(r, byes, winners)
    ensures SchedulesField(r, byes, winners)
  {
    var diff := winners - byes;
    forall s | InField(s, byes, winners) ensures Scheduled(r, s) {
      match s
      case Bye(k) => assert Plays(r, k, s);
      case Winner(j) =>
        if j >= diff {
          assert Plays(r, winners - 1 - j, s);
        } else if j < diff / 2 {
          assert r[byes + j] == (Winner(j), Winner(diff - 1 - j));
          assert Plays(r, byes + j, s);
        } else {
          var i := byes + (diff - 1 - j);
          assert r[i] == (Winner(diff - 1 - j), Winner(j));
          assert Plays(r, i, s);
        }
    }
  }

  lemma WideOnce(r: seq<(Slot, Slot)>, byes: nat, winners: nat)
    requires winners >= byes && WideShape(r, byes, winners)
    ensures AtMostOnce(r)
  {
    var diff := winners - byes;
    forall i, j, s | 0 <= i < |r| && 0 <= j < |r| && i != j && Plays(r, i, s) ensures !Plays(r, j, s) {
      if i < byes && j < byes {
      } else if i < byes {
        assert r[j] == (Winner(j - byes), Winner(diff - 1 - (j - byes)));
      } else if j < byes {
        assert r[i] == (Winner(i - byes), Winner(diff - 1 - (i - byes)));
      } else {
        assert r[i] == (Winner(i - byes), Winner(diff - 1 - (i - byes)));
        assert r[j] == (Winner(j - byes), Winner(diff - 1 - (j - byes)));
      }
    }
  }

  lemma NarrowInField(r: seq<(Slot, Slot)>, byes: nat, winners: nat)
    requires winners < byes && NarrowShape(r, byes, winners)
    ensures PairsInField(r, byes, winners)
  {
    forall i | 0 <= i < |r|
      ensures r[i].0 != r[i].1 && InField(r[i].0, byes, winners) && InField(r[i].1, byes, winners)
    {
      if i >= winners {
        assert r[i] == (Bye(i), Bye(byes - 1 - (i - winners)));
      }
    }
  }

  lemma NarrowSchedules(r: seq<(Slot, Slot)>, byes: nat, winners: nat)
    requires winners < byes && (byes - winners) % 2 == 0
    requires NarrowShape(r, byes, winners)
    ensures SchedulesField(r, byes, winners)
  {
    var diff := byes - winners;
    forall s | InField(s, byes, winners) ensures Scheduled(r, s) {
      match s
      case Winner(j) => assert Plays(r, winners - 1 - j, s);
      case Bye(k) =>
        if k < winners {
          assert Plays(r, k, s);
        } else if k - winners < diff / 2 {
          assert r[k] == (Bye(k), Bye(byes - 1 - (k - winners)));
          assert Plays(r, k, s);
        } else {
          var i := winners + (byes - 1 - k);
          assert r[i] == (Bye(i), Bye(k));
          assert Plays(r, i, s);
        }
    }
  }

  lemma NarrowOnce(r: seq<(Slot, Slot)>, byes: nat, winners: nat)
    requires winners < byes && NarrowShape(r, byes, winners)
    ensures AtMostOnce(r)
  {
    forall i, j, s | 0 <= i < |r| && 0 <= j < |r| && i != j && Plays(r, i, s) ensures !Plays(r, j, s) {
      if i < winners && j < winners {
      } else if i < winners {
        assert r[j] == (Bye(j), Bye(byes - 1 - (j - winners)));
      } else if j < winners {
        assert r[i] == (Bye(i), Bye(byes - 1 - (i - winners)));
      } else {
        assert r[i] == (Bye(i), Bye(byes - 1 - (i - winners)));
        assert r[j] == (Bye(j), Bye(byes - 1 - (j - winners)));
      }
    }
  }

  /** With an even number of entrants, the first round pairs every bye and
      every wild-card winner exactly once, and nobody else. */
  lemma FirstRoundSlotsCover(byes: nat, winners: nat)
    requires (byes + winners) % 2 == 0
    ensures |FirstRoundSlots(byes, winners)| == (byes + winners) / 2
    ensures PairsInField(FirstRoundSlots(byes, winners), byes, winners)
    ensures SchedulesField(FirstRoundSlots(byes, winners), byes, winners)
    ensures AtMostOnce(FirstRoundSlots(byes, winners))
  {
    var r := FirstRoundSlots(byes, winners);
    FirstRoundSlotsShape(byes, winners);
    if winners >= byes {
      WideInField(r, byes, winners);
      WideSchedules(r, byes, winners);
      WideOnce(r, byes, winners);
    } else {
      NarrowInField(r, byes, winners);
      NarrowSchedules(r, byes, winners);
      NarrowOnce(r, byes, winners);
    }
  }

  /** The byes hosting the winners in reverse order: bye `i` meets the
      winner at index `winners - (i + 1)`. */
  function ByesHostWinners(k: nat, winners: nat): (r: seq<(Slot, Slot)>)
    requires k <= winners
    ensures |r| == k && forall i :: 0 <= i < k ==> r[i] == (Bye(i), Winner(winners - (i + 1)))
  {
    seq(k, i requires 0 <= i < k => (Bye(i), Winner(winners - (i + 1))))
  }

  /** `gen_conference_first_round` after a wild-card round, as written: the
      winner meeting the `i`-th one is looked up at index `diff - i + 1`, where
      the winners bracket uses `diff - (i + 1)`. An index past the end is the
      error the lookup reports; since the first index asked for is the
      largest, the lookup fails at once or never, and it fails exactly when
      there is at most one bye and two winners meet. */
  function ConferenceFirstRoundSlotsAsWritten(byes: nat, winners: nat): (r: Result<seq<(Slot, Slot)>, BracketError>)
    ensures winners < byes ==> r == Ok(FirstRoundSlots(byes, winners))
    ensures winners >= byes ==> (r.Err? <==> byes <= 1 && winners >= byes + 2)
    ensures r.Err? ==> r.error == MissingWinner(winners - byes + 1)
    ensures winners >= byes && r.Ok? ==>
              && |r.value| == byes + (winners - byes) / 2
              && (forall i :: 0 <= i < byes ==> r.value[i] == (Bye(i), Winner(winners - (i + 1))))
              && (forall i :: byes <= i < |r.value| ==>
                    r.value[i] == (Winner(i - byes), Winner(winners - byes - (i - byes) + 1)))
  {
    if winners >= byes then
      var rest :- FoldWinnersAsWritten(winners - byes, winners, 0);
      Ok(ByesHostWinners(byes, winners) + rest)
    else
      Ok(FirstRoundSlots(byes, winners))
  }

  /** The pairings among winners from the `i`-th on, each looked up in a list
      of `winners` entries. */
  function FoldWinnersAsWritten(diff: nat, winners: nat, i: nat): (r: Result<seq<(Slot, Slot)>, BracketError>)
    ensures r.Err? <==> i < diff / 2 && diff - i + 1 >= winners
    ensures r.Err? ==> r.error == MissingWinner(diff - i + 1)
    ensures r.Ok? ==> |r.value| == (if i < diff / 2 then diff / 2 - i else 0)
    ensures r.Ok? ==> forall k :: 0 <= k < |r.value| ==> r.value[k] == (Winner(i + k), Winner(diff - (i + k) + 1))
    decreases diff / 2 - i
  {
    if i >= diff / 2 then Ok([])
    else
      var index := diff - i + 1;
      if index >= winners then Err(MissingWinner(index))
      else
        match FoldWinnersAsWritten(diff, winners, i + 1)
        case Ok(rest) => Ok([(Winner(i), Winner(index))] + rest)
        case Err(e) => Err(e)
  }

  /** With at most one bye and at least two winners beyond the byes, the
      written lookup fails at index `winners - byes + 1`. */
  lemma AsWrittenMissesWinner(byes: nat, winners: nat)
    requires byes <= 1 && winners >= byes + 2
    ensures ConferenceFirstRoundSlotsAsWritten(byes, winners) == Err(MissingWinner(winners - byes + 1))
  {
    assert (winners - byes) / 2 >= 1;
  }

  /** The written lookup and the winners bracket's fold give the same round
      exactly when no two winners meet each other. */
  lemma AsWrittenAgreesIff(byes: nat, winners: nat)
    ensures ConferenceFirstRoundSlotsAsWritten(byes, winners) == Ok(FirstRoundSlots(byes, winners))
            <==> winners < byes || (winners - byes) / 2 == 0
  {
    var r := ConferenceFirstRoundSlotsAsWritten(byes, winners);
    if winners >= byes {
      WideSlots(byes, winners);
      var t := FirstRoundSlots(byes, winners);
      if (winners - byes) / 2 == 0 {
        assert r.Ok?;
        assert r.value == t;
      } else if r.Ok? {
        assert r.value[byes] == (Winner(0), Winner(winners - byes + 1));
        assert t[byes] == (Winner(0), Winner(winners - byes - 1));
      }
    }
  }

  /** Seven teams: four in the first round, one bye, three wild-card winners.
      The lone winner-against-winner pairing looks for the winner at index
      3 of 3 and the round fails. */
  lemma SevenTeamFirstRoundFails()
    ensures ConferenceByes(7) == Ok(1) && ConferenceWildCards(7) == Ok(6)
    ensures ConferenceFirstRoundSlotsAsWritten(1, 3) == Err(MissingWinner(3))
    ensures |FirstRoundSlots(1, 3)| == 2
  {
    assert NumFirstRoundTeams(7) == Ok(4) by {
      assert NextPowerFrom(7, 1) == NextPowerFrom(7, 2) == NextPowerFrom(7, 4) == NextPowerFrom(7, 8);
    }
  }

  /** Thirteen teams: eight in the first round, three byes, five wild-card
      winners. The written index pairs winner 0 with winner 3, who already
      meets the second seed, and winner 1 gets no game. */
  lemma ThirteenTeamFirstRoundMisses()
    ensures ConferenceByes(13) == Ok(3) && ConferenceWildCards(13) == Ok(10)
    ensures ConferenceFirstRoundSlotsAsWritten(3, 5)
            == Ok([(Bye(0), Winner(4)), (Bye(1), Winner(3)), (Bye(2), Winner(2)), (Winner(0), Winner(3))])
    ensures FirstRoundSlots(3, 5)
            == [(Bye(0), Winner(4)), (Bye(1), Winner(3)), (Bye(2), Winner(2)), (Winner(0), Winner(1))]
  {
    FirstRoundExamples();
    ThirteenTeamFold();
    var fixed := seq(3, i requires 0 <= i < 3 => (Bye(i), Winner(5 - (i + 1))));
    assert fixed == [(Bye(0), Winner(4)), (Bye(1), Winner(3)), (Bye(2), Winner(2))];
    assert fixed + [(Winner(0), Winner(3))]
        == [(Bye(0), Winner(4)), (Bye(1), Winner(3)), (Bye(2), Winner(2)), (Winner(0), Winner(3))];
    var folded := seq(1, i requires 0 <= i < 1 => (Winner(i), Winner(2 - (i + 1))));
    assert folded == [(Winner(0), Winner(1))];
  }

  lemma ThirteenTeamFold()
    ensures FoldWinnersAsWritten(2, 5, 0) == Ok([(Winner(0), Winner(3))])
  {
    var tail := FoldWinnersAsWritten(2, 5, 1);
    assert tail == Ok([]);
    assert [(Winner(0), Winner(3))] + tail.value == [(Winner(0), Winner(3))];
  }

  /** An entrant of a later round: its key (a seed in a conference bracket, a
      team ID in the winners bracket) and the seed that decides home field. */
  datatype Entrant = Entrant(key: nat, seed: nat)

  /** `gen_next_conference_round` and `gen_next_winners_round` once the first
      round is played: the winners of matchups `2i` and `2i + 1` meet, the
      lower seed at home (the second on equal seeds). */
  function NextRound(winners: seq<Entrant>): (r: Result<seq<(nat, nat)>, BracketError>)
    ensures r.Err? <==> |winners| <= 1
    ensures r.Ok? ==> |r.value| == |winners| / 2
    ensures r.Ok? ==> forall i :: 0 <= i < |r.value| ==>
              var a := winners[2 * i];
              var b := winners[2 * i + 1];
              (r.value[i] == (a.key, b.key) && a.seed < b.seed)
              || (r.value[i] == (b.key, a.key) && b.seed <= a.seed)
  {
    if |winners| <= 1 then Err(TooFewWinners(|winners|))
    else
      Ok(seq(|winners| / 2, i requires 0 <= i < |winners| / 2 =>
        var a := winners[2 * i];
        var b := winners[2 * i + 1];
        if a.seed < b.seed then (a.key, b.key) else (b.key, a.key)))
  }

  /** A later round halves the field: it holds every winner of the previous
      round exactly once when that round had an even number of matchups. */
  lemma NextRoundHalves(winners: seq<Entrant>)
    requires |winners| >= 2 && |winners| % 2 == 0
    ensures var r := NextRound(winners).value;
            && |r| * 2 == |winners|
            && forall k :: 0 <= k < |winners| ==> Plays(r, k / 2, winners[k].key)
  {
    var r := NextRound(winners).value;
    forall k | 0 <= k < |winners| ensures Plays(r, k / 2, winners[k].key) {
      assert k == 2 * (k / 2) || k == 2 * (k / 2) + 1;
    }
  }
}
