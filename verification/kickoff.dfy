/** The outcome of a kickoff (src/game/play/result/kickoff.rs). The kicking
    team is the offense, so a return means a change of possession and a
    fumble on the return gives the ball back to the kicking team. */
module Kickoff {
  import opened Wrappers
  import opened PlayResult

  /** `KickoffResultRaw`, `KickoffResult` and `KickoffResultBuilder` share these fields. */
  datatype KickoffResult = KickoffResult(
    kickoffYards: int,
    kickReturnYards: int,
    playDuration: nat,
    fumbleReturnYards: int,
    touchback: bool,
    outOfBounds: bool,
    fairCatch: bool,
    fumble: bool,
    touchdown: bool)

  /** The rules a kickoff result obeys: upper bounds only (the source has no
      lower bounds on the signed yardages), at most one of touchback,
      out-of-bounds and fair catch, and none of them with a touchdown. */
  predicate Valid(k: KickoffResult) {
    k.kickoffYards <= 100 && k.kickReturnYards <= 110 && k.playDuration <= 100 && k.fumbleReturnYards <= 100
    && (k.touchback ==> !k.outOfBounds && !k.fairCatch)
    && (k.outOfBounds ==> !k.fairCatch)
    && (k.touchdown ==> !k.touchback && !k.outOfBounds && !k.fairCatch)
  }

  type ValidKickoffResult = k: KickoffResult | Valid(k) witness Default()

  /** The failures `KickoffResultRaw::validate` reports, in checking order. */
  datatype KickoffError =
    | KickoffYardsOutOfRange(yards: int)
    | KickReturnYardsOutOfRange(yards: int)
    | DurationOutOfRange(duration: nat)
    | FumbleReturnYardsOutOfRange(yards: int)
    | EndingsNotExclusive(touchback: bool, outOfBounds: bool, fairCatch: bool)
    | TouchdownWithEnding(touchback: bool, outOfBounds: bool, fairCatch: bool)

  /** The source's text for each failure, including its "Fubmle" spelling. */
  function Message(e: KickoffError): string {
    match e
    case KickoffYardsOutOfRange(y) => "Kickoff yards is not in range [0, 100]: " + IntToString(y)
    case KickReturnYardsOutOfRange(y) => "Kick return yards is not in range [0, 110]: " + IntToString(y)
    case DurationOutOfRange(d) => "Play duration is not in range [0, 100]: " + NatToString(d)
    case FumbleReturnYardsOutOfRange(y) => "Fubmle return yards is not in range [0, 100]: " + IntToString(y)
    case EndingsNotExclusive(t, o, f) =>
      "Must have at most one true across touchback (" + BoolToString(t) + "), out of bounds ("
      + BoolToString(o) + "), and fair catch (" + BoolToString(f) + ")"
    case TouchdownWithEnding(t, o, f) =>
      "Cannot both score a touchdown and touchback (" + BoolToString(t) + "), out of bounds ("
      + BoolToString(o) + "), or fair catch (" + BoolToString(f) + ")"
  }

  /** `KickoffResultRaw::validate`. */
  function Validate(k: KickoffResult): (r: Result<(), KickoffError>)
    ensures r.Ok? <==> Valid(k)
    ensures k.kickoffYards > 100 ==> r == Err(KickoffYardsOutOfRange(k.kickoffYards))
    ensures r.Err? && r.error.TouchdownWithEnding? ==> k.touchdown
  {
    if k.kickoffYards > 100 then Err(KickoffYardsOutOfRange(k.kickoffYards))
    else if k.kickReturnYards > 110 then Err(KickReturnYardsOutOfRange(k.kickReturnYards))
    else if k.playDuration > 100 then Err(DurationOutOfRange(k.playDuration))
    else if k.fumbleReturnYards > 100 then Err(FumbleReturnYardsOutOfRange(k.fumbleReturnYards))
    else if (k.outOfBounds && (k.fairCatch || k.touchback)) || (k.fairCatch && k.touchback) then
      Err(EndingsNotExclusive(k.touchback, k.outOfBounds, k.fairCatch))
    else if k.touchdown && (k.touchback || k.outOfBounds || k.fairCatch) then
      Err(TouchdownWithEnding(k.touchback, k.outOfBounds, k.fairCatch))
    else Ok(())
  }

  /** `TryFrom<KickoffResultRaw>`, also `KickoffResultBuilder::build`. */
  function TryFrom(raw: KickoffResult): (r: Result<ValidKickoffResult, KickoffError>)
    ensures r.Ok? <==> Valid(raw)
    ensures r.Ok? ==> r.value == raw
    ensures r.Err? ==> r.error == Validate(raw).error
  {
    match Validate(raw)
    case Err(e) => Err(e)
    case Ok(_) => Ok(raw)
  }

  /** `KickoffResult::default` and the builder's initial state: a 65-yard
      kick for a touchback. */
  function Default(): KickoffResult {
    KickoffResult(65, 0, 0, 0, true, false, false, false, false)
  }

  /** The `PlayResult` implementation. */
  function Effects(k: KickoffResult): (e: PlayEffects)
    ensures e.netYards == k.kickoffYards - k.kickReturnYards + k.fumbleReturnYards
    // possession changes unless the receiving team fumbles it back
    ensures e.turnover <==> !k.fumble
    ensures e.offenseScore == (if k.touchdown && k.fumble then Touchdown else NoScore)
    ensures e.defenseScore == (if k.touchdown && !k.fumble then Touchdown else NoScore)
    ensures e.outOfBounds == k.outOfBounds && e.touchback == k.touchback
    ensures e.kickoff && !e.nextPlayKickoff
    ensures e.nextPlayExtraPoint <==> k.touchdown
    ensures e.playDuration == k.playDuration
    ensures !e.incomplete && !e.punt && !e.offenseTimeout && !e.defenseTimeout
  {
    PlayEffects(
      playDuration := k.playDuration,
      netYards := k.kickoffYards - k.kickReturnYards + k.fumbleReturnYards,
      turnover := !k.fumble,
      offenseScore := if k.touchdown && k.fumble then Touchdown else NoScore,
      defenseScore := if k.touchdown && !k.fumble then Touchdown else NoScore,
      offenseTimeout := false,
      defenseTimeout := false,
      incomplete := false,
      outOfBounds := k.outOfBounds,
      touchback := k.touchback,
      kickoff := true,
      punt := false,
      nextPlayKickoff := false,
      nextPlayExtraPoint := k.touchdown)
  }

  /** A kickoff never lets both sides score, a scoring kickoff is always
      followed by a try, and its flags are consistent whether or not the
      result is valid. */
  lemma EffectsScoreOnce(k: KickoffResult)
    ensures Effects(k).offenseScore == NoScore || Effects(k).defenseScore == NoScore
    ensures Points(Effects(k).offenseScore) + Points(Effects(k).defenseScore) > 0 <==> Effects(k).nextPlayExtraPoint
    ensures Consistent(Effects(k))
  {
  }

  /** The default kickoff validates and builds unchanged. */
  lemma DefaultBuilds()
    ensures TryFrom(Default()) == Ok(Default())
    ensures Effects(Default()).netYards == 65 && Effects(Default()).touchback
  {
  }
}
