/** The outcome of a pass play (src/game/play/result/pass.rs). */
module Pass {
  import opened Wrappers
  import opened PlayResult

  /** `PassResultRaw`, `PassResult` and `PassResultBuilder` share these fields. */
  datatype PassResult = PassResult(
    playDuration: nat,
    sackYardsLost: int,
    scrambleYards: int,
    passDist: int,
    returnYards: int,
    yardsAfterCatch: int,
    pressure: bool,
    sack: bool,
    scramble: bool,
    interception: bool,
    complete: bool,
    fumble: bool,
    touchdown: bool,
    safety: bool,
    twoPointConversion: bool)

  /** The rules a pass result obeys, stated as what each field implies. */
  predicate Valid(p: PassResult) {
    // bounds
    p.playDuration <= 100
    && Abs(p.sackYardsLost) <= 100 && Abs(p.scrambleYards) <= 100 && Abs(p.passDist) <= 100
    && Abs(p.yardsAfterCatch) <= 100 && Abs(p.returnYards) <= 100
    // yardage only where the event happened
    && (p.sackYardsLost != 0 ==> p.sack)
    && (p.scrambleYards != 0 ==> p.scramble)
    && (p.sack || p.scramble ==> p.passDist == 0 && p.yardsAfterCatch == 0)
    && (p.returnYards != 0 ==> p.fumble || p.interception)
    // exclusive events
    && (p.sack ==> p.pressure && !p.scramble && !p.interception && !p.complete)
    && (p.scramble ==> !p.interception && !p.complete)
    && (p.interception ==> !p.fumble && !p.complete)
    && !(p.touchdown && p.safety)
  }

  type ValidPassResult = p: PassResult | Valid(p) witness Default()

  /** The failures `PassResultRaw::validate` reports, in the order it checks
      them; `Message` gives the source's text for each. */
  datatype PassError =
    | DurationOutOfRange(duration: nat)
    | SackYardsOutOfRange(yards: int)
    | SackYardsWithoutSack(yards: int)
    | ScrambleYardsOutOfRange(yards: int)
    | ScrambleYardsWithoutScramble(yards: int)
    | PassDistanceOutOfRange(yards: int)
    | PassDistanceWithoutPass(yards: int)
    | YardsAfterCatchOutOfRange(yards: int)
    | YardsAfterCatchWithoutPass(yards: int)
    | ReturnYardsOutOfRange(yards: int)
    | ReturnYardsWithoutTurnover(yards: int)
    | SackWithoutPressure
    | SackWithOtherOutcome(scramble: bool, interception: bool, complete: bool)
    | ScrambleWithOtherOutcome(interception: bool, complete: bool)
    | InterceptionWithOtherOutcome(fumble: bool, complete: bool)
    | TouchdownAndSafety

  function Message(e: PassError): string {
    match e
    case DurationOutOfRange(d) => "Play duration is not in range [0, 100]: " + NatToString(d)
    case SackYardsOutOfRange(y) => "Sack yards lost is not in range [-100, 100]: " + IntToString(y)
    case SackYardsWithoutSack(y) => "Sack did not occur but sack yards lost was nonzero: " + IntToString(y)
    case ScrambleYardsOutOfRange(y) => "Scramble yards is not in range [-100, 100]: " + IntToString(y)
    case ScrambleYardsWithoutScramble(y) => "QB did not scramble, but scramble yards were nonzero: " + IntToString(y)
    case PassDistanceOutOfRange(y) => "Pass distance is not in range [-100, 100]: " + IntToString(y)
    case PassDistanceWithoutPass(y) => "Pass did not occur but pass distance was nonzero: " + IntToString(y)
    case YardsAfterCatchOutOfRange(y) => "Yards after catch is not in range [-100, 100]: " + IntToString(y)
    case YardsAfterCatchWithoutPass(y) => "Pass did not occur but yards after catch was nonzero: " + IntToString(y)
    case ReturnYardsOutOfRange(y) => "Return yards is not in range [-100, 100]: " + IntToString(y)
    case ReturnYardsWithoutTurnover(y) => "Turnover did not occur but return yards were nonzero: " + IntToString(y)
    case SackWithoutPressure => "Cannot have a sack without a pressure"
    case SackWithOtherOutcome(s, i, c) =>
      "Cannot have both sack and scramble (" + BoolToString(s) + "), interception ("
      + BoolToString(i) + "), or completion (" + BoolToString(c) + ")"
    case ScrambleWithOtherOutcome(i, c) =>
      "Cannot have both scramble and interception (" + BoolToString(i) + ") or completion (" + BoolToString(c) + ")"
    case InterceptionWithOtherOutcome(f, c) =>
      "Cannot have both interception and fumble (" + BoolToString(f) + ") or completion (" + BoolToString(c) + ")"
    case TouchdownAndSafety => "Cannot have both a touchdown and a safety"
  }

  /** `PassResultRaw::validate`: a result passes exactly when it obeys the
      rules, and the bounds are checked before the event combinations. */
  function Validate(p: PassResult): (r: Result<(), PassError>)
    ensures r.Ok? <==> Valid(p)
    ensures p.playDuration > 100 ==> r == Err(DurationOutOfRange(p.playDuration))
    ensures r.Err? && r.error.SackWithoutPressure? ==> p.sack && !p.pressure
    ensures p.touchdown && p.safety ==> r.Err?
  {
    if p.playDuration > 100 then Err(DurationOutOfRange(p.playDuration))
    else if Abs(p.sackYardsLost) > 100 then Err(SackYardsOutOfRange(p.sackYardsLost))
    else if !p.sack && p.sackYardsLost != 0 then Err(SackYardsWithoutSack(p.sackYardsLost))
    else if Abs(p.scrambleYards) > 100 then Err(ScrambleYardsOutOfRange(p.scrambleYards))
    else if !p.scramble && p.scrambleYards != 0 then Err(ScrambleYardsWithoutScramble(p.scrambleYards))
    else if Abs(p.passDist) > 100 then Err(PassDistanceOutOfRange(p.passDist))
    else if (p.scramble || p.sack) && p.passDist != 0 then Err(PassDistanceWithoutPass(p.passDist))
    else if Abs(p.yardsAfterCatch) > 100 then Err(YardsAfterCatchOutOfRange(p.yardsAfterCatch))
    else if (p.scramble || p.sack) && p.yardsAfterCatch != 0 then Err(YardsAfterCatchWithoutPass(p.yardsAfterCatch))
    else if Abs(p.returnYards) > 100 then Err(ReturnYardsOutOfRange(p.returnYards))
    else if !(p.fumble || p.interception) && p.returnYards != 0 then Err(ReturnYardsWithoutTurnover(p.returnYards))
    else if p.sack && !p.pressure then Err(SackWithoutPressure)
    else if p.sack && (p.scramble || p.interception || p.complete) then
      Err(SackWithOtherOutcome(p.scramble, p.interception, p.complete))
    else if p.scramble && (p.interception || p.complete) then
      Err(ScrambleWithOtherOutcome(p.interception, p.complete))
    else if p.interception && (p.fumble || p.complete) then
      Err(InterceptionWithOtherOutcome(p.fumble, p.complete))
    else if p.touchdown && p.safety then Err(TouchdownAndSafety)
    else Ok(())
  }

  /** `TryFrom<PassResultRaw>`, also `PassResultBuilder::build`. */
  function TryFrom(raw: PassResult): (r: Result<ValidPassResult, PassError>)
    ensures r.Ok? <==> Valid(raw)
    ensures r.Ok? ==> r.value == raw
    ensures r.Err? ==> r.error == Validate(raw).error
  {
    match Validate(raw)
    case Err(e) => Err(e)
    case Ok(_) => Ok(raw)
  }

  /** `PassResult::default` and the builder's initial state: every field zero
      or false. */
  function Default(): PassResult {
    PassResult(0, 0, 0, 0, 0, 0, false, false, false, false, false, false, false, false, false)
  }

  /** `net_yards`: the air yards and the yards after the catch on a
      completion, the scramble otherwise, less return and sack yardage. */
  function NetYards(p: PassResult): int {
    if p.complete then p.passDist + p.yardsAfterCatch - (p.returnYards + p.sackYardsLost)
    else p.scrambleYards - (p.returnYards + p.sackYardsLost)
  }

  /** The `PlayResult` implementation. */
  function Effects(p: PassResult): (e: PlayEffects)
    // yardage: completed passes gain the pass and the run after the catch,
    // anything else gains only a scramble; returns and sacks are lost
    ensures p.complete ==> e.netYards == p.passDist + p.yardsAfterCatch - p.returnYards - p.sackYardsLost
    ensures !p.complete ==> e.netYards == p.scrambleYards - p.returnYards - p.sackYardsLost
    ensures e.turnover <==> p.fumble || p.interception
    // a touchdown belongs to whoever holds the ball at the end
    ensures e.offenseScore != NoScore <==> p.touchdown && !e.turnover
    ensures e.offenseScore in {NoScore, Touchdown, TwoPointConversion}
    ensures e.defenseScore == Safety <==> p.safety && !(p.touchdown && e.turnover)
    ensures e.defenseScore in {Touchdown, TwoPointConversion} <==> p.touchdown && e.turnover
    ensures (e.offenseScore == TwoPointConversion || e.defenseScore == TwoPointConversion) ==> p.twoPointConversion
    ensures e.incomplete <==> !(p.complete || p.sack || p.scramble)
    ensures e.nextPlayKickoff <==> p.safety || p.twoPointConversion
    ensures e.nextPlayExtraPoint <==> p.touchdown && !p.twoPointConversion
    // the queries a pass never overrides
    ensures e.playDuration == p.playDuration
    ensures !e.offenseTimeout && !e.defenseTimeout && !e.outOfBounds && !e.touchback && !e.kickoff && !e.punt
  {
    var turnover := p.fumble || p.interception;
    PlayEffects(
      playDuration := p.playDuration,
      netYards := NetYards(p),
      turnover := turnover,
      offenseScore := if p.touchdown && !turnover then (if p.twoPointConversion then TwoPointConversion else Touchdown)
                      else NoScore,
      defenseScore := if p.touchdown && turnover then (if p.twoPointConversion then TwoPointConversion else Touchdown)
                      else if p.safety then Safety else NoScore,
      offenseTimeout := false,
      defenseTimeout := false,
      incomplete := !(p.complete || p.sack || p.scramble),
      outOfBounds := false,
      touchback := false,
      kickoff := false,
      punt := false,
      nextPlayKickoff := p.safety || p.twoPointConversion,
      nextPlayExtraPoint := p.touchdown && !p.twoPointConversion)
  }

  /** On a valid result at most one side scores, the follow-up is never both a
      kickoff and an extra-point try, and the net yardage stays within the
      bounds the validator sets (three fields of at most 100 each). */
  lemma ValidEffects(p: PassResult)
    requires Valid(p)
    ensures Effects(p).offenseScore == NoScore || Effects(p).defenseScore == NoScore
    ensures !(Effects(p).nextPlayKickoff && Effects(p).nextPlayExtraPoint)
    ensures Consistent(Effects(p))
    ensures -300 <= Effects(p).netYards <= 300
  {
  }

  /** The default result validates and builds unchanged, and the doc example
      (a pressured sack losing 10 yards) builds. */
  lemma DefaultBuilds()
    ensures TryFrom(Default()) == Ok(Default())
    ensures TryFrom(Default().(pressure := true, sack := true, sackYardsLost := 10)).Ok?
  {
  }
}
