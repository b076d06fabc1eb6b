/** The outcome of a field-goal or extra-point attempt
    (src/game/play/result/fieldgoal.rs). */
module FieldGoal {
  import opened Wrappers
  import opened PlayResult

  /** `FieldGoalResultRaw`, `FieldGoalResult` and `FieldGoalResultBuilder` share these fields. */
  datatype FieldGoalResult = FieldGoalResult(
    fieldGoalDistance: int,
    returnYards: int,
    playDuration: nat,
    made: bool,
    blocked: bool,
    touchdown: bool,
    extraPoint: bool)

  /** The rules a kick result obeys: a made kick is neither blocked nor
      returned for a score, only a blocked kick is returned, and the distances
      and duration are bounded. */
  predicate Valid(f: FieldGoalResult) {
    (f.made ==> !f.touchdown && !f.blocked)
    && (f.touchdown ==> f.blocked)
    && f.fieldGoalDistance <= 117 && f.playDuration <= 100 && Abs(f.returnYards) <= 100
    && (f.returnYards != 0 ==> f.blocked)
  }

  type ValidFieldGoalResult = f: FieldGoalResult | Valid(f) witness Default()

  /** The failures `FieldGoalResultRaw::validate` reports, in checking order. */
  datatype FieldGoalError =
    | MadeAndTouchdown
    | MadeAndBlocked
    | TouchdownWithoutBlock
    | DistanceOutOfRange(distance: int)
    | DurationOutOfRange(duration: nat)
    | ReturnYardsOutOfRange(yards: int)
    | ReturnYardsWithoutBlock(yards: int)

  function Message(e: FieldGoalError): string {
    match e
    case MadeAndTouchdown => "Field goal cannot both be made & TD scored"
    case MadeAndBlocked => "Field goal cannot both be made & blocked"
    case TouchdownWithoutBlock => "Field goal cannot result in TD if not blocked"
    case DistanceOutOfRange(d) => "Field goal distance is out of range [0, 117]: " + IntToString(d)
    case DurationOutOfRange(d) => "Play duration is out of range [0, 100]: " + NatToString(d)
    case ReturnYardsOutOfRange(y) => "Return yards is out of range [-100, 100]: " + IntToString(y)
    case ReturnYardsWithoutBlock(y) => "Field goal was not blocked but return yards are nonzero: " + IntToString(y)
  }

  /** `FieldGoalResultRaw::validate`: the outcome combinations are checked
      before the numeric bounds. */
  function Validate(f: FieldGoalResult): (r: Result<(), FieldGoalError>)
    ensures r.Ok? <==> Valid(f)
    ensures f.made && f.touchdown ==> r == Err(MadeAndTouchdown)
    ensures r.Err? && (r.error.DistanceOutOfRange? || r.error.DurationOutOfRange?) ==>
      (f.made ==> !f.touchdown && !f.blocked) && (f.touchdown ==> f.blocked)
  {
    if f.made && f.touchdown then Err(MadeAndTouchdown)
    else if f.made && f.blocked then Err(MadeAndBlocked)
    else if f.touchdown && !f.blocked then Err(TouchdownWithoutBlock)
    else if f.fieldGoalDistance > 117 then Err(DistanceOutOfRange(f.fieldGoalDistance))
    else if f.playDuration > 100 then Err(DurationOutOfRange(f.playDuration))
    else if Abs(f.returnYards) > 100 then Err(ReturnYardsOutOfRange(f.returnYards))
    else if !f.blocked && f.returnYards != 0 then Err(ReturnYardsWithoutBlock(f.returnYards))
    else Ok(())
  }

  /** `TryFrom<FieldGoalResultRaw>`, also `FieldGoalResultBuilder::build`. */
  function TryFrom(raw: FieldGoalResult): (r: Result<ValidFieldGoalResult, FieldGoalError>)
    ensures r.Ok? <==> Valid(raw)
    ensures r.Ok? ==> r.value == raw
    ensures r.Err? ==> r.error == Validate(raw).error
  {
    match Validate(raw)
    case Err(e) => Err(e)
    case Ok(_) => Ok(raw)
  }

  /** `FieldGoalResult::default` and the builder's initial state: a made
      17-yard extra point. */
  function Default(): FieldGoalResult {
    FieldGoalResult(17, 0, 0, true, false, false, true)
  }

  /** `missed`: neither made nor blocked. */
  function Missed(f: FieldGoalResult): (m: bool)
    ensures Valid(f) ==> (m <==> !f.made && !f.blocked && !f.touchdown && f.returnYards == 0)
  {
    !(f.made || f.blocked)
  }

  /** The `PlayResult` implementation. */
  function Effects(f: FieldGoalResult): (e: PlayEffects)
    // an extra point takes no time off the clock
    ensures e.playDuration == (if f.extraPoint then 0 else f.playDuration)
    ensures e.netYards == -f.returnYards
    // a field goal that is not made hands the ball over; a try never does
    ensures e.turnover <==> !f.extraPoint && (f.blocked || !f.made)
    ensures f.made ==> e.offenseScore == (if f.extraPoint then ExtraPoint else FieldGoal)
    ensures !f.made ==> e.offenseScore == NoScore
    ensures e.defenseScore != NoScore <==> f.blocked && f.touchdown
    ensures e.defenseScore != NoScore ==> e.defenseScore == (if f.extraPoint then TwoPointConversion else Touchdown)
    ensures e.nextPlayKickoff <==> f.extraPoint || f.made
    ensures e.nextPlayExtraPoint <==> !f.extraPoint && f.blocked && f.touchdown
    ensures !e.outOfBounds && !e.incomplete && !e.kickoff && !e.punt && !e.touchback
    ensures !e.offenseTimeout && !e.defenseTimeout
  {
    PlayEffects(
      playDuration := if f.extraPoint then 0 else f.playDuration,
      netYards := -f.returnYards,
      turnover := !f.extraPoint && (f.blocked || !f.made),
      offenseScore := if f.extraPoint && f.made then ExtraPoint else if f.made then FieldGoal else NoScore,
      defenseScore := if f.extraPoint && f.blocked && f.touchdown then TwoPointConversion
                      else if f.blocked && f.touchdown then Touchdown else NoScore,
      offenseTimeout := false,
      defenseTimeout := false,
      incomplete := false,
      outOfBounds := false,
      touchback := false,
      kickoff := false,
      punt := false,
      nextPlayKickoff := f.extraPoint || f.made,
      nextPlayExtraPoint := !f.extraPoint && f.blocked && f.touchdown)
  }

  /** On a valid kick exactly one of made, missed and blocked holds, at most
      one side scores, and the next play is never both a kickoff and a try. */
  lemma ValidEffects(f: FieldGoalResult)
    requires Valid(f)
    ensures (f.made && !Missed(f) && !f.blocked) || (!f.made && Missed(f) && !f.blocked) || (!f.made && !Missed(f) && f.blocked)
    ensures Effects(f).offenseScore == NoScore || Effects(f).defenseScore == NoScore
    ensures !(Effects(f).nextPlayKickoff && Effects(f).nextPlayExtraPoint)
    ensures Consistent(Effects(f))
  {
  }

  /** The default kick validates, builds unchanged and is a made extra point
      worth one point. */
  lemma DefaultBuilds()
    ensures TryFrom(Default()) == Ok(Default())
    ensures !Missed(Default()) && Points(Effects(Default()).offenseScore) == 1
  {
  }
}
