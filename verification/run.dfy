/** The outcome of a run play (src/game/play/result/run.rs); a quarterback
    kneel is a run as well. */
module Run {
  import opened Wrappers
  import opened PlayResult

  /** `RunResultRaw`, `RunResult` and `RunResultBuilder` share these fields. */
  datatype RunResult = RunResult(
    yardsGained: int,
    playDuration: nat,
    fumble: bool,
    returnYards: int,
    outOfBounds: bool,
    touchdown: bool,
    safety: bool,
    twoPointConversion: bool)

  /** The rules a run result obeys. */
  predicate Valid(r: RunResult) {
    r.playDuration <= 100 && Abs(r.yardsGained) <= 100 && Abs(r.returnYards) <= 100
    && (r.returnYards != 0 ==> r.fumble)
    && !(r.fumble && r.safety)
    && (r.outOfBounds ==> !r.touchdown && !r.safety)
    && !(r.touchdown && r.safety)
  }

  type ValidRunResult = r: RunResult | Valid(r) witness Default()

  /** The failures `RunResultRaw::validate` reports, in checking order. */
  datatype RunError =
    | DurationOutOfRange(duration: nat)
    | YardsGainedOutOfRange(yards: int)
    | ReturnYardsOutOfRange(yards: int)
    | ReturnYardsWithoutFumble(yards: int)
    | FumbleAndSafety
    | OutOfBoundsAndScore(touchdown: bool, safety: bool)
    | TouchdownAndSafety

  function Message(e: RunError): string {
    match e
    case DurationOutOfRange(d) => "Play duration is not in range [0, 100]: " + NatToString(d)
    case YardsGainedOutOfRange(y) => "Yards gained is not in range [-100, 100]: " + IntToString(y)
    case ReturnYardsOutOfRange(y) => "Return yards is not in range [-100, 100]: " + IntToString(y)
    case ReturnYardsWithoutFumble(y) => "Fumble did not occur but return yards were nonzero: " + IntToString(y)
    case FumbleAndSafety => "Cannot have both a fumble and a safety"
    case OutOfBoundsAndScore(t, s) =>
      "Cannot have both a rush out of bounds and a touchdown (" + BoolToString(t) + ") or safety (" + BoolToString(s) + ")"
    case TouchdownAndSafety => "Cannot have both a touchdown and a safety"
  }

  /** `RunResultRaw::validate`. */
  function Validate(r: RunResult): (v: Result<(), RunError>)
    ensures v.Ok? <==> Valid(r)
    ensures r.playDuration > 100 ==> v == Err(DurationOutOfRange(r.playDuration))
    ensures v == Err(TouchdownAndSafety) ==> r.touchdown && r.safety && !r.fumble && !r.outOfBounds
  {
    if r.playDuration > 100 then Err(DurationOutOfRange(r.playDuration))
    else if Abs(r.yardsGained) > 100 then Err(YardsGainedOutOfRange(r.yardsGained))
    else if Abs(r.returnYards) > 100 then Err(ReturnYardsOutOfRange(r.returnYards))
    else if !r.fumble && r.returnYards != 0 then Err(ReturnYardsWithoutFumble(r.returnYards))
    else if r.fumble && r.safety then Err(FumbleAndSafety)
    else if r.outOfBounds && (r.touchdown || r.safety) then Err(OutOfBoundsAndScore(r.touchdown, r.safety))
    else if r.touchdown && r.safety then Err(TouchdownAndSafety)
    else Ok(())
  }

  /** `TryFrom<RunResultRaw>`, also `RunResultBuilder::build`. */
  function TryFrom(raw: RunResult): (v: Result<ValidRunResult, RunError>)
    ensures v.Ok? <==> Valid(raw)
    ensures v.Ok? ==> v.value == raw
    ensures v.Err? ==> v.error == Validate(raw).error
  {
    match Validate(raw)
    case Err(e) => Err(e)
    case Ok(_) => Ok(raw)
  }

  /** `RunResult::default` and the builder's initial state. */
  function Default(): RunResult {
    RunResult(0, 0, false, 0, false, false, false, false)
  }

  /** `net_yards`: the gain less what was returned after a fumble. */
  function NetYards(r: RunResult): int {
    r.yardsGained - r.returnYards
  }

  /** The `PlayResult` implementation. Its `out_of_bounds` is the trait's
      default, so a run that ends out of bounds still reports `false` here;
      only the inherent getter returns the stored flag. */
  function Effects(r: RunResult): (e: PlayEffects)
    ensures e.netYards == r.yardsGained - r.returnYards
    ensures e.turnover <==> r.fumble
    ensures e.offenseScore != NoScore <==> r.touchdown && !r.fumble
    ensures e.offenseScore in {NoScore, Touchdown, TwoPointConversion}
    ensures e.defenseScore in {Touchdown, TwoPointConversion} <==> r.touchdown && r.fumble
    ensures e.defenseScore == Safety <==> r.safety && !(r.touchdown && r.fumble)
    ensures e.nextPlayKickoff <==> r.safety || r.twoPointConversion
    ensures e.nextPlayExtraPoint <==> r.touchdown && !r.twoPointConversion
    ensures e.playDuration == r.playDuration
    ensures !e.outOfBounds && !e.incomplete && !e.kickoff && !e.punt && !e.touchback
    ensures !e.offenseTimeout && !e.defenseTimeout
  {
    PlayEffects(
      playDuration := r.playDuration,
      netYards := NetYards(r),
      turnover := r.fumble,
      offenseScore := if r.touchdown && !r.fumble then (if r.twoPointConversion then TwoPointConversion else Touchdown)
                      else NoScore,
      defenseScore := if r.touchdown && r.fumble then (if r.twoPointConversion then TwoPointConversion else Touchdown)
                      else if r.safety then Safety else NoScore,
      offenseTimeout := false,
      defenseTimeout := false,
      incomplete := false,
      outOfBounds := false,
      touchback := false,
      kickoff := false,
      punt := false,
      nextPlayKickoff := r.safety || r.twoPointConversion,
      nextPlayExtraPoint := r.touchdown && !r.twoPointConversion)
  }

  /** On a valid run at most one side scores, the follow-up is never both a
      kickoff and a try, and the net gain lies in [-200, 200]. */
  lemma ValidEffects(r: RunResult)
    requires Valid(r)
    ensures Effects(r).offenseScore == NoScore || Effects(r).defenseScore == NoScore
    ensures !(Effects(r).nextPlayKickoff && Effects(r).nextPlayExtraPoint)
    ensures Consistent(Effects(r))
    ensures -200 <= Effects(r).netYards <= 200
  {
  }

  /** A valid run that ended out of bounds still reports no out-of-bounds to
      the game state. */
  lemma OutOfBoundsIsHidden()
    ensures Valid(Default().(outOfBounds := true))
    ensures !Effects(Default().(outOfBounds := true)).outOfBounds
  {
  }

  /** The default run validates and builds unchanged. */
  lemma DefaultBuilds()
    ensures TryFrom(Default()) == Ok(Default())
  {
  }
}
