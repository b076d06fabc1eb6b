/** Whether `next_context` (src/game/context.rs:1434-1494) can rely on its
    final `unwrap`: two inputs on which it cannot, and a corrected transition
    that always yields a valid context. */
module Transitions {
  import opened Wrappers
  import opened PlayResult
  import opened Context
  import Run

  /** A first-and-ten at the opponent's 10 (home has the ball at yard line
      10, driving toward yard line 0): the goal line is 10 yards away. */
  function BackedUp(): GameContext {
    Default().(nextPlayKickoff := false, down := 1, distance := 10, yardLine := 10,
               homePositiveDirection := false)
  }

  /** A valid run that loses 95 yards without a safety being recorded. */
  function LongLoss(): Run.RunResult {
    Run.RunResult(-95, 5, false, 0, false, false, false, false)
  }

  /** As written, the spot is clamped at the goal line (yard line 100) but the
      distance is not, so the assembled record asks for 105 yards with only 100
      to go, fails validation, and `next_context` panics. */
  lemma LongLossPanics()
    ensures Valid(BackedUp()) && Run.Valid(LongLoss())
    ensures NextRaw(BackedUp(), Run.Effects(LongLoss())).yardLine == 100
    ensures NextRaw(BackedUp(), Run.Effects(LongLoss())).distance == 105
    ensures NextContext(BackedUp(), Run.Effects(LongLoss())) == Err(DistanceBeyondGoalLine(105, 100))
  {
  }

  /** First quarter with exactly 900 seconds left, first-and-ten at the
      opponent's 20. */
  function QuarterBoundary(): GameContext {
    Default().(nextPlayKickoff := false, halfSeconds := 900, down := 1, distance := 10, yardLine := 20,
               homePositiveDirection := false)
  }

  /** A valid five-second touchdown run. */
  function QuickTouchdown(): Run.RunResult {
    Run.RunResult(20, 5, false, 0, false, true, false, false)
  }

  /** As written, a touchdown keeps the quarter (its try is pending) while
      `next_half_seconds` caps the clock at 900 only when more than 900 seconds
      were left, so the first quarter ends up with 895 seconds, below its
      900-second floor, and `next_context` panics. */
  lemma QuarterBoundaryPanics()
    ensures Valid(QuarterBoundary()) && Run.Valid(QuickTouchdown())
    ensures NextRaw(QuarterBoundary(), Run.Effects(QuickTouchdown())).quarter == 1
    ensures NextRaw(QuarterBoundary(), Run.Effects(QuickTouchdown())).halfSeconds == 895
    ensures NextContext(QuarterBoundary(), Run.Effects(QuickTouchdown())) == Err(TooFewSecondsForQuarter(1, 895))
  {
  }

  /** `next_half_seconds` with the end-of-quarter cap tested as `next_quarter`
      tests it (at least 900 seconds left before the play). */
  function NextHalfSecondsCorrected(c: GameContext, o: UpdateOptions): (r: nat)
    ensures (c.quarter == 1 || c.quarter == 3) && c.halfSeconds >= 900 && Clock(c, o) <= 900 ==> r == 900
    ensures c.halfSeconds != 900 ==> r == NextHalfSeconds(c, o)
  {
    if (c.quarter == 1 || c.quarter == 3) && c.halfSeconds >= 900 && Clock(c, o) <= 900 then 900
    else NextHalfSeconds(c, o)
  }

  /** `next_context` with both corrections: the clock cap above, and the
      distance limited to the yards left to the goal line ("and goal"). */
  function NextRawCorrected(c: GameContext, e: PlayEffects): (r: GameContext)
    ensures r.distance <= NextRaw(c, e).distance
    ensures r.distance <= YardsToTouchdown(r)
  {
    CapDistance(NextRaw(c, e).(halfSeconds := NextHalfSecondsCorrected(c, OptionsFrom(e))))
  }

  /** The corrected transition, validated as the program does. */
  function NextContextCorrected(c: ValidContext, e: PlayEffects): (r: Result<ValidContext, ContextError>)
    ensures r.Ok? <==> Valid(NextRawCorrected(c, e))
    ensures r.Ok? ==> r.value == NextRawCorrected(c, e)
  {
    TryFrom(NextRawCorrected(c, e))
  }

  /** From any valid context except the end of the first half (which only
      the pause between plays turns over into the third quarter), the corrected
      transition never fails validation, whatever consistent play it is given:
      the `unwrap` in `next_context` then holds. */
  lemma NextContextCorrectedValid(c: ValidContext, e: PlayEffects)
    requires !(c.endOfHalf && c.quarter == 2)
    requires Consistent(e)
    ensures NextContextCorrected(c, e).Ok?
  {
    var o := OptionsFrom(e);
    var r := NextRawCorrected(c, e);
    assert e.nextPlayExtraPoint ==> !NextEndOfHalf(c, o);
    assert r.yardLine <= 100;
    assert ClockValid(r);
    assert FlagsValid(r);
    assert EndingsValid(r);
  }

  /** On the two inputs above, the corrected transition keeps the spot at
      the goal line with 100 yards to go, and keeps the first quarter at 900
      seconds with the try pending. */
  lemma CorrectedOnCounterexamples()
    ensures NextContextCorrected(BackedUp(), Run.Effects(LongLoss())).Ok?
    ensures NextRawCorrected(BackedUp(), Run.Effects(LongLoss())).distance == 100
    ensures NextRawCorrected(QuarterBoundary(), Run.Effects(QuickTouchdown())).halfSeconds == 900
    ensures NextRawCorrected(QuarterBoundary(), Run.Effects(QuickTouchdown())).nextPlayExtraPoint
  {
    DefaultIsValid();
    assert Valid(BackedUp()) && Valid(QuarterBoundary());
    Run.ValidEffects(LongLoss());
    NextContextCorrectedValid(BackedUp(), Run.Effects(LongLoss()));
  }

  /** The excluded case fails either way: a play run straight from the end of
      the first half moves to the third quarter with no time on the clock. */
  lemma HalftimeNeedsPause()
    ensures var c := Default().(quarter := 2, halfSeconds := 0, endOfHalf := true);
            Valid(c) && NextContext(c, DefaultEffects()) == Err(TooFewSecondsForQuarter(3, 0))
            && NextContextCorrected(c, DefaultEffects()).Err?
  {
  }
}
