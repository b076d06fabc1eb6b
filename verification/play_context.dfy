/** `PlayContext` (src/game/play/context.rs): the game state as the team with
    the ball sees it, and the situational questions a play caller asks of it. */
module PlayContext {
  import opened Wrappers
  import Context

  datatype PlayContext = PlayContext(
    quarter: nat,
    halfSeconds: nat,
    down: nat,
    distance: nat,
    /** Yards from the offense's own goal line. */
    yardLine: nat,
    /** The offense's score minus the defense's. */
    scoreDiff: int,
    offTimeouts: nat,
    defTimeouts: nat,
    clockRunning: bool)

  /** `From<&GameContext>`: scores, timeouts and the spot are read from the
      side of the team in possession; a spot that would be negative is 0. */
  function From(c: Context.GameContext): (r: PlayContext)
    ensures r.scoreDiff == if c.homePossession then c.homeScore - c.awayScore else c.awayScore - c.homeScore
    ensures r.offTimeouts == Context.OffenseTimeouts(c) && r.defTimeouts == Context.DefenseTimeouts(c)
    ensures c.yardLine <= 100 ==> r.yardLine + Context.YardsToTouchdown(c) == 100
    ensures r.clockRunning == Context.ClockRunning(c)
    ensures r.quarter == c.quarter && r.halfSeconds == c.halfSeconds
    ensures r.down == c.down && r.distance == c.distance
  {
    var scoreDiff := if c.homePossession then c.homeScore - c.awayScore else c.awayScore - c.homeScore;
    var offTimeouts := if c.homePossession then c.homeTimeouts else c.awayTimeouts;
    var defTimeouts := if c.homePossession then c.awayTimeouts else c.homeTimeouts;
    var yardLine := if c.homePossession != c.homePositiveDirection then
                      (if 100 - c.yardLine < 0 then 0 else 100 - c.yardLine)
                    else c.yardLine;
    PlayContext(c.quarter, c.halfSeconds, c.down, c.distance, yardLine, scoreDiff,
                offTimeouts, defTimeouts, Context.ClockRunning(c))
  }

  /** The play context depends only on which side has the ball, not on which
      team that is: exchanging the two teams leaves it unchanged. */
  lemma FromIgnoresTeams(c: Context.GameContext)
    ensures From(Context.SwapTeams(c)) == From(c)
  {
  }

  /** The doc examples on a new game: first quarter, ten yards to go, the
      offense at its own 35, level score, three timeouts each. */
  lemma DefaultPlayContext()
    ensures var p := From(Context.Default());
            p.yardLine == 35 && p.distance == 10 && p.quarter == 1 && p.down == 0
            && p.scoreDiff == 0 && p.offTimeouts == 3 && p.defTimeouts == 3
  {
  }

  /** `drain_clock`: leading in the fourth quarter or overtime with fewer
      seconds left than 30 per point of lead (four minutes per eight points;
      the single-precision arithmetic is exact on these values). */
  predicate DrainClock(p: PlayContext) {
    p.scoreDiff > 0 && p.quarter >= 4 && p.halfSeconds < 30 * p.scoreDiff
  }

  /** `up_tempo`: trailing by 1 to 17 in the last three minutes of the game. */
  predicate UpTempo(p: PlayContext) {
    p.quarter >= 4 && p.halfSeconds <= 180 && p.scoreDiff < 0 && p.scoreDiff >= -17
  }

  /** `critical_down`: third down in the last three minutes of a half with the
      margin within a converted touchdown either way. */
  predicate CriticalDown(p: PlayContext) {
    p.down == 3 && p.halfSeconds <= 180 && p.scoreDiff < 9 && p.scoreDiff > -9
  }

  /** `offense_conserve_clock`. */
  predicate OffenseConserveClock(p: PlayContext) {
    p.quarter >= 4 && p.halfSeconds <= 180 && p.scoreDiff < 0 && p.scoreDiff > -18
  }

  /** `defense_conserve_clock`. */
  predicate DefenseConserveClock(p: PlayContext) {
    p.quarter >= 4 && p.halfSeconds <= 180 && p.scoreDiff > 0 && p.scoreDiff < 18
  }

  /** `last_play`. */
  predicate LastPlay(p: PlayContext) {
    p.halfSeconds < 6
  }

  /** `last_play_need_td`: a field goal would not be enough. */
  predicate LastPlayNeedTouchdown(p: PlayContext) {
    p.scoreDiff < -3
  }

  /** `can_go_for_it`: four yards or fewer to go, either inside the opponent's
      20 or around midfield. */
  predicate CanGoForIt(p: PlayContext) {
    p.distance <= 4 && (p.yardLine >= 80 || (p.yardLine >= 40 && p.yardLine <= 60))
  }

  /** `in_field_goal_range`. */
  predicate InFieldGoalRange(p: PlayContext) {
    p.yardLine >= 45
  }

  /** Hurrying up is exactly conserving the clock on offense, and the two
      sides never both want to conserve it; a defense conserving the clock
      faces a leading offense, which drains it once its lead covers the
      seconds left. */
  lemma ClockManagementSides(p: PlayContext)
    ensures UpTempo(p) <==> OffenseConserveClock(p)
    ensures !(OffenseConserveClock(p) && DefenseConserveClock(p))
    ensures !(UpTempo(p) && DrainClock(p))
    ensures DefenseConserveClock(p) ==> p.scoreDiff > 0
    ensures DefenseConserveClock(p) && p.halfSeconds < 30 * p.scoreDiff ==> DrainClock(p)
  {
  }

  /** Whether the offense is trailing or leading is decided by the side in
      possession: after the ball changes hands, the trailing side hurries. */
  lemma ConserveSwapsWithPossession(c: Context.GameContext)
    ensures DefenseConserveClock(From(c))
            <==> OffenseConserveClock(From(c.(homePossession := !c.homePossession)))
  {
  }

  /** `can_kneel`: the seconds the offense can run off by kneeling, 42 per
      remaining down not answered by a defensive timeout, cover the clock.
      The source computes `4 - down` and then subtracts the defense's
      timeouts in unsigned arithmetic, which panics when either goes below
      zero; `None` is that panic. */
  function CanKneel(p: PlayContext): (r: Option<bool>)
    ensures r.Some? <==> p.down <= 4 && p.defTimeouts <= 4 - p.down
    ensures r == Some(true) <==>
      p.down + p.defTimeouts <= 4 && p.halfSeconds <= 42 * (4 - p.down - p.defTimeouts)
  {
    if p.down > 4 then None
    else
      var downsRemaining: nat := 4 - p.down;
      if p.defTimeouts > downsRemaining then None
      else Some(42 * (downsRemaining - p.defTimeouts) >= p.halfSeconds)
  }

  /** With no defensive timeouts left on first down, kneeling covers up to 126
      seconds; with a timeout for every remaining down it covers nothing but
      an expired clock. */
  lemma KneelExamples()
    ensures CanKneel(PlayContext(4, 126, 1, 10, 50, 3, 3, 0, true)) == Some(true)
    ensures CanKneel(PlayContext(4, 127, 1, 10, 50, 3, 3, 0, true)) == Some(false)
    ensures CanKneel(PlayContext(4, 1, 1, 10, 50, 3, 3, 3, true)) == Some(false)
    ensures CanKneel(PlayContext(4, 1, 3, 10, 50, 3, 3, 2, true)) == None
  {
  }

  /** Rounding of a non-negative multiple of one eighth to the nearest
      integer, halves away from zero, as `f32::round` does. */
  function RoundEighths(n: nat): (r: nat)
    ensures 8 * r <= n + 4 < 8 * r + 8
  {
    (n + 4) / 8
  }

  /** Ceiling division by a positive divisor, as `f32::ceil` of the exact
      quotient. */
  function CeilDiv(n: nat, d: nat): (r: nat)
    requires d > 0
    ensures d * r >= n && (r == 0 || d * (r - 1) < n)
  {
    (n + d - 1) / d
  }

  /** `must_score`: trailing, and the drives left (one that can use the
      offense's timeouts, then one per 134 seconds) do not exceed the scores
      needed (eight points each, rounded). The source computes
      `3 - off_timeouts` unsigned, so `None` stands for its panic with more
      than three timeouts. */
  function MustScore(p: PlayContext): (r: Option<bool>)
    ensures r.None? <==> p.scoreDiff < 0 && p.offTimeouts > 3
    ensures p.scoreDiff >= 0 ==> r == Some(false)
    ensures p.scoreDiff < 0 && p.offTimeouts <= 3 && p.halfSeconds <= 42 * (3 - p.offTimeouts) + 8
            ==> r == Some(true)
  {
    if p.scoreDiff >= 0 then Some(false)
    else if p.offTimeouts > 3 then None
    else
      var timeoutDriveTime := 42 * (3 - p.offTimeouts) + 8;
      if p.halfSeconds <= timeoutDriveTime then Some(true)
      else
        var nonTimeoutDriveTime := 42 * 3 + 8;
        var drivesRemaining := 1 + CeilDiv(p.halfSeconds - timeoutDriveTime, nonTimeoutDriveTime);
        var scoresNeeded := RoundEighths(-p.scoreDiff);
        Some(drivesRemaining <= scoresNeeded)
  }

  /** With time for a drive beyond the timeout drive, a deficit of a field
      goal or less never forces the offense to score now, while a deficit of
      four scores with two drives left does. */
  lemma MustScoreExamples(p: PlayContext)
    requires -3 <= p.scoreDiff < 0 && p.offTimeouts <= 3
    requires p.halfSeconds > 42 * (3 - p.offTimeouts) + 8
    ensures MustScore(p) == Some(false)
    ensures MustScore(p.(scoreDiff := -32, halfSeconds := 100, offTimeouts := 3)) == Some(true)
  {
  }

  /** On a valid context the spot lies on the field, and field-goal range is
      the offense being at most 55 yards from the goal line. */
  lemma FieldPosition(c: Context.ValidContext)
    ensures From(c).yardLine <= 100
    ensures InFieldGoalRange(From(c)) <==> Context.YardsToTouchdown(c) <= 55
    ensures CanGoForIt(From(c)) ==> c.distance <= 4
  {
  }
}
