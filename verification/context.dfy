/** The game-state machine (src/game/context.rs): a validated record of
    the clock, the down and distance, the ball position, the score, the
    timeouts and the flags describing the previous and the next play, and the
    pure `next_*` functions that derive the following state from one play's
    results. Every `u32` is a `nat` and every `i32` an `int`; the values stay
    far from either type's limits. */
module Context {
  import opened Wrappers
  import opened PlayResult

  /** `GameContextRaw`, `GameContext` and `GameContextBuilder` share these fields. */
  datatype GameContext = GameContext(
    homeTeamShort: string,
    awayTeamShort: string,
    quarter: nat,
    halfSeconds: nat,
    down: nat,
    distance: nat,
    yardLine: nat,
    homeScore: nat,
    awayScore: nat,
    homeTimeouts: nat,
    awayTimeouts: nat,
    homePositiveDirection: bool,
    homeOpeningKickoff: bool,
    homePossession: bool,
    lastPlayTurnover: bool,
    lastPlayIncomplete: bool,
    lastPlayOutOfBounds: bool,
    lastPlayTimeout: bool,
    lastPlayKickoff: bool,
    lastPlayPunt: bool,
    nextPlayExtraPoint: bool,
    nextPlayKickoff: bool,
    neutralSite: bool,
    endOfHalf: bool,
    gameOver: bool)

  /** The offense attacks the goal line at yard line 0: exactly one of "home
      has the ball" and "home drives toward 100" holds. */
  predicate DrivesTowardZero(c: GameContext) {
    c.homePossession != c.homePositiveDirection
  }

  /** `yards_to_touchdown`: the distance to the defense's goal line. */
  function YardsToTouchdown(c: GameContext): int {
    if DrivesTowardZero(c) then c.yardLine else 100 - c.yardLine
  }

  /** `yards_to_safety`: minus the distance to the offense's own goal line. */
  function YardsToSafety(c: GameContext): int {
    -(if DrivesTowardZero(c) then 100 - c.yardLine else c.yardLine)
  }

  /** The clock rules: a half holds 1800 seconds, the first and third quarters
      its upper 900 and every other quarter its lower 900. */
  predicate ClockValid(c: GameContext) {
    c.halfSeconds <= 1800
    && ((c.quarter == 1 || c.quarter == 3) ==> c.halfSeconds >= 900)
    && ((c.quarter % 2 == 0 || c.quarter > 4) ==> c.halfSeconds <= 900)
  }

  /** The rules on the previous-play and next-play flags. */
  predicate FlagsValid(c: GameContext) {
    !(c.lastPlayIncomplete && c.lastPlayOutOfBounds)
    && !(c.lastPlayKickoff && c.lastPlayTimeout)
    && !(c.lastPlayPunt && c.lastPlayTimeout)
    && !(c.lastPlayPunt && c.lastPlayKickoff)
    && !(c.nextPlayExtraPoint && c.nextPlayKickoff)
  }

  /** A half ends only at the end of the second quarter or later, or at the
      very start of the third; a game ends only from the fourth quarter on,
      and both leave no time on the clock (the 600 and 1800 second marks are
      the starts of overtime and of the second half). */
  predicate EndingsValid(c: GameContext) {
    (c.endOfHalf ==> c.quarter != 1 && !(c.quarter == 3 && c.halfSeconds < 1800))
    && (c.endOfHalf ==> c.halfSeconds == 0 || c.halfSeconds == 600 || c.halfSeconds == 1800)
    && (c.gameOver ==> c.quarter >= 4 && c.halfSeconds == 0)
  }

  /** Everything `GameContextRaw::validate` demands. */
  predicate Valid(c: GameContext) {
    |c.homeTeamShort| <= 4 && |c.awayTeamShort| <= 4
    && ClockValid(c)
    && c.down <= 4 && c.yardLine <= 100
    && c.distance <= YardsToTouchdown(c)
    && c.homeTimeouts <= 3 && c.awayTimeouts <= 3
    && FlagsValid(c)
    && EndingsValid(c)
  }

  type ValidContext = c: GameContext | Valid(c) witness Default()

  /** The failures `GameContextRaw::validate` reports, in checking order. */
  datatype ContextError =
    | HomeShortNameTooLong(name: string)
    | AwayShortNameTooLong(name: string)
    | HalfSecondsOutOfRange(seconds: nat)
    | TooFewSecondsForQuarter(quarter: nat, seconds: nat)
    | TooManySecondsForQuarter(quarter: nat, seconds: nat)
    | DownOutOfRange(down: nat)
    | YardLineOutOfRange(yardLine: nat)
    | DistanceBeyondGoalLine(distance: nat, remaining: int)
    | HomeTimeoutsOutOfRange(timeouts: nat)
    | AwayTimeoutsOutOfRange(timeouts: nat)
    | IncompleteAndOutOfBounds
    | KickoffAndTimeout
    | PuntAndTimeout
    | PuntAndKickoff
    | KickoffAndExtraPoint
    | EndOfHalfInQuarter(quarter: nat)
    | EndOfHalfWithTimeLeft(seconds: nat)
    | GameOverInQuarter(quarter: nat)
    | GameOverWithTimeLeft(seconds: nat)

  function Message(e: ContextError): string {
    match e
    case HomeShortNameTooLong(n) => "Home team short name is longer than 4 characters: " + n
    case AwayShortNameTooLong(n) => "Away team short name is longer than 4 characters: " + n
    case HalfSecondsOutOfRange(s) => "Half seconds is not in range [0, 1800]: " + NatToString(s)
    case TooFewSecondsForQuarter(q, s) =>
      "Half seconds is not in range [900, 1800] for quarter " + NatToString(q) + ": " + NatToString(s)
    case TooManySecondsForQuarter(q, s) =>
      "Half seconds is not in range [0, 900] for quarter " + NatToString(q) + ": " + NatToString(s)
    case DownOutOfRange(d) => "Down is not in range [0, 4]: " + NatToString(d)
    case YardLineOutOfRange(y) => "Yard line is not in range [0, 100]: " + NatToString(y)
    case DistanceBeyondGoalLine(d, r) =>
      "Distance was greater than yards remaining to touchdown: " + NatToString(d) + " > " + IntToString(r)
    case HomeTimeoutsOutOfRange(t) => "Home timeouts is not in range [0, 3]: " + NatToString(t)
    case AwayTimeoutsOutOfRange(t) => "Away timeouts is not in range [0, 3]: " + NatToString(t)
    case IncompleteAndOutOfBounds => "Invalid combination of last play scenarios: Incomplete & out of bounds"
    case KickoffAndTimeout => "Invalid combination of last play scenarios: Kickoff & timeout"
    case PuntAndTimeout => "Invalid combination of last play scenarios: Punt & timeout"
    case PuntAndKickoff => "Invalid combination of last play scenarios: Punt & kickoff"
    case KickoffAndExtraPoint => "Invalid combination of next play scenarios: Kickoff & extra point"
    case EndOfHalfInQuarter(q) => "Cannot end half during quarter: " + NatToString(q)
    case EndOfHalfWithTimeLeft(s) => "End of half but nonzero half seconds: " + NatToString(s)
    case GameOverInQuarter(q) => "Cannot end game during quarter: " + NatToString(q)
    case GameOverWithTimeLeft(s) => "End of game but nonzero half seconds: " + NatToString(s)
  }

  /** The place of each check in `GameContextRaw::validate`, by the error it
      reports. */
  function Position(e: ContextError): nat {
    match e
    case HomeShortNameTooLong(_) => 0
    case AwayShortNameTooLong(_) => 1
    case HalfSecondsOutOfRange(_) => 2
    case TooFewSecondsForQuarter(_, _) => 3
    case TooManySecondsForQuarter(_, _) => 4
    case DownOutOfRange(_) => 5
    case YardLineOutOfRange(_) => 6
    case DistanceBeyondGoalLine(_, _) => 7
    case HomeTimeoutsOutOfRange(_) => 8
    case AwayTimeoutsOutOfRange(_) => 9
    case IncompleteAndOutOfBounds => 10
    case KickoffAndTimeout => 11
    case PuntAndTimeout => 12
    case PuntAndKickoff => 13
    case KickoffAndExtraPoint => 14
    case EndOfHalfInQuarter(_) => 15
    case EndOfHalfWithTimeLeft(_) => 16
    case GameOverInQuarter(_) => 17
    case GameOverWithTimeLeft(_) => 18
  }

  /** Whether the context passes the check at position `k`; positions past
      the last check pass. */
  predicate Passes(c: GameContext, k: nat) {
    if k == 0 then |c.homeTeamShort| <= 4
    else if k == 1 then |c.awayTeamShort| <= 4
    else if k == 2 then c.halfSeconds <= 1800
    else if k == 3 then !(c.halfSeconds < 900 && c.quarter % 2 == 1 && c.quarter < 4)
    else if k == 4 then !(c.halfSeconds > 900 && (c.quarter % 2 == 0 || c.quarter > 4))
    else if k == 5 then c.down <= 4
    else if k == 6 then c.yardLine <= 100
    else if k == 7 then c.distance <= YardsToTouchdown(c)
    else if k == 8 then c.homeTimeouts <= 3
    else if k == 9 then c.awayTimeouts <= 3
    else if k == 10 then !(c.lastPlayIncomplete && c.lastPlayOutOfBounds)
    else if k == 11 then !(c.lastPlayKickoff && c.lastPlayTimeout)
    else if k == 12 then !(c.lastPlayPunt && c.lastPlayTimeout)
    else if k == 13 then !(c.lastPlayPunt && c.lastPlayKickoff)
    else if k == 14 then !(c.nextPlayExtraPoint && c.nextPlayKickoff)
    else if k == 15 then !(c.endOfHalf && (c.quarter == 1 || (c.quarter == 3 && c.halfSeconds < 1800)))
    else if k == 16 then !(c.endOfHalf && c.halfSeconds != 1800 && c.halfSeconds != 600 && c.halfSeconds > 0)
    else if k == 17 then !(c.gameOver && c.quarter < 4)
    else if k == 18 then !(c.gameOver && c.halfSeconds > 0)
    else true
  }

  /** `GameContextRaw::validate`: the names, then the clock, the down and
      the ball position, the timeouts, the flags and the endings. */
  function Validate(c: GameContext): (r: Result<(), ContextError>)
    ensures r.Ok? <==> Valid(c)
    ensures |c.homeTeamShort| > 4 ==> r == Err(HomeShortNameTooLong(c.homeTeamShort))
    ensures r.Err? && r.error.DistanceBeyondGoalLine? ==>
      ClockValid(c) && c.yardLine <= 100 && c.distance > YardsToTouchdown(c)
  {
    if |c.homeTeamShort| > 4 then Err(HomeShortNameTooLong(c.homeTeamShort))
    else if |c.awayTeamShort| > 4 then Err(AwayShortNameTooLong(c.awayTeamShort))
    else if c.halfSeconds > 1800 then Err(HalfSecondsOutOfRange(c.halfSeconds))
    else if c.halfSeconds < 900 && c.quarter % 2 == 1 && c.quarter < 4 then
      Err(TooFewSecondsForQuarter(c.quarter, c.halfSeconds))
    else if c.halfSeconds > 900 && (c.quarter % 2 == 0 || c.quarter > 4) then
      Err(TooManySecondsForQuarter(c.quarter, c.halfSeconds))
    else if c.down > 4 then Err(DownOutOfRange(c.down))
    else if c.yardLine > 100 then Err(YardLineOutOfRange(c.yardLine))
    else if c.distance > YardsToTouchdown(c) then Err(DistanceBeyondGoalLine(c.distance, YardsToTouchdown(c)))
    else if c.homeTimeouts > 3 then Err(HomeTimeoutsOutOfRange(c.homeTimeouts))
    else if c.awayTimeouts > 3 then Err(AwayTimeoutsOutOfRange(c.awayTimeouts))
    else if c.lastPlayIncomplete && c.lastPlayOutOfBounds then Err(IncompleteAndOutOfBounds)
    else if c.lastPlayKickoff && c.lastPlayTimeout then Err(KickoffAndTimeout)
    else if c.lastPlayPunt && c.lastPlayTimeout then Err(PuntAndTimeout)
    else if c.lastPlayPunt && c.lastPlayKickoff then Err(PuntAndKickoff)
    else if c.nextPlayExtraPoint && c.nextPlayKickoff then Err(KickoffAndExtraPoint)
    else if c.endOfHalf && (c.quarter == 1 || (c.quarter == 3 && c.halfSeconds < 1800)) then
      Err(EndOfHalfInQuarter(c.quarter))
    else if c.endOfHalf && c.halfSeconds != 1800 && c.halfSeconds != 600 && c.halfSeconds > 0 then
      Err(EndOfHalfWithTimeLeft(c.halfSeconds))
    else if c.gameOver && c.quarter < 4 then Err(GameOverInQuarter(c.quarter))
    else if c.gameOver && c.halfSeconds > 0 then Err(GameOverWithTimeLeft(c.halfSeconds))
    else Ok(())
  }

  /** The error reported is that of the first check, in the source's order,
      that fails: that check fails and every earlier one passes. */
  lemma ValidateReportsFirstFailure(c: GameContext)
    ensures Validate(c).Err? ==> !Passes(c, Position(Validate(c).error))
    ensures Validate(c).Err? ==> forall k: nat :: k < Position(Validate(c).error) ==> Passes(c, k)
  {
  }

  /** `TryFrom<GameContextRaw>`, also `GameContextBuilder::build`. */
  function TryFrom(raw: GameContext): (r: Result<ValidContext, ContextError>)
    ensures r.Ok? <==> Valid(raw)
    ensures r.Ok? ==> r.value == raw
    ensures r.Err? ==> r.error == Validate(raw).error
    ensures r.Err? ==> !Passes(raw, Position(r.error)) && forall k: nat :: k < Position(r.error) ==> Passes(raw, k)
  {
    ValidateReportsFirstFailure(raw);
    match Validate(raw)
    case Err(e) => Err(e)
    case Ok(_) => Ok(raw)
  }

  /** `GameContext::default`, `new` and the builder's initial state: the
      opening kickoff, home kicking from its 35 toward yard line 100. */
  function Default(): GameContext {
    GameContext("HOME", "AWAY", 1, 1800, 0, 10, 35, 0, 0, 3, 3,
                true, true, true, false, false, false, false, false, false, false, true, false, false, false)
  }

  /** `started`: any down played, any point scored or any time run off. */
  function Started(c: GameContext): bool {
    c.down > 0 || c.homeScore > 0 || c.awayScore > 0 || c.quarter > 1 || c.halfSeconds < 1800
  }

  /** `offense_timeouts`: the timeouts of the side with the ball. */
  function OffenseTimeouts(c: GameContext): nat {
    if c.homePossession then c.homeTimeouts else c.awayTimeouts
  }

  /** `defense_timeouts`: the timeouts of the side without the ball. */
  function DefenseTimeouts(c: GameContext): nat {
    if c.homePossession then c.awayTimeouts else c.homeTimeouts
  }

  /** `clock_running`: the clock stops after incompletions, timeouts,
      changes of possession, kicks and tries, and after going out of bounds in
      the last two minutes of the first half or the last five of the game. */
  function ClockRunning(c: GameContext): bool {
    !(c.lastPlayIncomplete || c.lastPlayTimeout || c.nextPlayExtraPoint
      || c.nextPlayKickoff || c.lastPlayKickoff || c.lastPlayPunt || c.lastPlayTurnover
      || (c.lastPlayOutOfBounds
          && ((c.quarter == 2 && c.halfSeconds < 120) || (c.quarter >= 4 && c.halfSeconds < 300))))
  }

  /** `offense_advantage`: home has the ball at a home venue. */
  function OffenseAdvantage(c: GameContext): bool {
    c.homePossession && !c.neutralSite
  }

  /** `defense_advantage`: home defends at a home venue. */
  function DefenseAdvantage(c: GameContext): bool {
    !(c.homePossession || c.neutralSite)
  }

  /** The default context validates and builds unchanged; it is not started,
      the kicking team is 65 yards from a touchdown and 35 from a safety. */
  lemma DefaultIsValid()
    ensures Valid(Default())
    ensures TryFrom(Default()) == Ok(Default())
    ensures !Started(Default())
    ensures YardsToTouchdown(Default()) == 65 && YardsToSafety(Default()) == -35
  {
  }

  /** The two goal lines are always 100 yards apart. */
  lemma GoalLinesApart(c: GameContext)
    ensures YardsToTouchdown(c) - YardsToSafety(c) == 100
    ensures Valid(c) ==> 0 <= YardsToTouchdown(c) <= 100 && -100 <= YardsToSafety(c) <= 0
  {
  }

  /** Offense and defense timeouts are the two teams' timeouts, and at most one
      side has home advantage; at a neutral site neither does. */
  lemma SidesPartition(c: GameContext)
    ensures OffenseTimeouts(c) + DefenseTimeouts(c) == c.homeTimeouts + c.awayTimeouts
    ensures !(OffenseAdvantage(c) && DefenseAdvantage(c))
    ensures c.neutralSite ==> !OffenseAdvantage(c) && !DefenseAdvantage(c)
    ensures !c.neutralSite ==> OffenseAdvantage(c) || DefenseAdvantage(c)
  {
  }

  // ---------------------------------------------------------------------
  // Transitions
  // ---------------------------------------------------------------------

  /** `GameContextUpdateOptions`: what one play (or the pause after it)
      reports to the transition functions. */
  datatype UpdateOptions = UpdateOptions(
    duration: nat,
    netYards: int,
    offScore: ScoreResult,
    defScore: ScoreResult,
    turnover: bool,
    touchback: bool,
    kickoffOutOfBounds: bool,
    offTimeout: bool,
    defTimeout: bool,
    nextPlayExtraPoint: bool,
    betweenPlay: bool,
    endOfGame: bool)

  /** `GameContextUpdateOptions::default`. */
  function DefaultOptions(): UpdateOptions {
    UpdateOptions(0, 0, NoScore, NoScore, false, false, false, false, false, false, false, false)
  }

  /** The clock after the play, stopped at zero (the `unwrap_or_default` of a
      negative difference). */
  function Clock(c: GameContext, o: UpdateOptions): (r: nat)
    ensures r <= c.halfSeconds
    ensures r == 0 <==> o.duration >= c.halfSeconds
  {
    if o.duration <= c.halfSeconds then c.halfSeconds - o.duration else 0
  }

  predicate TouchdownScored(o: UpdateOptions) {
    o.offScore == Touchdown || o.defScore == Touchdown
  }

  /** `next_home_score`. */
  function NextHomeScore(c: GameContext, o: UpdateOptions): (r: nat)
    ensures r >= c.homeScore
  {
    if c.homePossession then c.homeScore + Points(o.offScore) else c.homeScore + Points(o.defScore)
  }

  /** `next_away_score`. */
  function NextAwayScore(c: GameContext, o: UpdateOptions): (r: nat)
    ensures r >= c.awayScore
  {
    if c.homePossession then c.awayScore + Points(o.defScore) else c.awayScore + Points(o.offScore)
  }

  /** `next_score_tied`. */
  predicate NextScoreTied(c: GameContext, o: UpdateOptions) {
    NextHomeScore(c, o) == NextAwayScore(c, o)
  }

  /** The side with the ball gains exactly the offense's points and the other
      side exactly the defense's, so the total grows by both. */
  lemma ScoresCredited(c: GameContext, o: UpdateOptions)
    ensures (if c.homePossession then NextHomeScore(c, o) - c.homeScore else NextAwayScore(c, o) - c.awayScore)
            == Points(o.offScore)
    ensures (if c.homePossession then NextAwayScore(c, o) - c.awayScore else NextHomeScore(c, o) - c.homeScore)
            == Points(o.defScore)
    ensures NextHomeScore(c, o) + NextAwayScore(c, o)
            == c.homeScore + c.awayScore + Points(o.offScore) + Points(o.defScore)
  {
  }

  /** The doc examples: an offensive touchdown from the default context gives
      home 6, a defensive safety gives away 2. */
  lemma ScoreExamples()
    ensures NextHomeScore(Default(), DefaultOptions().(offScore := Touchdown)) == 6
    ensures NextAwayScore(Default(), DefaultOptions().(defScore := Safety)) == 2
    ensures NextScoreTied(Default(), DefaultOptions())
  {
  }

  /** `next_end_of_half`: the clock runs out in the second quarter or later
      on a play that is not a touchdown (a touchdown still needs its try). */
  predicate NextEndOfHalf(c: GameContext, o: UpdateOptions) {
    Clock(c, o) == 0 && (c.quarter == 2 || c.quarter >= 4) && !TouchdownScored(o)
  }

  /** The end of half as most transitions see it: a new one, or a pending one
      being processed between plays. */
  predicate HalfEnding(c: GameContext, o: UpdateOptions) {
    NextEndOfHalf(c, o) || (c.endOfHalf && o.betweenPlay)
  }

  /** `next_game_over`: time runs out from the fourth quarter on with the
      score not tied. */
  predicate NextGameOver(c: GameContext, o: UpdateOptions) {
    c.quarter >= 4 && Clock(c, o) == 0 && !NextScoreTied(c, o)
  }

  /** `next_half_seconds`. */
  function NextHalfSeconds(c: GameContext, o: UpdateOptions): (r: nat)
    ensures r == Clock(c, o) || r == 0 || r == 600 || r == 900 || r == 1800
    ensures c.halfSeconds <= 1800 ==> r <= 1800
  {
    if (c.quarter == 1 || c.quarter == 3) && c.halfSeconds > 900 && Clock(c, o) <= 900 then 900
    else if HalfEnding(c, o) && !(o.betweenPlay || o.endOfGame) then 0
    else if (HalfEnding(c, o) && o.betweenPlay && c.quarter < 4) || (c.endOfHalf && c.quarter == 2) then 1800
    else if c.quarter >= 4 && Clock(c, o) == 0 then (if !NextScoreTied(c, o) then 0 else 600)
    else Clock(c, o)
  }

  /** The doc example: ten seconds off a full half leaves 1790. */
  lemma HalfSecondsExample()
    ensures NextHalfSeconds(Default(), DefaultOptions().(duration := 10)) == 1790
  {
  }

  /** `next_quarter`: the quarter advances when the first or third quarter's
      900 seconds run out, when the second quarter ends, or when a later period
      ends tied; never while a touchdown's try is pending. */
  function NextQuarter(c: GameContext, o: UpdateOptions): (r: nat)
    ensures r == c.quarter || r == c.quarter + 1
    ensures TouchdownScored(o) ==> r == c.quarter
  {
    if TouchdownScored(o) then c.quarter
    else if ((c.quarter == 1 || c.quarter == 3) && c.halfSeconds >= 900 && Clock(c, o) <= 900)
         || (c.quarter == 2 && Clock(c, o) == 0)
         || (c.quarter >= 4 && Clock(c, o) == 0 && NextScoreTied(c, o)) then c.quarter + 1
    else c.quarter
  }

  /** The quarter changes on this play. */
  predicate QuarterEnds(c: GameContext, o: UpdateOptions) {
    NextQuarter(c, o) != c.quarter
  }

  /** `next_home_positive_direction`: the teams switch ends at every quarter
      break and at the end of each half. */
  function NextHomePositiveDirection(c: GameContext, o: UpdateOptions): bool {
    if QuarterEnds(c, o) || HalfEnding(c, o) then !c.homePositiveDirection else c.homePositiveDirection
  }

  /** True when the score is one after which the next snap is a down-0 play. */
  predicate ZeroDownScore(s: ScoreResult) {
    s == Touchdown || s == FieldGoal || s == Safety
  }

  /** `next_down`. */
  function NextDown(c: GameContext, o: UpdateOptions): (r: nat)
    ensures c.down <= 4 ==> r <= 4
    ensures r > 1 ==> r == c.down + 1 && !o.turnover && o.netYards < c.distance
    ensures HalfEnding(c, o) || c.nextPlayExtraPoint ==> r == 0
  {
    if HalfEnding(c, o) then 0
    else if c.nextPlayExtraPoint then 0
    else if c.nextPlayKickoff then (if !(o.offScore == NoScore && o.defScore == NoScore) then 0 else 1)
    else if ZeroDownScore(o.offScore) || ZeroDownScore(o.defScore) then 0
    else if o.turnover then 1
    else if o.netYards >= c.distance then 1
    else if c.down + 1 > 4 then 1
    else c.down + 1
  }

  /** `next_home_possession`. */
  function NextHomePossession(c: GameContext, o: UpdateOptions): bool {
    if HalfEnding(c, o) then c.homeOpeningKickoff
    else if c.nextPlayKickoff && !o.turnover then c.homePossession
    else if c.nextPlayKickoff || o.defScore == Touchdown || o.turnover then !c.homePossession
    else if o.netYards >= c.distance || o.offScore == Touchdown || o.offScore == FieldGoal
            || o.offScore == ExtraPoint || o.offScore == TwoPointConversion then c.homePossession
    else if c.down + 1 > 4 then !c.homePossession
    else c.homePossession
  }

  /** A yard line measured from the offense's side, mirrored when the quarter
      ends (the teams switch ends). */
  function Mirrored(yl: nat, flip: bool): (r: nat)
    requires yl <= 100
    ensures r <= 100
  {
    if flip then 100 - yl else yl
  }

  /** The spot `yards` from the offense's goal line, in field coordinates. */
  function SpotFor(c: GameContext, towardZero: nat, towardHundred: nat): nat {
    if DrivesTowardZero(c) then towardZero else towardHundred
  }

  /** `max(0, min(100, v))` followed by the `u32` conversion. */
  function ClampToField(v: int): (r: nat)
    ensures r <= 100
    ensures 0 <= v <= 100 ==> r == v
  {
    if v < 0 then 0 else if v > 100 then 100 else v
  }

  /** `next_yard_line`. */
  function NextYardLine(c: GameContext, o: UpdateOptions): (r: nat)
    ensures r <= 100
    ensures HalfEnding(c, o) ==> r == 35 || r == 65
  {
    if HalfEnding(c, o) then (if c.homeOpeningKickoff != c.homePositiveDirection then 35 else 65)
    else
      var eoq := QuarterEnds(c, o);
      if c.nextPlayExtraPoint || o.defScore == Safety || o.offScore == FieldGoal then Mirrored(SpotFor(c, 65, 35), eoq)
      else if o.offScore == Touchdown then Mirrored(SpotFor(c, 2, 98), eoq)
      else if o.defScore == Touchdown then Mirrored(SpotFor(c, 98, 2), eoq)
      else if o.touchback then Mirrored(SpotFor(c, 25, 75), eoq)
      else if o.kickoffOutOfBounds then Mirrored(SpotFor(c, 35, 65), eoq)
      else if DrivesTowardZero(c) then Mirrored(ClampToField(c.yardLine - o.netYards), eoq)
      else Mirrored(ClampToField(c.yardLine + o.netYards), eoq)
  }

  /** `10.min(yl)` and `0.max(10.min(100 - yl))`: ten yards, or fewer when
      the goal line is closer. */
  function TenOrToGoal(remaining: int): (r: nat)
    ensures r <= 10 && r <= (if remaining < 0 then 0 else remaining)
  {
    if remaining < 0 then 0 else if remaining < 10 then remaining else 10
  }

  /** `next_distance`. */
  function NextDistance(c: GameContext, o: UpdateOptions): nat {
    var endOfHalf := if o.betweenPlay then c.endOfHalf else NextEndOfHalf(c, o);
    if c.nextPlayExtraPoint || endOfHalf || o.defScore == Safety || o.offScore == FieldGoal then 10
    else if o.offScore == Touchdown || o.defScore == Touchdown then 2
    else
      // the next spot, seen from before any change of ends
      var yl := Mirrored(NextYardLine(c, o), QuarterEnds(c, o));
      // the distance to each goal line from that spot
      var zeroSide := TenOrToGoal(yl);
      var hundredSide := TenOrToGoal(100 - yl);
      if c.nextPlayKickoff && !o.turnover then (if DrivesTowardZero(c) then zeroSide else hundredSide)
      else if o.turnover || (c.nextPlayKickoff && !o.betweenPlay) then
        (if DrivesTowardZero(c) then hundredSide else zeroSide)
      else if o.netYards >= c.distance then (if DrivesTowardZero(c) then zeroSide else hundredSide)
      else if c.down == 4 && !o.betweenPlay then (if DrivesTowardZero(c) then hundredSide else zeroSide)
      // short of the line to gain, so this is positive and the `u32`
      // conversion's default never applies
      else c.distance - o.netYards
  }

  /** `next_home_timeouts`: back to three after a half ends, otherwise one
      fewer when home called one (on offense or on defense), never below zero. */
  function NextHomeTimeouts(c: GameContext, o: UpdateOptions): (r: nat)
    ensures c.endOfHalf ==> r == 3
    ensures !c.endOfHalf ==> r <= c.homeTimeouts <= r + 1
    ensures !c.endOfHalf && r < c.homeTimeouts ==> (if c.homePossession then o.offTimeout else o.defTimeout)
  {
    if c.endOfHalf then 3
    else if c.homePossession then (if o.offTimeout && c.homeTimeouts > 0 then c.homeTimeouts - 1 else c.homeTimeouts)
    else if o.defTimeout && c.homeTimeouts > 0 then c.homeTimeouts - 1
    else c.homeTimeouts
  }

  /** `next_away_timeouts` as written: away is also charged for the offense's
      timeout while home has the ball. */
  function NextAwayTimeouts(c: GameContext, o: UpdateOptions): (r: nat)
    ensures c.endOfHalf ==> r == 3
    ensures !c.endOfHalf ==> r <= c.awayTimeouts <= r + 1
  {
    if c.endOfHalf then 3
    else if c.homePossession && o.defTimeout then (if c.awayTimeouts > 0 then c.awayTimeouts - 1 else 0)
    else if o.offTimeout then (if c.awayTimeouts > 0 then c.awayTimeouts - 1 else 0)
    else c.awayTimeouts
  }

  /** The away counterpart of `next_home_timeouts`: away is charged for the
      defense's timeout while home has the ball and for the offense's while
      away has it. */
  function NextAwayTimeoutsCorrected(c: GameContext, o: UpdateOptions): (r: nat)
    ensures c.endOfHalf ==> r == 3
    ensures !c.endOfHalf ==> r <= c.awayTimeouts <= r + 1
    ensures !c.endOfHalf && r < c.awayTimeouts ==> (if c.homePossession then o.defTimeout else o.offTimeout)
  {
    if c.endOfHalf then 3
    else if c.homePossession then (if o.defTimeout && c.awayTimeouts > 0 then c.awayTimeouts - 1 else c.awayTimeouts)
    else if o.offTimeout && c.awayTimeouts > 0 then c.awayTimeouts - 1
    else c.awayTimeouts
  }

  /** The same game with the two teams' roles exchanged. */
  function SwapTeams(c: GameContext): GameContext {
    c.(homeTeamShort := c.awayTeamShort, awayTeamShort := c.homeTeamShort,
       homeScore := c.awayScore, awayScore := c.homeScore,
       homeTimeouts := c.awayTimeouts, awayTimeouts := c.homeTimeouts,
       homePossession := !c.homePossession,
       homePositiveDirection := !c.homePositiveDirection,
       homeOpeningKickoff := !c.homeOpeningKickoff)
  }

  /** The corrected away rule is the home rule with the teams exchanged, and
      a team is only ever charged for a timeout it called. */
  lemma TimeoutsSymmetric(c: GameContext, o: UpdateOptions)
    ensures NextAwayTimeoutsCorrected(c, o) == NextHomeTimeouts(SwapTeams(c), o)
    ensures NextHomeTimeouts(c, o) == NextAwayTimeoutsCorrected(SwapTeams(c), o)
  {
  }

  /** As written, an offensive timeout by home costs both teams a timeout. */
  lemma HomeOffenseTimeoutChargesAway()
    ensures var o := DefaultOptions().(offTimeout := true);
            NextHomeTimeouts(Default(), o) == 2 && NextAwayTimeouts(Default(), o) == 2
    ensures var o := DefaultOptions().(offTimeout := true);
            NextAwayTimeouts(Default(), o) != NextHomeTimeouts(SwapTeams(Default()), o)
  {
  }

  /** The record with its distance limited to the yards left to the goal line
      (the "and goal" rule); everything else is unchanged. */
  function CapDistance(c: GameContext): (r: GameContext)
    requires c.yardLine <= 100
    ensures r.distance <= YardsToTouchdown(r)
    ensures r.distance == c.distance || r.distance == YardsToTouchdown(c)
  {
    var toGoal := if YardsToTouchdown(c) < 0 then 0 else YardsToTouchdown(c);
    c.(distance := if c.distance <= toGoal then c.distance else toGoal)
  }

  /** The options `next_context` derives from a play's results. */
  function OptionsFrom(e: PlayEffects): (o: UpdateOptions)
    ensures !o.betweenPlay && !o.endOfGame
    ensures o.duration == e.playDuration && o.netYards == e.netYards
    ensures o.kickoffOutOfBounds <==> e.kickoff && e.outOfBounds
  {
    UpdateOptions(e.playDuration, e.netYards, e.offenseScore, e.defenseScore, e.turnover, e.touchback,
                  e.kickoff && e.outOfBounds, e.offenseTimeout, e.defenseTimeout, e.nextPlayExtraPoint,
                  false, false)
  }

  /** The unvalidated record `next_context` assembles. */
  function NextRaw(c: GameContext, e: PlayEffects): (r: GameContext)
  {
    var o := OptionsFrom(e);
    var endOfHalf := if c.endOfHalf then false else NextEndOfHalf(c, o) && !e.nextPlayExtraPoint;
    GameContext(
      homeTeamShort := c.homeTeamShort,
      awayTeamShort := c.awayTeamShort,
      quarter := if endOfHalf then c.quarter else NextQuarter(c, o),
      halfSeconds := NextHalfSeconds(c, o),
      down := NextDown(c, o),
      distance := NextDistance(c, o),
      yardLine := NextYardLine(c, o),
      homeScore := NextHomeScore(c, o),
      awayScore := NextAwayScore(c, o),
      homeTimeouts := NextHomeTimeouts(c, o),
      awayTimeouts := NextAwayTimeouts(c, o),
      homePositiveDirection := NextHomePositiveDirection(c, o),
      homeOpeningKickoff := c.homeOpeningKickoff,
      homePossession := NextHomePossession(c, o),
      lastPlayTurnover := e.turnover,
      lastPlayIncomplete := e.incomplete,
      lastPlayOutOfBounds := e.outOfBounds,
      lastPlayTimeout := e.offenseTimeout || e.defenseTimeout,
      lastPlayKickoff := e.kickoff,
      lastPlayPunt := e.punt,
      nextPlayExtraPoint := e.nextPlayExtraPoint,
      nextPlayKickoff := e.nextPlayKickoff || (endOfHalf && !e.nextPlayExtraPoint),
      neutralSite := c.neutralSite,
      endOfHalf := endOfHalf,
      gameOver := NextGameOver(c, o))
  }

  /** `next_context` as written: the assembled record is validated and
      unwrapped, so an `Err` here is a panic in the program. */
  function NextContext(c: ValidContext, e: PlayEffects): (r: Result<ValidContext, ContextError>)
    ensures r.Ok? <==> Valid(NextRaw(c, e))
    ensures r.Ok? ==> r.value == NextRaw(c, e)
  {
    TryFrom(NextRaw(c, e))
  }
}
