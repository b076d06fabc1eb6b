/** The pause between two snaps (src/game/play/result/betweenplay.rs): the
    time it takes, the timeouts called in it, and how it moves the game state
    on, including the turn-over at the end of a half. */
module BetweenPlay {
  import opened Wrappers
  import opened PlayResult
  import Context

  /** `BetweenPlayResultRaw`, `BetweenPlayResult` and the builder share these fields. */
  datatype BetweenPlayResult = BetweenPlayResult(
    duration: nat,
    offenseTimeout: bool,
    defenseTimeout: bool,
    upTempo: bool,
    defenseNotSet: bool,
    criticalDown: bool)

  /** At most one side calls a timeout, and the pause lasts at most 100 seconds. */
  predicate Valid(b: BetweenPlayResult) {
    !(b.offenseTimeout && b.defenseTimeout) && b.duration <= 100
  }

  type ValidBetweenPlayResult = b: BetweenPlayResult | Valid(b) witness Default()

  datatype BetweenPlayError = BothTimeouts | DurationOutOfRange(duration: nat)

  function Message(e: BetweenPlayError): string {
    match e
    case BothTimeouts => "Offense and defense cannot both call timeout"
    case DurationOutOfRange(d) => "Duration is out of range [0, 100]: " + NatToString(d)
  }

  /** `BetweenPlayResultRaw::validate`: the timeouts are checked first. */
  function Validate(b: BetweenPlayResult): (r: Result<(), BetweenPlayError>)
    ensures r.Ok? <==> Valid(b)
    ensures b.offenseTimeout && b.defenseTimeout ==> r == Err(BothTimeouts)
    ensures r == Err(DurationOutOfRange(b.duration)) <==> !(b.offenseTimeout && b.defenseTimeout) && b.duration > 100
  {
    if b.offenseTimeout && b.defenseTimeout then Err(BothTimeouts)
    else if b.duration > 100 then Err(DurationOutOfRange(b.duration))
    else Ok(())
  }

  /** `TryFrom<BetweenPlayResultRaw>`, also `BetweenPlayResultBuilder::build`. */
  function TryFrom(raw: BetweenPlayResult): (r: Result<ValidBetweenPlayResult, BetweenPlayError>)
    ensures r.Ok? <==> Valid(raw)
    ensures r.Ok? ==> r.value == raw
    ensures r.Err? ==> r.error == Validate(raw).error
  {
    match Validate(raw)
    case Err(e) => Err(e)
    case Ok(_) => Ok(raw)
  }

  /** `BetweenPlayResult::default` and the builder's initial state. */
  function Default(): BetweenPlayResult {
    BetweenPlayResult(20, false, false, false, false, false)
  }

  /** The default pause is twenty quiet seconds, and it builds. */
  lemma DefaultBuilds()
    ensures TryFrom(Default()) == Ok(Default())
    ensures Default().duration == 20
    ensures !Default().offenseTimeout && !Default().defenseTimeout
    ensures !Default().upTempo && !Default().defenseNotSet && !Default().criticalDown
  {
  }

  /** The record `next_context` hands to the context builder when no try is
      pending. Neutral site and last-play punt are never set on the builder,
      so they take the builder's defaults. */
  function NextRaw(c: Context.GameContext, b: BetweenPlayResult): Context.GameContext
  {
    var atRest := Context.DefaultOptions().(betweenPlay := true);
    var between := BetweenOptions(b);
    var prevEndOfHalf := c.endOfHalf;
    var nextEndOfHalf := Context.NextEndOfHalf(c, between);
    var endOfHalf := prevEndOfHalf || nextEndOfHalf;
    var endOfGame := Context.NextGameOver(c, between);
    Context.Default().(
      homeTeamShort := c.homeTeamShort,
      awayTeamShort := c.awayTeamShort,
      quarter := Context.NextQuarter(c, between),
      halfSeconds := Context.NextHalfSeconds(c, between.(endOfGame := endOfGame)),
      down := if prevEndOfHalf then Context.NextDown(c, atRest) else if nextEndOfHalf then Context.NextDown(c, between) else c.down,
      distance := if prevEndOfHalf then Context.NextDistance(c, atRest) else Context.NextDistance(c, between),
      yardLine := if prevEndOfHalf then Context.NextYardLine(c, atRest) else Context.NextYardLine(c, between),
      homeScore := c.homeScore,
      awayScore := c.awayScore,
      homeTimeouts := Context.NextHomeTimeouts(c, between),
      awayTimeouts := Context.NextAwayTimeouts(c, between),
      homePositiveDirection := Context.NextHomePositiveDirection(c, between),
      homeOpeningKickoff := c.homeOpeningKickoff,
      homePossession := if prevEndOfHalf then Context.NextHomePossession(c, atRest)
                        else if nextEndOfHalf then Context.NextHomePossession(c, between)
                        else c.homePossession,
      lastPlayTurnover := c.lastPlayTurnover,
      lastPlayIncomplete := c.lastPlayIncomplete,
      lastPlayOutOfBounds := c.lastPlayOutOfBounds,
      lastPlayTimeout := b.offenseTimeout || b.defenseTimeout,
      lastPlayKickoff := c.lastPlayKickoff,
      nextPlayExtraPoint := c.nextPlayExtraPoint,
      nextPlayKickoff := c.nextPlayKickoff || (endOfHalf && !c.nextPlayExtraPoint),
      endOfHalf := endOfHalf,
      gameOver := Context.NextGameOver(c, between))
  }

  /** The update options describing the pause itself. */
  function BetweenOptions(b: BetweenPlayResult): (o: Context.UpdateOptions)
    ensures o.betweenPlay && !o.endOfGame && o.duration == b.duration
    ensures o.offScore == NoScore && o.defScore == NoScore && !o.turnover
  {
    Context.DefaultOptions().(duration := b.duration, offTimeout := b.offenseTimeout,
                      defTimeout := b.defenseTimeout, betweenPlay := true)
  }

  /** `BetweenPlayResult::next_context`, the only `PlayResult` method the pause
      overrides: nothing happens while a try is pending; otherwise the built
      context is validated and unwrapped, so an `Err` here is a panic. */
  function NextContext(c: Context.ValidContext, b: BetweenPlayResult): (r: Result<Context.ValidContext, Context.ContextError>)
    ensures c.nextPlayExtraPoint ==> r == Ok(c)
    ensures !c.nextPlayExtraPoint ==> (r.Ok? <==> Context.Valid(NextRaw(c, b)))
    ensures r.Ok? ==> r.value.homeScore == c.homeScore && r.value.awayScore == c.awayScore
  {
    if c.nextPlayExtraPoint then Ok(c) else Context.TryFrom(NextRaw(c, b))
  }

  /** Apart from `next_context`, the pause reports the trait's defaults: no
      time off the play clock, no yards, no turnover, no score. */
  function Effects(b: BetweenPlayResult): (e: PlayEffects)
    ensures Neutral(e)
  {
    DefaultEffects()
  }

  /** The first test on an expiring fourth quarter: with 28 seconds left and a
      30-second pause, the half ends and the ball is spotted at the 35 for a
      kickoff by home, which now drives toward 100. */
  lemma ExpiringFourthQuarterAtHomeEnd()
    ensures var c := Context.Default().(homeScore := 52, awayScore := 34, halfSeconds := 28, quarter := 4,
                                        down := 3, distance := 6, yardLine := 4, homePossession := false,
                                        homePositiveDirection := false);
            var b := Default().(duration := 30);
            Context.Valid(c)
            && var r := NextRaw(c, b);
               r.homePossession && r.homePositiveDirection && r.endOfHalf && r.yardLine == 35
               && NextContext(c, b) == Ok(r)
  {
  }

  /** The second test: at the other end of the field the kickoff is spotted at
      the 65, on down 0, and home now drives toward 0. */
  lemma ExpiringFourthQuarterAtAwayEnd()
    ensures var c := Context.Default().(homeScore := 52, awayScore := 34, halfSeconds := 23, quarter := 4,
                                        down := 4, distance := 2, yardLine := 96);
            var b := Default().(duration := 30);
            Context.Valid(c)
            && var r := NextRaw(c, b);
               r.down == 0 && r.homePossession && !r.homePositiveDirection && r.endOfHalf && r.yardLine == 65
               && NextContext(c, b) == Ok(r)
  {
  }

  /** Whenever the pause succeeds it keeps both scores, both names and the
      opening-kickoff side, records a timeout exactly when one was called, and
      ends the half when one had already ended or the clock runs out now. */
  lemma NextContextPreserves(c: Context.ValidContext, b: BetweenPlayResult)
    requires !c.nextPlayExtraPoint
    requires NextContext(c, b).Ok?
    ensures var r := NextContext(c, b).value;
            r.homeScore == c.homeScore && r.awayScore == c.awayScore
            && r.homeTeamShort == c.homeTeamShort && r.awayTeamShort == c.awayTeamShort
            && r.homeOpeningKickoff == c.homeOpeningKickoff
            && (r.lastPlayTimeout <==> b.offenseTimeout || b.defenseTimeout)
            && (r.endOfHalf <==> c.endOfHalf || (Context.Clock(c, BetweenOptions(b)) == 0 && (c.quarter == 2 || c.quarter >= 4)))
  {
  }

  /** Right after a kickoff, with ten minutes left in the first half. */
  function AfterKickoff(): Context.GameContext {
    Context.Default().(nextPlayKickoff := false, lastPlayKickoff := true, down := 1, halfSeconds := 1600,
                       homePossession := false)
  }

  /** As written, a timeout called right after a kickoff keeps the kickoff
      flag and adds the timeout flag, a combination validation rejects, so the
      unwrap panics; a punt is spared only because the builder drops its flag. */
  lemma TimeoutAfterKickoffPanics()
    ensures Context.Valid(AfterKickoff())
    ensures Valid(Default().(defenseTimeout := true))
    ensures NextContext(AfterKickoff(), Default().(defenseTimeout := true)) == Err(Context.KickoffAndTimeout)
  {
  }

  /** As written, a neutral-site game stops being neutral after the first pause. */
  lemma NeutralSiteLost()
    ensures var c := AfterKickoff().(lastPlayKickoff := false, neutralSite := true);
            Context.Valid(c) && NextContext(c, Default()).Ok? && !NextContext(c, Default()).value.neutralSite
  {
  }

  /** The pause with three corrections: the venue is carried over, a timeout
      replaces the previous kickoff as the last thing that happened (as the
      builder already does for a punt), and the distance is limited to the
      yards left to the goal line. */
  function NextRawCorrected(c: Context.GameContext, b: BetweenPlayResult): (r: Context.GameContext)
    ensures r.neutralSite == c.neutralSite
    ensures r.lastPlayKickoff <==> c.lastPlayKickoff && !(b.offenseTimeout || b.defenseTimeout)
    ensures r.distance <= Context.YardsToTouchdown(r)
  {
    Context.CapDistance(NextRaw(c, b).(neutralSite := c.neutralSite,
                                       lastPlayKickoff := c.lastPlayKickoff && !(b.offenseTimeout || b.defenseTimeout)))
  }

  function NextContextCorrected(c: Context.ValidContext, b: BetweenPlayResult): (r: Result<Context.ValidContext, Context.ContextError>)
    ensures c.nextPlayExtraPoint ==> r == Ok(c)
    ensures r.Ok? ==> r.value.neutralSite == c.neutralSite
  {
    if c.nextPlayExtraPoint then Ok(c) else Context.TryFrom(NextRawCorrected(c, b))
  }

  /** The corrected pause never fails validation on a valid context and a
      valid pause, unless the context is itself the product of a pause at the
      end of a half (the clock already turned over to 1800 or 600; two pauses
      in a row at a half's end are not something the game loop produces) or
      ends a half before the second quarter. */
  lemma NextContextCorrectedValid(c: Context.ValidContext, b: BetweenPlayResult)
    requires Valid(b)
    requires c.endOfHalf ==> c.halfSeconds == 0 && c.quarter >= 2
    ensures NextContextCorrected(c, b).Ok?
  {
    if !c.nextPlayExtraPoint {
      var r := NextRawCorrected(c, b);
      assert r.yardLine <= 100;
      assert Context.ClockValid(r);
      assert Context.FlagsValid(r);
      assert Context.EndingsValid(r);
    }
  }

  /** On the two inputs above, the corrected pause succeeds and keeps the venue. */
  lemma CorrectedOnCounterexamples()
    ensures NextContextCorrected(AfterKickoff(), Default().(defenseTimeout := true)).Ok?
    ensures var c := AfterKickoff().(lastPlayKickoff := false, neutralSite := true);
            NextContextCorrected(c, Default()).Ok? && NextContextCorrected(c, Default()).value.neutralSite
  {
    Context.DefaultIsValid();
    assert Context.Valid(AfterKickoff());
    NextContextCorrectedValid(AfterKickoff(), Default().(defenseTimeout := true));
    NextContextCorrectedValid(AfterKickoff().(lastPlayKickoff := false, neutralSite := true), Default());
  }
}
