/** Plays and drives (src/game/play.rs): a drive is the list of plays run by
    one offense, its outcome once decided, and whether it is over. The random
    play simulator is replaced by its outputs, the play result and the pause
    after it, which are parameters here. */
module Drives {
  import opened Wrappers
  import PlayResult
  import Context
  import PlayType
  import Run
  import Pass
  import FG = FieldGoal
  import BetweenPlay
  import Stats

  /** A play: the context at the snap, the result, and the pause after it. */
  datatype Play = Play(context: Context.GameContext, result: PlayType.PlayTypeResult,
                       postPlay: BetweenPlay.ValidBetweenPlayResult)

  datatype DriveResult =
    NoResult | Punt | FieldGoal | FieldGoalMissed | Touchdown | Safety
    | Interception | PickSix | Fumble | ScoopAndScore | Downs | EndOfHalf

  /** The three touchdown outcomes, after which the try is still to come. */
  predicate TouchdownKind(r: DriveResult) {
    r == Touchdown || r == PickSix || r == ScoopAndScore
  }

  /** An outcome that ends the drive at once. */
  predicate Terminal(r: DriveResult) {
    r != NoResult && !TouchdownKind(r)
  }

  datatype Drive = Drive(plays: seq<Play>, result: DriveResult, complete: bool)

  /** `Drive::new`: no plays, no outcome, not complete. */
  function NewDrive(): Drive {
    Drive([], NoResult, false)
  }

  /** The outcome and completion flag agree: a drive with no outcome is still
      running and a terminal outcome has ended it. */
  predicate WellFormed(d: Drive) {
    (d.result == NoResult ==> !d.complete) && (Terminal(d.result) ==> d.complete)
  }

  // ---------------------------------------------------------------------
  // One snap
  // ---------------------------------------------------------------------

  /** Why a simulation step fails: the drive had already been decided, or a
      context failed validation where the source unwraps it. */
  datatype SimError = DriveDecided(result: DriveResult) | InvalidContext(error: Context.ContextError)

  /** The deterministic part of `PlaySimulator::sim`: the play's result moves
      the context on, and so does the pause after it. */
  function PlayStep(c: Context.ValidContext, result: PlayType.PlayTypeResult,
                    between: BetweenPlay.ValidBetweenPlayResult): (r: Result<Context.ValidContext, SimError>)
    ensures r.Ok? ==> PlayType.NextContext(c, result).Ok?
    ensures r.Ok? ==> BetweenPlay.NextContext(PlayType.NextContext(c, result).value, between) == Ok(r.value)
    ensures r.Ok? ==> r.value.homeScore >= c.homeScore && r.value.awayScore >= c.awayScore
    ensures PlayType.NextContext(c, result).Err? ==> r == Err(InvalidContext(PlayType.NextContext(c, result).error))
  {
    match PlayType.NextContext(c, result)
    case Err(e) => Err(InvalidContext(e))
    case Ok(afterPlay) =>
      match BetweenPlay.NextContext(afterPlay, between)
      case Err(e) => Err(InvalidContext(e))
      case Ok(afterPause) => Ok(afterPause)
  }

  /** Whether the play's ball carrier lost a fumble, read as the source reads
      it for each kind of play (a blocked kick counts as one). */
  predicate LostFumble(r: PlayType.PlayTypeResult) {
    if r.Run? then r.run.fumble
    else if r.Pass? then r.pass.fumble
    else if r.FieldGoal? then r.fieldGoal.blocked
    else if r.Punt? then r.puntFumble
    else if r.Kickoff? then r.kickoff.fumble
    else if r.QbKneel? then r.kneel.fumble
    else if r.QbSpike? then r.spike.fumble
    else false
  }

  /** A touchdown was scored on the play, by either side. */
  predicate TouchdownScored(r: PlayType.PlayTypeResult) {
    PlayType.Effects(r).offenseScore == PlayResult.Touchdown
    || PlayType.Effects(r).defenseScore == PlayResult.Touchdown
  }

  /** The drive-outcome rules of `DriveSimulator::sim_play`, applied in the
      source's order so that each later rule overrides the earlier ones:
      field goal made or missed, punt, touchdown, safety, interception, fumble,
      turnover on downs, end of half. */
  function Classify(prev: Context.GameContext, result: PlayType.PlayTypeResult, next: Context.GameContext): (r: (DriveResult, bool))
    ensures r.1 <==> Terminal(r.0)
    ensures TouchdownKind(r.0) ==> TouchdownScored(result)
    ensures r.0 == NoResult ==> !TouchdownScored(result) && !result.Punt?
    ensures (((prev.quarter == 2 || prev.quarter >= 4) && prev.quarter != next.quarter) || next.gameOver)
            <==> r.0 == EndOfHalf
  {
    var e := PlayType.Effects(result);
    var afterFumble := PlayOutcome(result);
    var downs := prev.down == 4 && next.down == 1 && !e.turnover
                 && prev.homePossession != next.homePossession && e.netYards < prev.distance;
    var afterDowns := if downs then (Downs, true) else afterFumble;
    var endOfHalf := ((prev.quarter == 2 || prev.quarter >= 4) && prev.quarter != next.quarter) || next.gameOver;
    if endOfHalf then (EndOfHalf, true) else afterDowns
  }

  /** The rules that look at the play alone, up to the fumble rule. */
  function PlayOutcome(result: PlayType.PlayTypeResult): (r: (DriveResult, bool))
    ensures r.1 <==> Terminal(r.0)
    ensures TouchdownKind(r.0) ==> TouchdownScored(result)
    ensures r.0 == NoResult ==> !TouchdownScored(result) && !result.Punt?
    ensures r.0 != EndOfHalf && r.0 != Downs
  {
    var e := PlayType.Effects(result);
    var afterFieldGoal := if result.FieldGoal? && result.fieldGoal.made then (FieldGoal, true) else (NoResult, false);
    var afterMiss := if result.FieldGoal? && FG.Missed(result.fieldGoal) then (FieldGoalMissed, true) else afterFieldGoal;
    var afterPunt := if result.Punt? then (Punt, true) else afterMiss;
    var touchdown := e.offenseScore == PlayResult.Touchdown || e.defenseScore == PlayResult.Touchdown;
    var afterTouchdown := if touchdown then (Touchdown, false) else afterPunt;
    var afterSafety := if e.defenseScore == PlayResult.Safety then (Safety, true) else afterTouchdown;
    var interception := e.turnover && result.Pass? && result.pass.interception;
    var afterInterception := if !interception then afterSafety
                             else if touchdown then (PickSix, false) else (Interception, true);
    var fumble := e.turnover && LostFumble(result);
    if !fumble then afterInterception
    else if touchdown then (ScoopAndScore, false) else (Fumble, true)
  }

  /** `DriveSimulator::sim_play`: refuses a drive already decided other than
      by a touchdown; otherwise runs the play, appends it and records the
      outcome. The play after a touchdown (the try) ends the drive and keeps
      the touchdown as its outcome. */
  function SimPlay(d: Drive, c: Context.ValidContext, result: PlayType.PlayTypeResult,
                   between: BetweenPlay.ValidBetweenPlayResult): (r: Result<(Drive, Context.ValidContext), SimError>)
    ensures Terminal(d.result) <==> r == Err(DriveDecided(d.result))
    ensures r.Ok? ==> r.value.0.plays == d.plays + [Play(c, result, between)]
    ensures r.Ok? && TouchdownKind(d.result) ==> r.value.0.result == d.result && r.value.0.complete
    ensures r.Ok? && d.result == NoResult ==> r.value.0.result == Classify(c, result, r.value.1).0
    ensures r.Ok? ==> WellFormed(r.value.0)
  {
    if !(d.result == NoResult || TouchdownKind(d.result)) then Err(DriveDecided(d.result))
    else
      match PlayStep(c, result, between)
      case Err(e) => Err(e)
      case Ok(next) =>
        var outcome := if d.result == NoResult then Classify(c, result, next) else (d.result, true);
        Ok((Drive(d.plays + [Play(c, result, between)], outcome.0, outcome.1), next))
  }

  /** A drive decided by a touchdown ends with the next play, whatever it is,
      and the touchdown stays its outcome. */
  lemma TryEndsDrive(d: Drive, c: Context.ValidContext, result: PlayType.PlayTypeResult,
                     between: BetweenPlay.ValidBetweenPlayResult)
    requires TouchdownKind(d.result)
    requires SimPlay(d, c, result, between).Ok?
    ensures SimPlay(d, c, result, between).value.0.complete
    ensures SimPlay(d, c, result, between).value.0.result == d.result
  {
  }

  /** A made field goal ends the drive, outside the last plays of a half and
      short of fourth down. */
  lemma FieldGoalEndsDrive(prev: Context.GameContext, f: FG.ValidFieldGoalResult, next: Context.GameContext)
    requires f.made
    requires prev.quarter == next.quarter == 1 && prev.down < 4 && !next.gameOver
    ensures Classify(prev, PlayType.FieldGoal(f), next) == (FieldGoal, true)
  {
    FG.ValidEffects(f);
    assert PlayType.Effects(PlayType.FieldGoal(f)) == FG.Effects(f);
  }

  /** A punt returned for a touchdown is a touchdown still awaiting its try. */
  lemma PuntReturnTouchdown(prev: Context.GameContext, next: Context.GameContext)
    requires prev.quarter == next.quarter == 1 && prev.down < 4 && !next.gameOver
    ensures var e := PlayResult.DefaultEffects().(defenseScore := PlayResult.Touchdown, turnover := true);
            Classify(prev, PlayType.Punt(e, false), next) == (Touchdown, false)
  {
  }

  // ---------------------------------------------------------------------
  // Drive statistics
  // ---------------------------------------------------------------------

  function AddRushing(a: Stats.RushingStats, b: Stats.RushingStats): Stats.RushingStats {
    Stats.RushingStats(a.rushes + b.rushes, a.fumbles + b.fumbles, a.touchdowns + b.touchdowns, a.yards + b.yards)
  }

  function AddPassing(a: Stats.PassingStats, b: Stats.PassingStats): Stats.PassingStats {
    Stats.PassingStats(a.attempts + b.attempts, a.completions + b.completions, a.touchdowns + b.touchdowns,
                       a.interceptions + b.interceptions, a.yards + b.yards)
  }

  function AddReceiving(a: Stats.ReceivingStats, b: Stats.ReceivingStats): Stats.ReceivingStats {
    Stats.ReceivingStats(a.targets + b.targets, a.receptions + b.receptions, a.touchdowns + b.touchdowns,
                         a.fumbles + b.fumbles, a.yards + b.yards)
  }

  function Count(b: bool): nat {
    if b then 1 else 0
  }

  /** What one play adds to the rushing line: a designed run or a scramble,
      two-point tries excepted, is a rush for its net yards. */
  function RushingDelta(r: PlayType.PlayTypeResult): Stats.RushingStats {
    if r.Run? && !r.run.twoPointConversion then
      Stats.RushingStats(1, Count(r.run.fumble), Count(r.run.touchdown), Run.NetYards(r.run))
    else if r.Pass? && r.pass.scramble && !r.pass.twoPointConversion then
      Stats.RushingStats(1, Count(r.pass.fumble), Count(r.pass.touchdown), Pass.NetYards(r.pass))
    else Stats.NewRushing()
  }

  /** What one play adds to the passing line: a dropback that is neither a
      sack nor a scramble is an attempt; completions and sacks count their net
      yards; two-point tries count for nothing. */
  function PassingDelta(r: PlayType.PlayTypeResult): Stats.PassingStats {
    if r.Pass? && !r.pass.twoPointConversion then
      var p := r.pass;
      Stats.PassingStats(Count(!(p.scramble || p.sack)), Count(p.complete), Count(p.complete && p.touchdown),
                         Count(p.interception), if p.complete || p.sack then Pass.NetYards(p) else 0)
    else Stats.NewPassing()
  }

  /** What one play adds to the receiving line: every attempt is a target,
      and a completion is a reception for its net yards. */
  function ReceivingDelta(r: PlayType.PlayTypeResult): Stats.ReceivingStats {
    if r.Pass? && !r.pass.twoPointConversion then
      var p := r.pass;
      Stats.ReceivingStats(Count(!(p.scramble || p.sack)), Count(p.complete), Count(p.complete && p.touchdown),
                           Count(p.complete && p.fumble), if p.complete then Pass.NetYards(p) else 0)
    else Stats.NewReceiving()
  }

  /** The rushing line of a list of plays: the sum of what each adds. */
  function RushingOf(plays: seq<Play>): Stats.RushingStats {
    if |plays| == 0 then Stats.NewRushing()
    else AddRushing(RushingOf(plays[..|plays| - 1]), RushingDelta(plays[|plays| - 1].result))
  }

  function PassingOf(plays: seq<Play>): Stats.PassingStats {
    if |plays| == 0 then Stats.NewPassing()
    else AddPassing(PassingOf(plays[..|plays| - 1]), PassingDelta(plays[|plays| - 1].result))
  }

  function ReceivingOf(plays: seq<Play>): Stats.ReceivingStats {
    if |plays| == 0 then Stats.NewReceiving()
    else AddReceiving(ReceivingOf(plays[..|plays| - 1]), ReceivingDelta(plays[|plays| - 1].result))
  }

  /** The body of the source's rushing loop, written with the counters'
      increment operations. */
  function RushingStep(s: Stats.RushingStats, r: PlayType.PlayTypeResult): (s': Stats.RushingStats)
    ensures s' == AddRushing(s, RushingDelta(r))
  {
    if r.Run? then
      if r.run.twoPointConversion then s
      else
        var counted := Stats.IncrementRushingYards(Stats.IncrementRushes(s), Run.NetYards(r.run));
        var withTouchdown := if r.run.touchdown then Stats.IncrementRushingTouchdowns(counted) else counted;
        if r.run.fumble then Stats.IncrementRushingFumbles(withTouchdown) else withTouchdown
    else if r.Pass? then
      if r.pass.scramble && !r.pass.twoPointConversion then
        var counted := Stats.IncrementRushingYards(Stats.IncrementRushes(s), Pass.NetYards(r.pass));
        var withTouchdown := if r.pass.touchdown then Stats.IncrementRushingTouchdowns(counted) else counted;
        if r.pass.fumble then Stats.IncrementRushingFumbles(withTouchdown) else withTouchdown
      else s
    else s
  }

  /** The body of the source's passing loop. */
  function PassingStep(s: Stats.PassingStats, r: PlayType.PlayTypeResult): (s': Stats.PassingStats)
    ensures s' == AddPassing(s, PassingDelta(r))
  {
    if r.Pass? && !r.pass.twoPointConversion then
      var p := r.pass;
      var attempted := if !(p.scramble || p.sack) then Stats.IncrementAttempts(s) else s;
      var gained :=
        if p.complete then
          var completed := Stats.IncrementPassingYards(Stats.IncrementCompletions(attempted), Pass.NetYards(p));
          if p.touchdown then Stats.IncrementPassingTouchdowns(completed) else completed
        else if p.sack then Stats.IncrementPassingYards(attempted, Pass.NetYards(p))
        else attempted;
      if p.interception then Stats.IncrementInterceptions(gained) else gained
    else s
  }

  /** The body of the source's receiving loop. */
  function ReceivingStep(s: Stats.ReceivingStats, r: PlayType.PlayTypeResult): (s': Stats.ReceivingStats)
    ensures s' == AddReceiving(s, ReceivingDelta(r))
  {
    if r.Pass? && !r.pass.twoPointConversion then
      var p := r.pass;
      var targeted := if !(p.scramble || p.sack) then Stats.IncrementTargets(s, 1) else s;
      if p.complete then
        var caught := Stats.IncrementReceivingYards(Stats.IncrementReceptions(targeted, 1), Pass.NetYards(p));
        var withTouchdown := if p.touchdown then Stats.IncrementReceivingTouchdowns(caught, 1) else caught;
        if p.fumble then Stats.IncrementReceivingFumbles(withTouchdown, 1) else withTouchdown
      else targeted
    else s
  }

  /** `Drive::rushing_stats`. */
  method DriveRushingStats(d: Drive) returns (s: Stats.RushingStats)
    ensures s == RushingOf(d.plays)
  {
    s := Stats.NewRushing();
    var i := 0;
    while i < |d.plays|
      invariant 0 <= i <= |d.plays|
      invariant s == RushingOf(d.plays[..i])
    {
      assert d.plays[..i + 1][..i] == d.plays[..i];
      s := RushingStep(s, d.plays[i].result);
      i := i + 1;
    }
    assert d.plays[..|d.plays|] == d.plays;
  }

  /** `Drive::passing_stats`. */
  method DrivePassingStats(d: Drive) returns (s: Stats.PassingStats)
    ensures s == PassingOf(d.plays)
  {
    s := Stats.NewPassing();
    var i := 0;
    while i < |d.plays|
      invariant 0 <= i <= |d.plays|
      invariant s == PassingOf(d.plays[..i])
    {
      assert d.plays[..i + 1][..i] == d.plays[..i];
      s := PassingStep(s, d.plays[i].result);
      i := i + 1;
    }
    assert d.plays[..|d.plays|] == d.plays;
  }

  /** Every touchdown and fumble on the rushing line belongs to a counted rush. */
  lemma {:induction false} RushingBounds(plays: seq<Play>)
    ensures RushingOf(plays).touchdowns <= RushingOf(plays).rushes
    ensures RushingOf(plays).fumbles <= RushingOf(plays).rushes
  {
    if |plays| > 0 {
      RushingBounds(plays[..|plays| - 1]);
    }
  }

  /** Completions and interceptions are attempts (a sack or scramble is
      neither), and a passing touchdown is a completion. */
  lemma {:induction false} PassingBounds(plays: seq<Play>)
    ensures PassingOf(plays).completions <= PassingOf(plays).attempts
    ensures PassingOf(plays).interceptions <= PassingOf(plays).attempts
    ensures PassingOf(plays).touchdowns <= PassingOf(plays).completions
  {
    if |plays| > 0 {
      PassingBounds(plays[..|plays| - 1]);
    }
  }

  /** The receiving line mirrors the passing line: every attempt is a target,
      every completion a reception, every passing touchdown a receiving one. */
  lemma {:induction false} ReceivingMirrorsPassing(plays: seq<Play>)
    ensures ReceivingOf(plays).targets == PassingOf(plays).attempts
    ensures ReceivingOf(plays).receptions == PassingOf(plays).completions
    ensures ReceivingOf(plays).touchdowns == PassingOf(plays).touchdowns
    ensures ReceivingOf(plays).fumbles <= ReceivingOf(plays).receptions
  {
    if |plays| > 0 {
      ReceivingMirrorsPassing(plays[..|plays| - 1]);
    }
  }

  /** The yards a play adds to the drive total: net yards of runs and passes
      only. */
  function PlayYards(r: PlayType.PlayTypeResult): int {
    if r.Run? then Run.NetYards(r.run)
    else if r.Pass? then Pass.NetYards(r.pass)
    else 0
  }

  function TotalYardsOf(plays: seq<Play>): int {
    if |plays| == 0 then 0 else TotalYardsOf(plays[..|plays| - 1]) + PlayYards(plays[|plays| - 1].result)
  }

  /** `Drive::total_yards`. */
  method TotalYards(d: Drive) returns (yards: int)
    ensures yards == TotalYardsOf(d.plays)
    ensures |d.plays| == 0 ==> yards == 0
  {
    yards := 0;
    var i := 0;
    while i < |d.plays|
      invariant 0 <= i <= |d.plays|
      invariant yards == TotalYardsOf(d.plays[..i])
    {
      assert d.plays[..i + 1][..i] == d.plays[..i];
      yards := yards + PlayYards(d.plays[i].result);
      i := i + 1;
    }
    assert d.plays[..|d.plays|] == d.plays;
  }

  /** Yardage adds up over consecutive stretches of a drive. */
  lemma {:induction false} TotalYardsSplit(a: seq<Play>, b: seq<Play>)
    ensures TotalYardsOf(a + b) == TotalYardsOf(a) + TotalYardsOf(b)
  {
    if |b| > 0 {
      assert (a + b)[..|a + b| - 1] == a + b[..|b| - 1];
      TotalYardsSplit(a, b[..|b| - 1]);
    } else {
      assert a + b == a;
    }
  }

  /** A run or a pass, the only plays that gain yards from scrimmage. */
  predicate FromScrimmage(r: PlayType.PlayTypeResult) {
    r.Run? || r.Pass?
  }

  /** What a play other than a run or a pass adds: nothing. */
  lemma NonScrimmagePlay(r: PlayType.PlayTypeResult)
    requires !FromScrimmage(r)
    ensures PlayYards(r) == 0
    ensures RushingDelta(r) == Stats.NewRushing() && PassingDelta(r) == Stats.NewPassing()
  {
  }

  /** No play of the list is a run or a pass. */
  predicate NoScrimmage(plays: seq<Play>) {
    forall i :: 0 <= i < |plays| ==> !FromScrimmage(plays[i].result)
  }

  /** Plays other than runs and passes (kicks, kneels, spikes, pauses) add
      nothing to the yardage total or to the rushing line: a quarterback
      kneel is not counted as a rush. */
  lemma {:induction false} OnlyScrimmageCounts(plays: seq<Play>)
    requires NoScrimmage(plays)
    ensures TotalYardsOf(plays) == 0
    ensures RushingOf(plays).rushes == 0 && RushingOf(plays).yards == 0
  {
    if |plays| > 0 {
      var prefix := plays[..|plays| - 1];
      assert NoScrimmage(prefix) by {
        forall i | 0 <= i < |prefix| ensures !FromScrimmage(prefix[i].result) {
          assert prefix[i] == plays[i];
        }
      }
      OnlyScrimmageCounts(prefix);
      NonScrimmagePlay(plays[|plays| - 1].result);
    }
  }
}
