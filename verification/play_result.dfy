/** What a finished play reports to the game state (src/game/play/result.rs):
    the `PlayResult` trait's fourteen queries, collected in one record, and
    the scoring outcomes with their point values. */
module PlayResult {

  /** `ScoreResult`; the source's `None` variant is called `NoScore` here so
      that it does not clash with `Option`'s `None`. */
  datatype ScoreResult = NoScore | ExtraPoint | TwoPointConversion | Safety | FieldGoal | Touchdown

  /** `ScoreResult::default`. */
  function DefaultScore(): ScoreResult {
    NoScore
  }

  /** `ScoreResult::points`. */
  function Points(s: ScoreResult): (p: nat)
    ensures p <= 6
    ensures p == 0 <==> s == NoScore
  {
    match s
    case NoScore => 0
    case ExtraPoint => 1
    case TwoPointConversion => 2
    case Safety => 2
    case FieldGoal => 3
    case Touchdown => 6
  }

  /** The values of every `PlayResult` query for one play. */
  datatype PlayEffects = PlayEffects(
    playDuration: nat,
    netYards: int,
    turnover: bool,
    offenseScore: ScoreResult,
    defenseScore: ScoreResult,
    offenseTimeout: bool,
    defenseTimeout: bool,
    incomplete: bool,
    outOfBounds: bool,
    touchback: bool,
    kickoff: bool,
    punt: bool,
    nextPlayKickoff: bool,
    nextPlayExtraPoint: bool)

  /** The flag combinations a real play result produces, and the ones the game
      context's validator depends on: one side scores at most, the incomplete,
      out-of-bounds, timeout, kickoff and punt flags do not clash, a follow-up
      try is never also a kickoff, a try follows only a touchdown, an offensive
      touchdown keeps the ball and a defensive one changes hands. */
  predicate Consistent(e: PlayEffects) {
    (e.offenseScore == NoScore || e.defenseScore == NoScore)
    && !(e.incomplete && e.outOfBounds)
    && !(e.kickoff && (e.offenseTimeout || e.defenseTimeout))
    && !(e.punt && (e.offenseTimeout || e.defenseTimeout))
    && !(e.punt && e.kickoff)
    && !(e.nextPlayKickoff && e.nextPlayExtraPoint)
    && (e.nextPlayExtraPoint ==> e.offenseScore == Touchdown || e.defenseScore == Touchdown)
    && (e.offenseScore == Touchdown ==> !e.turnover)
    && (e.defenseScore == Touchdown ==> e.turnover)
  }

  /** The trait's default methods: what a result that overrides nothing reports. */
  function DefaultEffects(): PlayEffects {
    PlayEffects(0, 0, false, NoScore, NoScore, false, false, false, false, false, false, false, false, false)
  }

  /** True when the effects score nothing and move nothing. */
  predicate Neutral(e: PlayEffects) {
    e.playDuration == 0 && e.netYards == 0 && !e.turnover
    && Points(e.offenseScore) == 0 && Points(e.defenseScore) == 0
    && !e.offenseTimeout && !e.defenseTimeout && !e.incomplete && !e.outOfBounds
    && !e.touchback && !e.kickoff && !e.punt && !e.nextPlayKickoff && !e.nextPlayExtraPoint
  }

  /** The point values, the doc example (a field goal is worth 3), and the
      default score, which is worth nothing. */
  lemma PointsTable()
    ensures Points(NoScore) == 0 && Points(ExtraPoint) == 1 && Points(TwoPointConversion) == 2
    ensures Points(Safety) == 2 && Points(FieldGoal) == 3 && Points(Touchdown) == 6
    ensures Points(DefaultScore()) == 0
  {
  }

  /** A result that overrides nothing is neutral: it takes no time, gains no
      yards and scores nothing. */
  lemma DefaultEffectsAreNeutral()
    ensures Neutral(DefaultEffects())
  {
  }
}
