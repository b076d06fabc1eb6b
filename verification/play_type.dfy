/** `PlayTypeResult` (src/game/play/result.rs): the result of any kind of
    play, which answers every `PlayResult` query by asking the result it wraps.
    A punt is carried as the effects it reports, since the punt result type
    itself is not part of this model, together with whether the return was
    fumbled. */
module PlayType {
  import opened Wrappers
  import opened PlayResult
  import Context
  import Run
  import Pass
  import FieldGoal
  import Kickoff
  import BetweenPlay
  import Transitions

  datatype PlayTypeResult =
    | BetweenPlay(pause: BetweenPlay.ValidBetweenPlayResult)
    | Run(run: Run.ValidRunResult)
    | Pass(pass: Pass.ValidPassResult)
    | FieldGoal(fieldGoal: FieldGoal.ValidFieldGoalResult)
    | Punt(punt: PlayEffects, puntFumble: bool)
    | Kickoff(kickoff: Kickoff.ValidKickoffResult)
    | ExtraPoint(extraPoint: FieldGoal.ValidFieldGoalResult)
    | QbKneel(kneel: Run.ValidRunResult)
    | QbSpike(spike: Pass.ValidPassResult)

  /** The answers to the fourteen queries: those of the wrapped result. */
  function Effects(p: PlayTypeResult): (e: PlayEffects)
    ensures p.BetweenPlay? ==> Neutral(e)
    ensures !p.Punt? ==> (e.kickoff <==> p.Kickoff?)
    ensures !p.Punt? ==> !e.punt && !e.offenseTimeout && !e.defenseTimeout
    ensures (p.Run? || p.QbKneel?) ==> !e.incomplete && !e.outOfBounds
    ensures !p.Punt? ==> Consistent(e)
    ensures p.Punt? ==> e == p.punt
  {
    match p
    case BetweenPlay(b) => BetweenPlay.Effects(b)
    case Run(r) => Run.ValidEffects(r); Run.Effects(r)
    case Pass(x) => Pass.ValidEffects(x); Pass.Effects(x)
    case FieldGoal(f) => FieldGoal.ValidEffects(f); FieldGoal.Effects(f)
    case Punt(e, _) => e
    case Kickoff(k) => Kickoff.EffectsScoreOnce(k); Kickoff.Effects(k)
    case ExtraPoint(f) => FieldGoal.ValidEffects(f); FieldGoal.Effects(f)
    case QbKneel(r) => Run.ValidEffects(r); Run.Effects(r)
    case QbSpike(x) => Pass.ValidEffects(x); Pass.Effects(x)
  }

  /** `next_context`: the pause between plays has its own transition; every
      other result goes through the game context's, fed with its effects. */
  function NextContext(c: Context.ValidContext, p: PlayTypeResult): (r: Result<Context.ValidContext, Context.ContextError>)
    ensures p.BetweenPlay? ==> r == BetweenPlay.NextContext(c, p.pause)
    ensures !p.BetweenPlay? ==> r == Context.NextContext(c, Effects(p))
    ensures r.Ok? ==> r.value.homeScore >= c.homeScore && r.value.awayScore >= c.awayScore
  {
    match p
    case BetweenPlay(b) => BetweenPlay.NextContext(c, b)
    case _ =>
      var r := Context.NextContext(c, Effects(p));
      assert r.Ok? ==> r.value == Context.NextRaw(c, Effects(p));
      r
  }

  /** The same dispatch over the corrected transitions. */
  function NextContextCorrected(c: Context.ValidContext, p: PlayTypeResult): (r: Result<Context.ValidContext, Context.ContextError>)
    ensures p.BetweenPlay? ==> r == BetweenPlay.NextContextCorrected(c, p.pause)
    ensures !p.BetweenPlay? ==> r == Transitions.NextContextCorrected(c, Effects(p))
  {
    match p
    case BetweenPlay(b) => BetweenPlay.NextContextCorrected(c, b)
    case _ => Transitions.NextContextCorrected(c, Effects(p))
  }

  /** With both corrections, a valid context and any result of a real play
      always yield a valid next context, so the program's `unwrap` never
      fires. The end of a half is reached with the clock at zero; a play
      other than the pause is never run straight from the end of the first
      half, and a punt reports consistent effects. */
  lemma NextContextCorrectedAlwaysValid(c: Context.ValidContext, p: PlayTypeResult)
    requires c.endOfHalf ==> c.halfSeconds == 0 && c.quarter >= 2
    requires !p.BetweenPlay? ==> !(c.endOfHalf && c.quarter == 2)
    requires p.Punt? ==> Consistent(p.punt)
    ensures NextContextCorrected(c, p).Ok?
  {
    if p.BetweenPlay? {
      BetweenPlay.NextContextCorrectedValid(c, p.pause);
    } else {
      Transitions.NextContextCorrectedValid(c, Effects(p));
    }
  }
}
