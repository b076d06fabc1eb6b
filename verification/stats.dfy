/** Per-player-group box-score counters (src/game/stat.rs). Every counter is a
    `u32` except the yardage, which is a signed `i32`; the model uses `nat` and
    `int` and does not model overflow. */
module Stats {

  datatype RushingStats = RushingStats(rushes: nat, fumbles: nat, touchdowns: nat, yards: int)

  datatype PassingStats = PassingStats(attempts: nat, completions: nat, touchdowns: nat, interceptions: nat, yards: int)

  datatype ReceivingStats = ReceivingStats(targets: nat, receptions: nat, touchdowns: nat, fumbles: nat, yards: int)

  /** `RushingStats::new`: everything zero. */
  function NewRushing(): RushingStats {
    RushingStats(0, 0, 0, 0)
  }

  /** `PassingStats::new`: everything zero. */
  function NewPassing(): PassingStats {
    PassingStats(0, 0, 0, 0, 0)
  }

  /** `ReceivingStats::new`: everything zero. */
  function NewReceiving(): ReceivingStats {
    ReceivingStats(0, 0, 0, 0, 0)
  }

  /** True when the two rushing records differ at most in the named counter. */
  predicate RushingAgreeExcept(a: RushingStats, b: RushingStats, field: string) {
    (field == "rushes" || a.rushes == b.rushes)
    && (field == "fumbles" || a.fumbles == b.fumbles)
    && (field == "touchdowns" || a.touchdowns == b.touchdowns)
    && (field == "yards" || a.yards == b.yards)
  }

  predicate PassingAgreeExcept(a: PassingStats, b: PassingStats, field: string) {
    (field == "attempts" || a.attempts == b.attempts)
    && (field == "completions" || a.completions == b.completions)
    && (field == "touchdowns" || a.touchdowns == b.touchdowns)
    && (field == "interceptions" || a.interceptions == b.interceptions)
    && (field == "yards" || a.yards == b.yards)
  }

  predicate ReceivingAgreeExcept(a: ReceivingStats, b: ReceivingStats, field: string) {
    (field == "targets" || a.targets == b.targets)
    && (field == "receptions" || a.receptions == b.receptions)
    && (field == "touchdowns" || a.touchdowns == b.touchdowns)
    && (field == "fumbles" || a.fumbles == b.fumbles)
    && (field == "yards" || a.yards == b.yards)
  }

  function IncrementRushes(s: RushingStats): (s': RushingStats)
    ensures s'.rushes == s.rushes + 1
    ensures RushingAgreeExcept(s, s', "rushes")
  {
    s.(rushes := s.rushes + 1)
  }

  function IncrementRushingFumbles(s: RushingStats): (s': RushingStats)
    ensures s'.fumbles == s.fumbles + 1
    ensures RushingAgreeExcept(s, s', "fumbles")
  {
    s.(fumbles := s.fumbles + 1)
  }

  function IncrementRushingTouchdowns(s: RushingStats): (s': RushingStats)
    ensures s'.touchdowns == s.touchdowns + 1
    ensures RushingAgreeExcept(s, s', "touchdowns")
  {
    s.(touchdowns := s.touchdowns + 1)
  }

  function IncrementRushingYards(s: RushingStats, yards: int): (s': RushingStats)
    ensures s'.yards - s.yards == yards
    ensures RushingAgreeExcept(s, s', "yards")
  {
    s.(yards := s.yards + yards)
  }

  function IncrementAttempts(s: PassingStats): (s': PassingStats)
    ensures s'.attempts == s.attempts + 1
    ensures PassingAgreeExcept(s, s', "attempts")
  {
    s.(attempts := s.attempts + 1)
  }

  function IncrementCompletions(s: PassingStats): (s': PassingStats)
    ensures s'.completions == s.completions + 1
    ensures PassingAgreeExcept(s, s', "completions")
  {
    s.(completions := s.completions + 1)
  }

  function IncrementPassingTouchdowns(s: PassingStats): (s': PassingStats)
    ensures s'.touchdowns == s.touchdowns + 1
    ensures PassingAgreeExcept(s, s', "touchdowns")
  {
    s.(touchdowns := s.touchdowns + 1)
  }

  function IncrementInterceptions(s: PassingStats): (s': PassingStats)
    ensures s'.interceptions == s.interceptions + 1
    ensures PassingAgreeExcept(s, s', "interceptions")
  {
    s.(interceptions := s.interceptions + 1)
  }

  function IncrementPassingYards(s: PassingStats, yards: int): (s': PassingStats)
    ensures s'.yards - s.yards == yards
    ensures PassingAgreeExcept(s, s', "yards")
  {
    s.(yards := s.yards + yards)
  }

  function IncrementTargets(s: ReceivingStats, n: nat): (s': ReceivingStats)
    ensures s'.targets == s.targets + n
    ensures ReceivingAgreeExcept(s, s', "targets")
  {
    s.(targets := s.targets + n)
  }

  function IncrementReceptions(s: ReceivingStats, n: nat): (s': ReceivingStats)
    ensures s'.receptions == s.receptions + n
    ensures ReceivingAgreeExcept(s, s', "receptions")
  {
    s.(receptions := s.receptions + n)
  }

  function IncrementReceivingTouchdowns(s: ReceivingStats, n: nat): (s': ReceivingStats)
    ensures s'.touchdowns == s.touchdowns + n
    ensures ReceivingAgreeExcept(s, s', "touchdowns")
  {
    s.(touchdowns := s.touchdowns + n)
  }

  function IncrementReceivingFumbles(s: ReceivingStats, n: nat): (s': ReceivingStats)
    ensures s'.fumbles == s.fumbles + n
    ensures ReceivingAgreeExcept(s, s', "fumbles")
  {
    s.(fumbles := s.fumbles + n)
  }

  function IncrementReceivingYards(s: ReceivingStats, yards: int): (s': ReceivingStats)
    ensures s'.yards - s.yards == yards
    ensures ReceivingAgreeExcept(s, s', "yards")
  {
    s.(yards := s.yards + yards)
  }

  /** Every constructor yields a record whose counters are all zero. */
  lemma NewStatsAreZero()
    ensures NewRushing().rushes == 0 && NewRushing().fumbles == 0
    ensures NewRushing().touchdowns == 0 && NewRushing().yards == 0
    ensures NewPassing().attempts == 0 && NewPassing().completions == 0
    ensures NewPassing().touchdowns == 0 && NewPassing().interceptions == 0 && NewPassing().yards == 0
    ensures NewReceiving().targets == 0 && NewReceiving().receptions == 0
    ensures NewReceiving().touchdowns == 0 && NewReceiving().fumbles == 0 && NewReceiving().yards == 0
  {
  }

  /** Incrementing one receiving counter by `m` and then by `n` is one
      increment by `m + n`, whatever else was incremented in between: the
      counters are independent accumulators. */
  lemma ReceivingIncrementsCompose(s: ReceivingStats, m: nat, n: nat, y: int)
    ensures IncrementTargets(IncrementTargets(s, m), n) == IncrementTargets(s, m + n)
    ensures IncrementTargets(IncrementReceptions(s, m), n) == IncrementReceptions(IncrementTargets(s, n), m)
    ensures IncrementReceivingYards(IncrementReceivingYards(s, y), -y) == s
  {
  }
}
