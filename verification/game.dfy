/** A game as a list of drives (src/game/play.rs, `Game` and
    `GameSimulator`): per-team statistics read off the plays, and the guards
    that decide when a new drive is opened. */
module Games {
  import opened Wrappers
  import Context
  import PlayType
  import BetweenPlay
  import Stats
  import opened Drives

  datatype Game = Game(drives: seq<Drive>, complete: bool)

  /** `Game::new`: no drives, not complete. */
  function NewGame(): Game {
    Game([], false)
  }

  /** Every play of the game, drive after drive. */
  function Flatten(drives: seq<Drive>): seq<Play> {
    if |drives| == 0 then [] else Flatten(drives[..|drives| - 1]) + drives[|drives| - 1].plays
  }

  /** The plays snapped with home (`home == true`) or away in possession, in
      order. */
  function Possessed(plays: seq<Play>, home: bool): (r: seq<Play>)
    ensures |r| <= |plays|
  {
    if |plays| == 0 then []
    else
      var last := plays[|plays| - 1];
      Possessed(plays[..|plays| - 1], home) + (if last.context.homePossession == home then [last] else [])
  }

  lemma PossessedSnoc(plays: seq<Play>, p: Play, home: bool)
    ensures Possessed(plays + [p], home)
            == Possessed(plays, home) + (if p.context.homePossession == home then [p] else [])
  {
    assert (plays + [p])[..|plays|] == plays;
  }

  /** One team's rushing line: the plays snapped with that side in
      possession, each adding what it adds to the drive's line. */
  function TeamRushing(plays: seq<Play>, home: bool): Stats.RushingStats {
    if |plays| == 0 then Stats.NewRushing()
    else
      var last := plays[|plays| - 1];
      AddRushing(TeamRushing(plays[..|plays| - 1], home),
                 if last.context.homePossession == home then RushingDelta(last.result) else Stats.NewRushing())
  }

  function TeamPassing(plays: seq<Play>, home: bool): Stats.PassingStats {
    if |plays| == 0 then Stats.NewPassing()
    else
      var last := plays[|plays| - 1];
      AddPassing(TeamPassing(plays[..|plays| - 1], home),
                 if last.context.homePossession == home then PassingDelta(last.result) else Stats.NewPassing())
  }

  function TeamReceiving(plays: seq<Play>, home: bool): Stats.ReceivingStats {
    if |plays| == 0 then Stats.NewReceiving()
    else
      var last := plays[|plays| - 1];
      AddReceiving(TeamReceiving(plays[..|plays| - 1], home),
                   if last.context.homePossession == home then ReceivingDelta(last.result) else Stats.NewReceiving())
  }

  lemma FlattenSnoc(drives: seq<Drive>, d: Drive)
    ensures Flatten(drives + [d]) == Flatten(drives) + d.plays
  {
    assert (drives + [d])[..|drives|] == drives;
  }

  lemma TeamRushingStep(before: seq<Play>, plays: seq<Play>, j: nat, home: bool)
    requires j < |plays|
    ensures TeamRushing(before + plays[..j + 1], home)
            == AddRushing(TeamRushing(before + plays[..j], home),
                      if plays[j].context.homePossession == home then RushingDelta(plays[j].result) else Stats.NewRushing())
  {
    assert (before + plays[..j + 1])[..|before| + j] == before + plays[..j];
  }

  /** The plays of one drive added to a team's rushing line. */
  method DriveRushing(s: Stats.RushingStats, before: seq<Play>, plays: seq<Play>, home: bool) returns (t: Stats.RushingStats)
    requires s == TeamRushing(before, home)
    ensures t == TeamRushing(before + plays, home)
  {
    t := s;
    var j := 0;
    assert before + plays[..0] == before;
    while j < |plays|
      invariant 0 <= j <= |plays|
      invariant t == TeamRushing(before + plays[..j], home)
    {
      TeamRushingStep(before, plays, j, home);
      if plays[j].context.homePossession == home {
        t := RushingStep(t, plays[j].result);
      } else {
        assert AddRushing(t, Stats.NewRushing()) == t;
      }
      j := j + 1;
    }
    assert plays[..|plays|] == plays;
  }

  /** `Game::rushing_stats`: over every drive and play, the plays snapped with
      the given side in possession. */
  method GameRushingStats(g: Game, home: bool) returns (s: Stats.RushingStats)
    ensures s == TeamRushing(Flatten(g.drives), home)
  {
    s := Stats.NewRushing();
    var i := 0;
    while i < |g.drives|
      invariant 0 <= i <= |g.drives|
      invariant s == TeamRushing(Flatten(g.drives[..i]), home)
    {
      s := DriveRushing(s, Flatten(g.drives[..i]), g.drives[i].plays, home);
      FlattenSnoc(g.drives[..i], g.drives[i]);
      assert g.drives[..i + 1] == g.drives[..i] + [g.drives[i]];
      i := i + 1;
    }
    assert g.drives[..|g.drives|] == g.drives;
  }

  lemma TeamPassingStep(before: seq<Play>, plays: seq<Play>, j: nat, home: bool)
    requires j < |plays|
    ensures TeamPassing(before + plays[..j + 1], home)
            == AddPassing(TeamPassing(before + plays[..j], home),
                      if plays[j].context.homePossession == home then PassingDelta(plays[j].result) else Stats.NewPassing())
  {
    assert (before + plays[..j + 1])[..|before| + j] == before + plays[..j];
  }

  /** The plays of one drive added to a team's passing line. */
  method DrivePassing(s: Stats.PassingStats, before: seq<Play>, plays: seq<Play>, home: bool) returns (t: Stats.PassingStats)
    requires s == TeamPassing(before, home)
    ensures t == TeamPassing(before + plays, home)
  {
    t := s;
    var j := 0;
    assert before + plays[..0] == before;
    while j < |plays|
      invariant 0 <= j <= |plays|
      invariant t == TeamPassing(before + plays[..j], home)
    {
      TeamPassingStep(before, plays, j, home);
      if plays[j].context.homePossession == home {
        t := PassingStep(t, plays[j].result);
      } else {
        assert AddPassing(t, Stats.NewPassing()) == t;
      }
      j := j + 1;
    }
    assert plays[..|plays|] == plays;
  }

  /** `Game::passing_stats`. */
  method GamePassingStats(g: Game, home: bool) returns (s: Stats.PassingStats)
    ensures s == TeamPassing(Flatten(g.drives), home)
  {
    s := Stats.NewPassing();
    var i := 0;
    while i < |g.drives|
      invariant 0 <= i <= |g.drives|
      invariant s == TeamPassing(Flatten(g.drives[..i]), home)
    {
      s := DrivePassing(s, Flatten(g.drives[..i]), g.drives[i].plays, home);
      FlattenSnoc(g.drives[..i], g.drives[i]);
      assert g.drives[..i + 1] == g.drives[..i] + [g.drives[i]];
      i := i + 1;
    }
    assert g.drives[..|g.drives|] == g.drives;
  }

  lemma TeamReceivingStep(before: seq<Play>, plays: seq<Play>, j: nat, home: bool)
    requires j < |plays|
    ensures TeamReceiving(before + plays[..j + 1], home)
            == AddReceiving(TeamReceiving(before + plays[..j], home),
                      if plays[j].context.homePossession == home then ReceivingDelta(plays[j].result) else Stats.NewReceiving())
  {
    assert (before + plays[..j + 1])[..|before| + j] == before + plays[..j];
  }

  /** The plays of one drive added to a team's receiving line. */
  method DriveReceiving(s: Stats.ReceivingStats, before: seq<Play>, plays: seq<Play>, home: bool) returns (t: Stats.ReceivingStats)
    requires s == TeamReceiving(before, home)
    ensures t == TeamReceiving(before + plays, home)
  {
    t := s;
    var j := 0;
    assert before + plays[..0] == before;
    while j < |plays|
      invariant 0 <= j <= |plays|
      invariant t == TeamReceiving(before + plays[..j], home)
    {
      TeamReceivingStep(before, plays, j, home);
      if plays[j].context.homePossession == home {
        t := ReceivingStep(t, plays[j].result);
      } else {
        assert AddReceiving(t, Stats.NewReceiving()) == t;
      }
      j := j + 1;
    }
    assert plays[..|plays|] == plays;
  }

  /** `Game::receiving_stats`. */
  method GameReceivingStats(g: Game, home: bool) returns (s: Stats.ReceivingStats)
    ensures s == TeamReceiving(Flatten(g.drives), home)
  {
    s := Stats.NewReceiving();
    var i := 0;
    while i < |g.drives|
      invariant 0 <= i <= |g.drives|
      invariant s == TeamReceiving(Flatten(g.drives[..i]), home)
    {
      s := DriveReceiving(s, Flatten(g.drives[..i]), g.drives[i].plays, home);
      FlattenSnoc(g.drives[..i], g.drives[i]);
      assert g.drives[..i + 1] == g.drives[..i] + [g.drives[i]];
      i := i + 1;
    }
    assert g.drives[..|g.drives|] == g.drives;
  }

  /** A team's line is the drive-style line of exactly the plays it had the
      ball for. */
  lemma {:induction false} TeamRushingIsPossessed(plays: seq<Play>, home: bool)
    ensures TeamRushing(plays, home) == RushingOf(Possessed(plays, home))
  {
    if |plays| > 0 {
      var prefix := plays[..|plays| - 1];
      var last := plays[|plays| - 1];
      TeamRushingIsPossessed(prefix, home);
      var mine := Possessed(prefix, home);
      if last.context.homePossession == home {
        assert Possessed(plays, home) == mine + [last];
        assert (mine + [last])[..|mine|] == mine;
      } else {
        assert Possessed(plays, home) == mine + [];
        assert mine + [] == mine;
      }
    }
  }

  /** The two teams' lines add up to the line of the whole game: every play
      is credited to exactly one side. */
  lemma {:induction false} RushingPartition(plays: seq<Play>)
    ensures var all, h, a := RushingOf(plays), TeamRushing(plays, true), TeamRushing(plays, false);
      all.rushes == h.rushes + a.rushes && all.fumbles == h.fumbles + a.fumbles
      && all.touchdowns == h.touchdowns + a.touchdowns && all.yards == h.yards + a.yards
  {
    if |plays| > 0 {
      RushingPartition(plays[..|plays| - 1]);
    }
  }

  lemma {:induction false} PassingPartition(plays: seq<Play>)
    ensures var all, h, a := PassingOf(plays), TeamPassing(plays, true), TeamPassing(plays, false);
      all.attempts == h.attempts + a.attempts && all.completions == h.completions + a.completions
      && all.touchdowns == h.touchdowns + a.touchdowns
      && all.interceptions == h.interceptions + a.interceptions && all.yards == h.yards + a.yards
  {
    if |plays| > 0 {
      PassingPartition(plays[..|plays| - 1]);
    }
  }

  lemma {:induction false} ReceivingPartition(plays: seq<Play>)
    ensures var all, h, a := ReceivingOf(plays), TeamReceiving(plays, true), TeamReceiving(plays, false);
      all.targets == h.targets + a.targets && all.receptions == h.receptions + a.receptions
      && all.touchdowns == h.touchdowns + a.touchdowns
      && all.fumbles == h.fumbles + a.fumbles && all.yards == h.yards + a.yards
  {
    if |plays| > 0 {
      ReceivingPartition(plays[..|plays| - 1]);
    }
  }

  // ---------------------------------------------------------------------
  // GameSimulator guards
  // ---------------------------------------------------------------------

  datatype GameError = GameOver | DriveFailed(error: SimError)

  /** True when the game's next play belongs to a new drive: there is none
      yet, or the last one is over. */
  predicate NeedsNewDrive(g: Game) {
    |g.drives| == 0 || g.drives[|g.drives| - 1].complete
  }

  /** The shape shared by `GameSimulator::sim_play` and `sim_drive`: refuse a
      finished game; otherwise continue the last drive if it is still open,
      or open a new one and append it. `step` is what the drive simulator
      does to that drive. */
  function Advance(g: Game, c: Context.ValidContext,
                   step: Drive -> Result<(Drive, Context.ValidContext), SimError>): (r: Result<(Game, Context.ValidContext), GameError>)
    ensures c.gameOver ==> r == Err(GameOver)
    ensures r.Ok? ==> |r.value.0.drives| == |g.drives| + (if NeedsNewDrive(g) then 1 else 0)
    ensures r.Ok? && NeedsNewDrive(g) ==> r.value.0.drives[..|g.drives|] == g.drives
    ensures r.Ok? && !NeedsNewDrive(g) ==> r.value.0.drives[..|g.drives| - 1] == g.drives[..|g.drives| - 1]
  {
    if c.gameOver then Err(GameOver)
    else if NeedsNewDrive(g) then
      match step(NewDrive())
      case Err(e) => Err(DriveFailed(e))
      case Ok(next) => Ok((g.(drives := g.drives + [next.0]), next.1))
    else
      var last := |g.drives| - 1;
      match step(g.drives[last])
      case Err(e) => Err(DriveFailed(e))
      case Ok(next) => Ok((g.(drives := g.drives[..last] + [next.0]), next.1))
  }

  /** `GameSimulator::sim_play`: one play, in the open drive or a new one. */
  function SimPlay(g: Game, c: Context.ValidContext, result: PlayType.PlayTypeResult,
                   between: BetweenPlay.ValidBetweenPlayResult): (r: Result<(Game, Context.ValidContext), GameError>)
    ensures c.gameOver ==> r == Err(GameOver)
  {
    Advance(g, c, d => Drives.SimPlay(d, c, result, between))
  }

  /** `GameSimulator::sim_drive`, with the drive simulation (a loop over the
      random play simulator) given as `simDrive`. */
  function SimDrive(g: Game, c: Context.ValidContext,
                    simDrive: Drive -> Result<(Drive, Context.ValidContext), SimError>): (r: Result<(Game, Context.ValidContext), GameError>)
    ensures c.gameOver ==> r == Err(GameOver)
  {
    Advance(g, c, simDrive)
  }

  /** A simulated play lands at the end of the game's record, and nothing
      recorded before it changes. */
  lemma SimPlayRecordsPlay(g: Game, c: Context.ValidContext, result: PlayType.PlayTypeResult,
                           between: BetweenPlay.ValidBetweenPlayResult)
    requires SimPlay(g, c, result, between).Ok?
    ensures Flatten(SimPlay(g, c, result, between).value.0.drives)
            == Flatten(g.drives) + [Play(c, result, between)]
  {
    var step := d => Drives.SimPlay(d, c, result, between);
    var d := if NeedsNewDrive(g) then NewDrive() else g.drives[|g.drives| - 1];
    assert step(d) == Drives.SimPlay(d, c, result, between);
    AdvanceRecords(g, c, step, Play(c, result, between));
  }

  /** When the drive step adds `p` to the drive it is given, advancing the
      game adds `p` to the game's record and nothing else. */
  lemma AdvanceRecords(g: Game, c: Context.ValidContext,
                       step: Drive -> Result<(Drive, Context.ValidContext), SimError>, p: Play)
    requires Advance(g, c, step).Ok?
    requires var d := if NeedsNewDrive(g) then NewDrive() else g.drives[|g.drives| - 1];
             step(d).Ok? ==> step(d).value.0.plays == d.plays + [p]
    ensures Flatten(Advance(g, c, step).value.0.drives) == Flatten(g.drives) + [p]
  {
    var r := Advance(g, c, step).value.0;
    if NeedsNewDrive(g) {
      var d := step(NewDrive()).value.0;
      assert r.drives == g.drives + [d];
      FlattenSnoc(g.drives, d);
    } else {
      var last := |g.drives| - 1;
      var d := step(g.drives[last]).value.0;
      assert r.drives == g.drives[..last] + [d];
      FlattenSnoc(g.drives[..last], d);
      FlattenSnoc(g.drives[..last], g.drives[last]);
      assert g.drives == g.drives[..last] + [g.drives[last]];
    }
  }
}
