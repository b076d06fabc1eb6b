/** A game's final score (src/game/score.rs): two team names and two scores.
    The score simulator itself is a floating-point regression and is not part
    of this model. */
module FinalScore {
  import opened Wrappers
  import Team

  const MaxNameLength: nat := 64

  /** `FinalScoreRaw`, `FinalScore` and `FinalScoreBuilder` share these fields. */
  datatype FinalScore = FinalScore(homeTeam: string, homeScore: nat, awayTeam: string, awayScore: nat)

  predicate Valid(s: FinalScore) {
    |s.homeTeam| <= MaxNameLength && |s.awayTeam| <= MaxNameLength
  }

  /** `FinalScoreRaw::validate`: the home name is checked before the away name. */
  function Validate(s: FinalScore): (r: Result<(), string>)
    ensures r.Ok? <==> Valid(s)
    ensures |s.homeTeam| > MaxNameLength ==> r == Err("Home team name is longer than 64 characters: " + s.homeTeam)
    ensures |s.homeTeam| <= MaxNameLength && |s.awayTeam| > MaxNameLength ==>
      r == Err("Away team name is longer than 64 characters: " + s.awayTeam)
  {
    if |s.homeTeam| > 64 then Err("Home team name is longer than 64 characters: " + s.homeTeam)
    else if |s.awayTeam| > 64 then Err("Away team name is longer than 64 characters: " + s.awayTeam)
    else Ok(())
  }

  /** `TryFrom<FinalScoreRaw>`: all four fields copied unchanged once valid. */
  function TryFrom(raw: FinalScore): (r: Result<FinalScore, string>)
    ensures r.Ok? <==> Valid(raw)
    ensures r.Ok? ==> r.value == raw
    ensures r.Err? ==> r == Err(Validate(raw).error)
  {
    match Validate(raw)
    case Err(e) => Err(e)
    case Ok(_) => Ok(raw)
  }

  /** `FinalScore::default` and the builder's initial state: 0-0 between two
      teams with the default name. */
  function Default(): FinalScore {
    FinalScore(Team.DefaultTeamName, 0, Team.DefaultTeamName, 0)
  }

  /** `FinalScoreBuilder::build`. The setters are field updates. */
  function Build(b: FinalScore): (r: Result<FinalScore, string>)
    ensures r.Ok? <==> Valid(b)
    ensures r.Ok? ==> r.value.homeScore == b.homeScore && r.value.awayScore == b.awayScore
    ensures r.Ok? ==> r.value.homeTeam == b.homeTeam && r.value.awayTeam == b.awayTeam
  {
    TryFrom(b)
  }

  /** The default is valid and builds unchanged; the doc example sets the names
      and scores 21 and 17 and reads them back. */
  lemma DefaultAndExample()
    ensures Valid(Default()) && Default().homeScore == 0 && Default().awayScore == 0
    ensures Build(Default()) == Ok(Default())
    ensures Build(Default().(homeTeam := "Team A", awayTeam := "Team B", homeScore := 21, awayScore := 17))
      == Ok(FinalScore("Team A", 21, "Team B", 17))
  {
  }
}
