/** A football team (src/team.rs): names plus a coach, an offense and a
    defense, each of which is already validated by its own type. */
module Team {
  import opened Wrappers
  import Attributes
  import Coach
  import Offense
  import Defense

  const DefaultTeamName: string := "Null Island Defaults"
  const DefaultTeamShortName: string := "NULL"
  const MaxNameLength: nat := 64
  const MaxShortNameLength: nat := 4

  /** `FootballTeamRaw` and `FootballTeam` share these fields. */
  datatype FootballTeam = FootballTeam(
    name: string, shortName: string,
    coach: Coach.ValidCoach, offense: Offense.ValidOffense, defense: Defense.ValidDefense)

  predicate Valid(t: FootballTeam) {
    |t.name| <= MaxNameLength && |t.shortName| <= MaxShortNameLength
  }

  /** `FootballTeamRaw::validate`: the name is checked before the short name. */
  function Validate(t: FootballTeam): (r: Result<(), string>)
    ensures r.Ok? <==> Valid(t)
    ensures |t.name| > MaxNameLength ==> r == Err("Team name is longer than 64 characters: " + t.name)
    ensures |t.name| <= MaxNameLength && |t.shortName| > MaxShortNameLength ==>
      r == Err("Team short name is longer than 4 characters: " + t.shortName)
  {
    if |t.name| > 64 then Err("Team name is longer than 64 characters: " + t.name)
    else if |t.shortName| > 4 then Err("Team short name is longer than 4 characters: " + t.shortName)
    else Ok(())
  }

  /** `TryFrom<FootballTeamRaw>`. */
  function TryFrom(raw: FootballTeam): (r: Result<FootballTeam, string>)
    ensures r.Ok? <==> Valid(raw)
    ensures r.Ok? ==> r.value == raw
  {
    match Validate(raw)
    case Err(e) => Err(e)
    case Ok(_) => Ok(raw)
  }

  /** `FootballTeam::new`: default names and default coach, offense and defense. */
  function New(): (t: FootballTeam)
    ensures Valid(t)
    ensures t.name == DefaultTeamName && t.shortName == DefaultTeamShortName
    ensures OffenseOverall(t) == 50 && DefenseOverall(t) == 50
  {
    FootballTeam(DefaultTeamName, DefaultTeamShortName, Coach.Default(), Offense.Default(), Defense.Default())
  }

  /** `ScoreSimulatable::offense_overall`. */
  function OffenseOverall(t: FootballTeam): nat {
    Offense.Overall(t.offense)
  }

  /** `ScoreSimulatable::defense_overall`. */
  function DefenseOverall(t: FootballTeam): nat {
    Defense.Overall(t.defense)
  }

  /** `from_overalls`: builds the offense first and the defense second, and the
      first failure is the result. The names are taken as given: unlike
      `TryFrom`, this constructor never checks their lengths. */
  function FromOveralls(name: string, shortName: string, offenseOverall: nat, defenseOverall: nat): (r: Result<FootballTeam, string>)
    ensures offenseOverall > 100 ==> r == Err(Attributes.OutOfRange("Passing", offenseOverall))
    ensures offenseOverall <= 100 && defenseOverall > 100 ==> r == Err(Attributes.OutOfRange("Blitzing", defenseOverall))
    ensures offenseOverall <= 100 && defenseOverall <= 100 ==>
      r.Ok? && r.value.name == name && r.value.shortName == shortName && r.value.coach == Coach.Default()
      && OffenseOverall(r.value) == offenseOverall && DefenseOverall(r.value) == defenseOverall
  {
    var offense :- Offense.FromOverall(offenseOverall);
    var defense :- Defense.FromOverall(defenseOverall);
    Ok(FootballTeam(name, shortName, Coach.Default(), offense, defense))
  }

  /** `from_properties`: every part taken as given, with no validation. */
  function FromProperties(name: string, shortName: string, coach: Coach.ValidCoach, offense: Offense.ValidOffense, defense: Defense.ValidDefense): (t: FootballTeam)
    ensures t.name == name && t.shortName == shortName
    ensures t.coach == coach && t.offense == offense && t.defense == defense
  {
    FootballTeam(name, shortName, coach, offense, defense)
  }

  /** The unit test of `from_overalls`: an offense overall of 200 is reported
      on the passing attribute and a defense overall of 150 on blitzing, the
      message ends in the decimal value (`Wrappers.NatToStringExamples`). */
  lemma FromOverallsRejects()
    ensures FromOveralls("Test Team", "TEST", 200, 50) == Err(Attributes.OutOfRange("Passing", 200))
    ensures FromOveralls("Test Team", "TEST", 50, 150) == Err(Attributes.OutOfRange("Blitzing", 150))
  {
  }

  /** The doc example: overalls 25 and 75 read back as 25 and 75. */
  lemma FromOverallsRoundTrip()
    ensures FromOveralls("My Team", "TEAM", 25, 75).Ok?
    ensures OffenseOverall(FromOveralls("My Team", "TEAM", 25, 75).value) == 25
    ensures DefenseOverall(FromOveralls("My Team", "TEAM", 25, 75).value) == 75
  {
  }

  /** A team built from overalls can carry a name that its own validator
      rejects: `from_overalls` bypasses the name-length rules. */
  lemma FromOverallsSkipsNameCheck(name: string)
    requires |name| > MaxNameLength
    ensures FromOveralls(name, "TEAM", 50, 50).Ok?
    ensures !Valid(FromOveralls(name, "TEAM", 50, 50).value)
  {
  }
}
