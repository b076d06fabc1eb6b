/** The coach's tendencies (src/team/coach.rs): three attributes in [0, 100]. */
module Coach {
  import opened Wrappers
  import opened Attributes

  /** `FootballTeamCoachRaw`, `FootballTeamCoach` and `FootballTeamCoachBuilder`
      share these three fields; a builder setter is a field update. */
  datatype Coach = Coach(riskTaking: nat, runPass: nat, upTempo: nat)

  const AttributeNames: seq<string> := ["Risk taking", "Run-pass", "Up-tempo"]

  function Values(c: Coach): seq<nat> {
    [c.riskTaking, c.runPass, c.upTempo]
  }

  predicate Valid(c: Coach) {
    c.riskTaking <= 100 && c.runPass <= 100 && c.upTempo <= 100
  }

  /** The validated type: what `TryFrom` produces. */
  type ValidCoach = c: Coach | Valid(c) witness Coach(50, 50, 50)

  /** `FootballTeamCoachRaw::validate`: the first attribute above 100, in field
      order, is reported. */
  function Validate(c: Coach): (r: Result<(), string>)
    ensures r.Ok? <==> Valid(c)
    ensures c.riskTaking > 100 ==> r == Err(OutOfRange("Risk taking", c.riskTaking))
    ensures c.riskTaking <= 100 && c.runPass > 100 ==> r == Err(OutOfRange("Run-pass", c.runPass))
    ensures c.riskTaking <= 100 && c.runPass <= 100 && c.upTempo > 100 ==> r == Err(OutOfRange("Up-tempo", c.upTempo))
  {
    assert c.riskTaking > 100 ==> FirstOutOfRange(Values(c), 0);
    assert c.riskTaking <= 100 && c.runPass > 100 ==> FirstOutOfRange(Values(c), 1);
    assert c.riskTaking <= 100 && c.runPass <= 100 && c.upTempo > 100 ==> FirstOutOfRange(Values(c), 2);
    CheckAttributes(AttributeNames, Values(c))
  }

  /** `TryFrom<FootballTeamCoachRaw>`: the fields are copied unchanged once
      validation passes, and the validation error is returned otherwise. */
  function TryFrom(raw: Coach): (r: Result<Coach, string>)
    ensures r.Ok? <==> Valid(raw)
    ensures r.Ok? ==> r.value == raw
    ensures r.Err? ==> r.error == Validate(raw).error
  {
    match Validate(raw)
    case Err(e) => Err(e)
    case Ok(_) => Ok(raw)
  }

  /** `FootballTeamCoach::default`, also the initial state of the builder. */
  function Default(): Coach {
    Coach(50, 50, 50)
  }

  /** `FootballTeamCoachBuilder::build`. */
  function Build(b: Coach): (r: Result<Coach, string>)
    ensures r.Ok? <==> b.riskTaking <= 100 && b.runPass <= 100 && b.upTempo <= 100
    ensures r.Ok? ==> r.value.riskTaking == b.riskTaking && r.value.runPass == b.runPass && r.value.upTempo == b.upTempo
  {
    TryFrom(b)
  }

  /** The default coach is valid, and a default builder builds it; the doc
      example sets 40/50/60 and builds. */
  lemma DefaultBuilds()
    ensures Valid(Default())
    ensures Build(Default()) == Ok(Default())
    ensures Build(Default().(riskTaking := 40, upTempo := 60)) == Ok(Coach(40, 50, 60))
  {
  }
}
