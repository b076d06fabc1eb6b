/** The offense's skill levels (src/team/offense.rs): ten attributes in
    [0, 100] and an overall rating that is their truncated mean. */
module Offense {
  import opened Wrappers
  import opened Attributes

  /** `FootballTeamOffenseRaw`, `FootballTeamOffense` and
      `FootballTeamOffenseBuilder` share these ten fields. */
  datatype Offense = Offense(
    passing: nat, blocking: nat, rushing: nat, receiving: nat, scrambling: nat,
    turnovers: nat, fieldGoals: nat, punting: nat, kickoffs: nat, kickReturnDefense: nat)

  const AttributeNames: seq<string> := [
    "Passing", "Blocking", "Rushing", "Receiving", "Scrambling",
    "Turnovers", "Field goals", "Punting", "Kickoffs", "Kick return defense"]

  /** The attributes in declaration order. */
  function Values(o: Offense): (vs: seq<nat>)
    ensures |vs| == |AttributeNames|
  {
    [o.passing, o.blocking, o.rushing, o.receiving, o.scrambling,
     o.turnovers, o.fieldGoals, o.punting, o.kickoffs, o.kickReturnDefense]
  }

  predicate Valid(o: Offense) {
    o.passing <= 100 && o.blocking <= 100 && o.rushing <= 100 && o.receiving <= 100
    && o.scrambling <= 100 && o.turnovers <= 100 && o.fieldGoals <= 100
    && o.punting <= 100 && o.kickoffs <= 100 && o.kickReturnDefense <= 100
  }

  /** The validated type: what `TryFrom` produces. */
  type ValidOffense = o: Offense | Valid(o) witness Uniform(50)

  /** `FootballTeamOffenseRaw::validate`: every attribute at most 100, and the
      first one in field order that is not is the one reported. */
  function Validate(o: Offense): (r: Result<(), string>)
    ensures r.Ok? <==> Valid(o)
    ensures r.Err? ==>
      exists i :: FirstOutOfRange(Values(o), i) && r.error == OutOfRange(AttributeNames[i], Values(o)[i])
    ensures o.passing > 100 ==> r == Err(OutOfRange("Passing", o.passing))
  {
    ValidIsAllInRange(o);
    assert o.passing > 100 ==> FirstOutOfRange(Values(o), 0);
    CheckAttributes(AttributeNames, Values(o))
  }

  lemma ValidIsAllInRange(o: Offense)
    ensures Valid(o) <==> AllInRange(Values(o))
  {
    var vs := Values(o);
    assert vs[0] == o.passing && vs[1] == o.blocking && vs[2] == o.rushing;
    assert vs[3] == o.receiving && vs[4] == o.scrambling && vs[5] == o.turnovers;
    assert vs[6] == o.fieldGoals && vs[7] == o.punting && vs[8] == o.kickoffs;
    assert vs[9] == o.kickReturnDefense;
  }

  /** `TryFrom<FootballTeamOffenseRaw>`. */
  function TryFrom(raw: Offense): (r: Result<Offense, string>)
    ensures r.Ok? <==> Valid(raw)
    ensures r.Ok? ==> r.value == raw
    ensures r.Err? ==> r.error == Validate(raw).error
  {
    match Validate(raw)
    case Err(e) => Err(e)
    case Ok(_) => Ok(raw)
  }

  /** `FootballTeamOffense::default`/`new`, also the builder's initial state. */
  function Default(): Offense {
    Uniform(50)
  }

  /** Every attribute set to the same level. */
  function Uniform(x: nat): Offense {
    Offense(x, x, x, x, x, x, x, x, x, x)
  }

  function Sum(o: Offense): nat {
    o.passing + o.blocking + o.rushing + o.receiving + o.scrambling
    + o.turnovers + o.fieldGoals + o.punting + o.kickoffs + o.kickReturnDefense
  }

  /** `overall`: the mean of the ten attributes, truncated. The `f32`
      computation in the source is exact here because a valid sum is at most
      1000. The rating lies between the weakest and the strongest attribute. */
  function Overall(o: Offense): (r: nat)
    requires Valid(o)
    ensures r <= 100
  {
    Sum(o) / 10
  }

  /** `from_overall`: all ten attributes set to `x`, then validated. */
  function FromOverall(x: nat): (r: Result<Offense, string>)
    ensures x <= 100 ==> r.Ok? && Valid(r.value) && Overall(r.value) == x
    ensures x > 100 ==> r == Err(OutOfRange("Passing", x))
  {
    TryFrom(Uniform(x))
  }

  /** `FootballTeamOffenseBuilder::build` succeeds exactly when validation does. */
  function Build(b: Offense): (r: Result<Offense, string>)
    ensures r.Ok? <==> Validate(b).Ok?
    ensures r.Ok? ==> r.value == b
  {
    TryFrom(b)
  }

  /** The overall is bounded by the weakest and the strongest attribute. */
  lemma OverallBetween(o: Offense, lo: nat, hi: nat)
    requires Valid(o)
    requires forall i :: 0 <= i < |Values(o)| ==> lo <= Values(o)[i] <= hi
    ensures lo <= Overall(o) <= hi
  {
    var vs := Values(o);
    assert vs[0] == o.passing && vs[1] == o.blocking && vs[2] == o.rushing;
    assert vs[3] == o.receiving && vs[4] == o.scrambling && vs[5] == o.turnovers;
    assert vs[6] == o.fieldGoals && vs[7] == o.punting && vs[8] == o.kickoffs;
    assert vs[9] == o.kickReturnDefense;
    assert 10 * lo <= Sum(o) <= 10 * hi;
  }

  /** The default offense is valid with overall 50, and a default builder
      builds it. */
  lemma DefaultIsValid()
    ensures Valid(Default()) && Overall(Default()) == 50
    ensures Build(Default()) == Ok(Default())
  {
  }
}
