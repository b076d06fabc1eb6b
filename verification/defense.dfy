/** The defense's skill levels (src/team/defense.rs): six attributes in
    [0, 100] and an overall rating that is their truncated mean. */
module Defense {
  import opened Wrappers
  import opened Attributes

  /** `FootballTeamDefenseRaw`, `FootballTeamDefense` and
      `FootballTeamDefenseBuilder` share these six fields. */
  datatype Defense = Defense(
    blitzing: nat, rushDefense: nat, passDefense: nat, coverage: nat, turnovers: nat, kickReturning: nat)

  const AttributeNames: seq<string> := [
    "Blitzing", "Rush defense", "Pass defense", "Coverage", "Turnovers", "Kick returning"]

  /** The attributes in declaration order. */
  function Values(d: Defense): (vs: seq<nat>)
    ensures |vs| == |AttributeNames|
  {
    [d.blitzing, d.rushDefense, d.passDefense, d.coverage, d.turnovers, d.kickReturning]
  }

  predicate Valid(d: Defense) {
    d.blitzing <= 100 && d.rushDefense <= 100 && d.passDefense <= 100
    && d.coverage <= 100 && d.turnovers <= 100 && d.kickReturning <= 100
  }

  /** The validated type: what `TryFrom` produces. */
  type ValidDefense = d: Defense | Valid(d) witness Uniform(50)

  /** `FootballTeamDefenseRaw::validate`: every attribute at most 100, and the
      first one in field order that is not is the one reported. */
  function Validate(d: Defense): (r: Result<(), string>)
    ensures r.Ok? <==> Valid(d)
    ensures r.Err? ==>
      exists i :: FirstOutOfRange(Values(d), i) && r.error == OutOfRange(AttributeNames[i], Values(d)[i])
    ensures d.blitzing > 100 ==> r == Err(OutOfRange("Blitzing", d.blitzing))
  {
    ValidIsAllInRange(d);
    assert d.blitzing > 100 ==> FirstOutOfRange(Values(d), 0);
    CheckAttributes(AttributeNames, Values(d))
  }

  lemma ValidIsAllInRange(d: Defense)
    ensures Valid(d) <==> AllInRange(Values(d))
  {
    var vs := Values(d);
    assert vs[0] == d.blitzing && vs[1] == d.rushDefense && vs[2] == d.passDefense;
    assert vs[3] == d.coverage && vs[4] == d.turnovers && vs[5] == d.kickReturning;
  }

  /** `TryFrom<FootballTeamDefenseRaw>`. */
  function TryFrom(raw: Defense): (r: Result<Defense, string>)
    ensures r.Ok? <==> Valid(raw)
    ensures r.Ok? ==> r.value == raw
    ensures r.Err? ==> r.error == Validate(raw).error
  {
    match Validate(raw)
    case Err(e) => Err(e)
    case Ok(_) => Ok(raw)
  }

  /** `FootballTeamDefense::default`/`new`, also the builder's initial state. */
  function Default(): Defense {
    Uniform(50)
  }

  /** Every attribute set to the same level. */
  function Uniform(x: nat): Defense {
    Defense(x, x, x, x, x, x)
  }

  function Sum(d: Defense): nat {
    d.blitzing + d.rushDefense + d.passDefense + d.coverage + d.turnovers + d.kickReturning
  }

  /** `overall`: the mean of the six attributes, truncated. The `f32`
      computation in the source is exact here because a valid sum is at most
      600. The rating lies between the weakest and the strongest attribute. */
  function Overall(d: Defense): (r: nat)
    requires Valid(d)
    ensures r <= 100
  {
    Sum(d) / 6
  }

  /** `from_overall`: all six attributes set to `x`, then validated. */
  function FromOverall(x: nat): (r: Result<Defense, string>)
    ensures x <= 100 ==> r.Ok? && Valid(r.value) && Overall(r.value) == x
    ensures x > 100 ==> r == Err(OutOfRange("Blitzing", x))
  {
    TryFrom(Uniform(x))
  }

  /** `FootballTeamDefenseBuilder::build` succeeds exactly when validation does. */
  function Build(b: Defense): (r: Result<Defense, string>)
    ensures r.Ok? <==> Validate(b).Ok?
    ensures r.Ok? ==> r.value == b
  {
    TryFrom(b)
  }

  /** The overall is bounded by the weakest and the strongest attribute. */
  lemma OverallBetween(d: Defense, lo: nat, hi: nat)
    requires Valid(d)
    requires forall i :: 0 <= i < |Values(d)| ==> lo <= Values(d)[i] <= hi
    ensures lo <= Overall(d) <= hi
  {
    var vs := Values(d);
    assert vs[0] == d.blitzing && vs[1] == d.rushDefense && vs[2] == d.passDefense;
    assert vs[3] == d.coverage && vs[4] == d.turnovers && vs[5] == d.kickReturning;
    assert 6 * lo <= Sum(d) <= 6 * hi;
  }

  /** The default defense is valid with overall 50, and a default builder
      builds it. */
  lemma DefaultIsValid()
    ensures Valid(Default()) && Overall(Default()) == 50
    ensures Build(Default()) == Ok(Default())
  {
  }
}
