/** Divisions and conferences (src/league/season/conference.rs): named lists
    of team IDs. A conference keeps its divisions in a sequence indexed by
    position. */
module Conferences {
  import opened Wrappers
  import Ids

  /** `MAX_DIVISION_NAME_LEN` and `MAX_CONFERENCE_NAME_LEN`. */
  const MaxNameLength: nat := 64

  datatype Division = Division(name: string, teams: seq<nat>)

  datatype Conference = Conference(name: string, divisions: seq<Division>)

  /** The two ways a raw division or conference is rejected; the source's
      messages name the offending value, which the model keeps. */
  datatype ConferenceError = NameTooLong(name: string) | DuplicateTeam(id: nat)

  predicate ValidDivision(d: Division) {
    |d.name| <= MaxNameLength && Ids.Distinct(d.teams)
  }

  /** `LeagueDivisionRaw::validate`: the name first, then the first team ID
      seen twice. */
  function ValidateDivision(d: Division): (r: Result<(), ConferenceError>)
    ensures r.Ok? <==> ValidDivision(d)
    ensures r.Err? && r.error.NameTooLong? <==> |d.name| > MaxNameLength
    ensures r.Err? && r.error.DuplicateTeam? ==> multiset(d.teams)[r.error.id] >= 2
  {
    if |d.name| > MaxNameLength then Err(NameTooLong(d.name))
    else match Ids.FirstRepeat(d.teams, {})
      case Some(id) => Err(DuplicateTeam(id))
      case None => Ok(())
  }

  /** `LeagueDivision::new` and `with_name`: no teams. */
  function NewDivision(name: string): (d: Division)
    ensures NumDivisionTeams(d) == 0
    ensures |name| <= MaxNameLength ==> ValidDivision(d)
  {
    Division(name, [])
  }

  /** `LeagueDivision::add_team`: appends without checking for a duplicate. */
  function AddTeam(d: Division, id: nat): (r: Division)
    ensures ContainsDivisionTeam(r, id)
    ensures NumDivisionTeams(r) == NumDivisionTeams(d) + 1
    ensures forall t :: t != id ==> (ContainsDivisionTeam(r, t) <==> ContainsDivisionTeam(d, t))
  {
    d.(teams := d.teams + [id])
  }

  predicate ContainsDivisionTeam(d: Division, id: nat) {
    id in d.teams
  }

  function NumDivisionTeams(d: Division): nat {
    |d.teams|
  }

  /** Adding a team already in the division is accepted and leaves a division
      its own validator rejects; adding a new one keeps it valid. */
  lemma AddTeamUnchecked(d: Division, id: nat)
    requires ValidDivision(d)
    ensures ValidDivision(AddTeam(d, id)) <==> !ContainsDivisionTeam(d, id)
  {
    Ids.DistinctAppend(d.teams, [id]);
    if id in d.teams {
      var i :| 0 <= i < |d.teams| && d.teams[i] == id;
      assert AddTeam(d, id).teams[i] == AddTeam(d, id).teams[|d.teams|];
    }
  }

  /** The teams of a list of divisions, in division order. */
  function AllTeamsOf(ds: seq<Division>): (r: seq<nat>)
    ensures forall id :: id in r <==> exists i :: 0 <= i < |ds| && id in ds[i].teams
    decreases |ds|
  {
    if |ds| == 0 then []
    else
      var r := AllTeamsOf(ds[..|ds| - 1]) + ds[|ds| - 1].teams;
      assert forall i :: 0 <= i < |ds| - 1 ==> ds[..|ds| - 1][i] == ds[i];
      r
  }

  /** The number of teams, summed division by division. */
  function NumTeamsOf(ds: seq<Division>): nat
    decreases |ds|
  {
    if |ds| == 0 then 0 else NumTeamsOf(ds[..|ds| - 1]) + |ds[|ds| - 1].teams|
  }

  predicate ValidConference(c: Conference) {
    |c.name| <= MaxNameLength && Ids.Distinct(AllTeams(c))
  }

  /** `LeagueConferenceRaw::validate`: the name, then one scan over the teams
      of every division in order, so a repeat within a division and a team
      in two divisions are both reported. */
  function ValidateConference(c: Conference): (r: Result<(), ConferenceError>)
    ensures r.Ok? <==> ValidConference(c)
    ensures r.Err? && r.error.NameTooLong? <==> |c.name| > MaxNameLength
    ensures r.Err? && r.error.DuplicateTeam? ==> multiset(AllTeams(c))[r.error.id] >= 2
  {
    if |c.name| > MaxNameLength then Err(NameTooLong(c.name))
    else match Ids.FirstRepeat(AllTeams(c), {})
      case Some(id) => Err(DuplicateTeam(id))
      case None => Ok(())
  }

  /** A conference passes the team check exactly when every division is free
      of repeats and no two divisions share a team. */
  lemma {:induction false} ConferenceTeamsDistinct(ds: seq<Division>)
    ensures Ids.Distinct(AllTeamsOf(ds)) <==> EachDistinct(ds) && PairwiseDisjoint(ds)
    decreases |ds|
  {
    if |ds| > 0 {
      var front := ds[..|ds| - 1];
      var last := ds[|ds| - 1].teams;
      ConferenceTeamsDistinct(front);
      Ids.DistinctAppend(AllTeamsOf(front), last);
      Ids.DisjointFromFront(AllTeamsOf(front), last);
      EachDistinctSnoc(ds);
      PairwiseDisjointSnoc(ds);
    }
  }

  /** Every division is free of repeats. */
  predicate EachDistinct(ds: seq<Division>) {
    forall i :: 0 <= i < |ds| ==> Ids.Distinct(ds[i].teams)
  }

  /** No team is in two divisions. */
  predicate PairwiseDisjoint(ds: seq<Division>) {
    forall i, j, id :: 0 <= i < j < |ds| && id in ds[i].teams ==> id !in ds[j].teams
  }

  lemma EachDistinctSnoc(ds: seq<Division>)
    requires |ds| > 0
    ensures EachDistinct(ds) <==> EachDistinct(ds[..|ds| - 1]) && Ids.Distinct(ds[|ds| - 1].teams)
  {
    assert forall i :: 0 <= i < |ds| - 1 ==> ds[..|ds| - 1][i] == ds[i];
  }

  lemma PairwiseDisjointSnoc(ds: seq<Division>)
    requires |ds| > 0
    ensures PairwiseDisjoint(ds) <==>
            PairwiseDisjoint(ds[..|ds| - 1]) && Ids.Separated(AllTeamsOf(ds[..|ds| - 1]), ds[|ds| - 1].teams)
  {
    var front := ds[..|ds| - 1];
    assert forall i :: 0 <= i < |front| ==> front[i] == ds[i];
    if PairwiseDisjoint(front) && Ids.Separated(AllTeamsOf(front), ds[|ds| - 1].teams) {
      forall i, j, id | 0 <= i < j < |ds| && id in ds[i].teams ensures id !in ds[j].teams {
        assert id in front[i].teams;
        if j == |ds| - 1 {
          assert id in AllTeamsOf(front);
        } else {
          assert front[j] == ds[j];
        }
      }
    }
    if PairwiseDisjoint(ds) {
      forall id | id in AllTeamsOf(front) ensures id !in ds[|ds| - 1].teams {
        var i :| 0 <= i < |front| && id in front[i].teams;
        assert id in ds[i].teams;
      }
    }
  }

  /** `LeagueConference::new` and `with_name`: no divisions. */
  function NewConference(name: string): (c: Conference)
    ensures NumDivisions(c) == 0 && NumTeams(c) == 0
  {
    Conference(name, [])
  }

  /** `add_division`: appends, so the new division is the last one and the
      others keep their positions. */
  function AddDivision(c: Conference, d: Division): (r: Conference)
    ensures NumDivisions(r) == NumDivisions(c) + 1
    ensures DivisionAt(r, NumDivisions(c)) == Some(d)
    ensures forall i: nat :: i < NumDivisions(c) ==> DivisionAt(r, i) == DivisionAt(c, i)
    ensures NumTeams(r) == NumTeams(c) + NumDivisionTeams(d)
  {
    var r := c.(divisions := c.divisions + [d]);
    assert r.divisions[..|r.divisions| - 1] == c.divisions;
    r
  }

  /** `division(id)`: the division at that position, or `None` past the end. */
  function DivisionAt(c: Conference, i: nat): (r: Option<Division>)
    ensures r.Some? <==> i < NumDivisions(c)
    ensures r.Some? ==> r.value in c.divisions
  {
    if i < |c.divisions| then Some(c.divisions[i]) else None
  }

  function NumDivisions(c: Conference): nat {
    |c.divisions|
  }

  /** `all_teams`: the division team lists concatenated in order. */
  function AllTeams(c: Conference): seq<nat> {
    AllTeamsOf(c.divisions)
  }

  /** `num_teams`: the sum of the division sizes. */
  function NumTeams(c: Conference): nat {
    NumTeamsOf(c.divisions)
  }

  /** `contains_team`: some division contains the team. */
  predicate ContainsTeam(c: Conference, id: nat) {
    exists i :: 0 <= i < |c.divisions| && ContainsDivisionTeam(c.divisions[i], id)
  }

  /** `team_division`: the position of the first division containing the
      team. */
  function TeamDivision(c: Conference, id: nat): (r: Option<nat>)
    ensures r.Some? ==> r.value < |c.divisions| && ContainsDivisionTeam(c.divisions[r.value], id)
    ensures r.Some? ==> forall j :: 0 <= j < r.value ==> !ContainsDivisionTeam(c.divisions[j], id)
    ensures r.None? <==> !ContainsTeam(c, id)
  {
    FirstDivisionFrom(c.divisions, id, 0)
  }

  function FirstDivisionFrom(ds: seq<Division>, id: nat, k: nat): (r: Option<nat>)
    requires k <= |ds|
    ensures r.Some? ==> k <= r.value < |ds| && id in ds[r.value].teams
    ensures r.Some? ==> forall j :: k <= j < r.value ==> id !in ds[j].teams
    ensures r.None? <==> forall j :: k <= j < |ds| ==> id !in ds[j].teams
    decreases |ds| - k
  {
    if k == |ds| then None
    else if id in ds[k].teams then Some(k)
    else FirstDivisionFrom(ds, id, k + 1)
  }

  /** `all_teams` has `num_teams` entries, and a team is among them exactly
      when the conference contains it. */
  lemma {:induction false} AllTeamsCount(ds: seq<Division>)
    ensures |AllTeamsOf(ds)| == NumTeamsOf(ds)
    decreases |ds|
  {
    if |ds| > 0 {
      AllTeamsCount(ds[..|ds| - 1]);
    }
  }

  lemma AllTeamsContains(c: Conference, id: nat)
    ensures |AllTeams(c)| == NumTeams(c)
    ensures id in AllTeams(c) <==> ContainsTeam(c, id)
    ensures id in AllTeams(c) <==> TeamDivision(c, id).Some?
  {
    AllTeamsCount(c.divisions);
  }

  /** In a valid conference the division of a team is unique, so "first" in
      `team_division` is the only one. */
  lemma TeamDivisionUnique(c: Conference, id: nat, i: nat)
    requires ValidConference(c)
    requires i < |c.divisions| && ContainsDivisionTeam(c.divisions[i], id)
    ensures TeamDivision(c, id) == Some(i)
  {
    ConferenceTeamsDistinct(c.divisions);
    assert ContainsTeam(c, id);
  }

  /** The test conference, AFC with East {0, 1} then West {2, 3}. */
  function TestConference(): Conference {
    AddDivision(AddDivision(NewConference("AFC"), EastWest(true)), EastWest(false))
  }

  /** East {0, 1} then West {2, 3}, whatever the names. */
  predicate TestShape(c: Conference) {
    |c.divisions| == 2 && c.divisions[0].teams == [0, 1] && c.divisions[1].teams == [2, 3]
  }

  lemma TestConferenceShape()
    ensures TestShape(TestConference()) && |TestConference().name| <= MaxNameLength
  {
    var c := TestConference();
    assert c.divisions == [] + [EastWest(true)] + [EastWest(false)];
  }

  /** The unit tests: a conference of four teams in which 0 and 1 are in
      division 0, 2 and 3 in division 1, and 4 in none. */
  lemma ConferenceExample(c: Conference)
    requires TestShape(c)
    ensures NumDivisions(c) == 2 && NumTeams(c) == 4
    ensures TeamDivision(c, 0) == Some(0) && TeamDivision(c, 1) == Some(0)
    ensures TeamDivision(c, 2) == Some(1) && TeamDivision(c, 3) == Some(1)
    ensures TeamDivision(c, 4) == None
  {
    var ds := c.divisions;
    assert ds[..1][..0] == [] && ds[..1][0] == ds[0];
    assert NumTeamsOf(ds[..1]) == 2;
    assert ds[..2] == ds;
    assert NumTeamsOf(ds) == NumTeamsOf(ds[..1]) + 2;
  }

  /** The test conference passes its own validator. */
  lemma ConferenceExampleValid(c: Conference)
    requires TestShape(c) && |c.name| <= MaxNameLength
    ensures ValidConference(c)
  {
    var ds := c.divisions;
    assert ds[..1][..0] == [] && ds[..1][0] == ds[0];
    assert AllTeamsOf(ds[..1]) == [] + [0, 1];
    assert ds[..2] == ds;
    assert AllTeamsOf(ds) == AllTeamsOf(ds[..1]) + [2, 3];
    assert AllTeams(c) == [0, 1, 2, 3];
    assert Ids.Distinct([0, 1, 2, 3]);
  }

  /** The conference of the unit tests, built with `add_division`. */
  lemma TestConferenceExample()
    ensures NumTeams(TestConference()) == 4 && TeamDivision(TestConference(), 4) == None
    ensures ValidConference(TestConference())
  {
    TestConferenceShape();
    ConferenceExample(TestConference());
    ConferenceExampleValid(TestConference());
  }

  /** The two test divisions, built with `add_team`. */
  function EastWest(east: bool): (d: Division)
    ensures d == if east then Division("East", [0, 1]) else Division("West", [2, 3])
  {
    assert [] + [0] + [1] == [0, 1] && [] + [2] + [3] == [2, 3];
    if east then AddTeam(AddTeam(NewDivision("East"), 0), 1)
    else AddTeam(AddTeam(NewDivision("West"), 2), 3)
  }
}
