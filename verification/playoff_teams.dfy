/** The playoff field (`PlayoffTeams` in src/league/season/playoffs.rs): for
    every conference, keyed by conference index, the teams in it keyed by team
    ID, each with the seed it was given on entry and its short name. */
module PlayoffTeams {
  import opened Wrappers
  import Ids
  import Maps

  const MaxShortNameLength: nat := 4

  datatype PlayoffTeam = PlayoffTeam(seed: nat, shortName: string)

  /** One conference's entrants, keyed by team ID. */
  type Entrants = map<nat, PlayoffTeam>

  datatype PlayoffTeams = PlayoffTeams(teams: map<nat, Entrants>)

  datatype TeamsError =
    | ShortNameTooLong(name: string)
    | DuplicateTeam(id: nat)
    | AlreadyInConference(id: nat, conference: nat)

  /** `PlayoffTeamRaw::validate`. */
  function ValidatePlayoffTeam(t: PlayoffTeam): (r: Result<(), TeamsError>)
    ensures r.Ok? <==> |t.shortName| <= MaxShortNameLength
    ensures r.Err? ==> r.error == ShortNameTooLong(t.shortName)
  {
    if |t.shortName| > MaxShortNameLength then Err(ShortNameTooLong(t.shortName)) else Ok(())
  }

  /** `PlayoffTeams::new`. */
  function New(): (t: PlayoffTeams)
    ensures Len(t) == 0 && IsEmpty(t)
  {
    PlayoffTeams(map[])
  }

  /** The entrants of one conference; a conference never added has none. */
  function Members(t: PlayoffTeams, conference: nat): Entrants {
    if conference in t.teams then t.teams[conference] else map[]
  }

  /** `iter`: the team IDs, conference by conference in key order and by ID
      within a conference. */
  function Iter(t: PlayoffTeams): seq<nat> {
    IterOf(t.teams, Maps.Keys(t.teams))
  }

  function IterOf(m: map<nat, Entrants>, ks: seq<nat>): seq<nat>
    decreases |ks|
  {
    if |ks| == 0 then [] else IterOf(m, ks[..|ks| - 1]) + TeamsAt(m, ks[|ks| - 1])
  }

  /** The IDs of the conference with the given key, in ascending order. */
  function TeamsAt(m: map<nat, Entrants>, k: nat): (r: seq<nat>)
    ensures forall id :: id in r <==> k in m && id in m[k]
    ensures Ids.Distinct(r)
    ensures |r| == if k in m then |m[k]| else 0
  {
    if k in m then
      var r := Maps.Keys(m[k]);
      assert forall i, j :: 0 <= i < j < |r| ==> r[i] < r[j];
      r
    else []
  }

  /** An ID is listed exactly when some listed conference holds it. */
  lemma {:induction false} IterOfMember(m: map<nat, Entrants>, ks: seq<nat>, id: nat)
    ensures id in IterOf(m, ks) <==> exists i :: 0 <= i < |ks| && ks[i] in m && id in m[ks[i]]
    decreases |ks|
  {
    if |ks| > 0 {
      var front := ks[..|ks| - 1];
      IterOfMember(m, front, id);
      assert forall i :: 0 <= i < |front| ==> front[i] == ks[i];
    }
  }

  /** No team is entered in two conferences. */
  predicate CrossDisjoint(t: PlayoffTeams) {
    forall c1, c2 :: c1 in t.teams && c2 in t.teams && c1 != c2 ==> t.teams[c1].Keys !! t.teams[c2].Keys
  }

  /** `PlayoffTeamsRaw::validate`: one scan over `iter` with a set of IDs seen
      so far, failing at the first ID met again. */
  function ValidateTeams(t: PlayoffTeams): (r: Result<(), TeamsError>)
    ensures r.Ok? <==> CrossDisjoint(t)
    ensures r.Err? ==> r.error.DuplicateTeam? && multiset(Iter(t))[r.error.id] >= 2
  {
    IterDistinct(t);
    match Ids.FirstRepeat(Iter(t), {})
    case Some(id) => Err(DuplicateTeam(id))
    case None => Ok(())
  }

  /** The scan finds no repeat exactly when the conferences are disjoint: a
      conference on its own never repeats an ID, being keyed by it. */
  lemma IterDistinct(t: PlayoffTeams)
    ensures Ids.Distinct(Iter(t)) <==> CrossDisjoint(t)
  {
    var ks := Maps.Keys(t.teams);
    IterOfDistinct(t.teams, ks);
    if CrossDisjoint(t) {
      DisjointSeparated(t, ks);
    } else {
      var c1, c2 :| c1 in t.teams && c2 in t.teams && c1 != c2 && !(t.teams[c1].Keys !! t.teams[c2].Keys);
      OverlapNotSeparated(t.teams, ks, c1, c2);
    }
  }

  lemma DisjointSeparated(t: PlayoffTeams, ks: seq<nat>)
    requires CrossDisjoint(t) && Maps.Ascending(ks)
    ensures KeysSeparated(t.teams, ks)
  {
    forall i, j | 0 <= i < j < |ks| && ks[i] in t.teams && ks[j] in t.teams
      ensures t.teams[ks[i]].Keys !! t.teams[ks[j]].Keys
    {
      assert ks[i] < ks[j];
    }
  }

  lemma OverlapNotSeparated(m: map<nat, Entrants>, ks: seq<nat>, c1: nat, c2: nat)
    requires c1 in ks && c2 in ks && c1 in m && c2 in m && c1 != c2
    requires !(m[c1].Keys !! m[c2].Keys)
    ensures !KeysSeparated(m, ks)
  {
    var i :| 0 <= i < |ks| && ks[i] == c1;
    var j :| 0 <= j < |ks| && ks[j] == c2;
    if i < j {
      assert !(m[ks[i]].Keys !! m[ks[j]].Keys);
    } else {
      assert !(m[ks[j]].Keys !! m[ks[i]].Keys);
    }
  }

  /** Conferences listed at two distinct positions share no team. */
  predicate KeysSeparated(m: map<nat, Entrants>, ks: seq<nat>) {
    forall i, j :: 0 <= i < j < |ks| && ks[i] in m && ks[j] in m ==> m[ks[i]].Keys !! m[ks[j]].Keys
  }

  lemma {:induction false} IterOfDistinct(m: map<nat, Entrants>, ks: seq<nat>)
    ensures Ids.Distinct(IterOf(m, ks)) <==> KeysSeparated(m, ks)
    decreases |ks|
  {
    if |ks| > 0 {
      var front := ks[..|ks| - 1];
      var last := ks[|ks| - 1];
      IterOfDistinct(m, front);
      Ids.DistinctConcat(IterOf(m, front), TeamsAt(m, last));
      TailApart(m, front, last);
      KeysSeparatedSnoc(m, ks);
    }
  }

  lemma KeysSeparatedSnoc(m: map<nat, Entrants>, ks: seq<nat>)
    requires |ks| > 0
    ensures KeysSeparated(m, ks) <==> KeysSeparated(m, ks[..|ks| - 1]) && LastApart(m, ks[..|ks| - 1], ks[|ks| - 1])
  {
    assert forall i :: 0 <= i < |ks| - 1 ==> ks[..|ks| - 1][i] == ks[i];
  }

  /** The conference at `last` shares no team with any listed in `front`. */
  predicate LastApart(m: map<nat, Entrants>, front: seq<nat>, last: nat) {
    forall i :: 0 <= i < |front| && front[i] in m && last in m ==> m[front[i]].Keys !! m[last].Keys
  }

  lemma TailApart(m: map<nat, Entrants>, front: seq<nat>, last: nat)
    ensures Ids.Separated(IterOf(m, front), TeamsAt(m, last)) <==> LastApart(m, front, last)
  {
    if Ids.Separated(IterOf(m, front), TeamsAt(m, last)) {
      forall i | 0 <= i < |front| && front[i] in m && last in m
        ensures m[front[i]].Keys !! m[last].Keys
      {
        forall id | id in m[front[i]] && id in m[last] ensures false {
          IterOfMember(m, front, id);
        }
      }
    }
    if LastApart(m, front, last) {
      forall id | id in IterOf(m, front) ensures id !in TeamsAt(m, last) {
        IterOfMember(m, front, id);
      }
    }
  }

  /** `add`: the team joins the given conference (created on first use) with
      the next seed there. Only that conference is checked for the ID. */
  function Add(t: PlayoffTeams, id: nat, shortName: string, conference: nat): (r: Result<PlayoffTeams, TeamsError>)
    ensures r.Err? <==> id in Members(t, conference)
    ensures r.Err? ==> r.error == AlreadyInConference(id, conference)
    ensures r.Ok? ==> Members(r.value, conference)
                      == Members(t, conference)[id := PlayoffTeam(|Members(t, conference)| + 1, shortName)]
    ensures r.Ok? ==> forall c :: c != conference ==> Members(r.value, c) == Members(t, c)
                                                      && (c in r.value.teams <==> c in t.teams)
    ensures r.Ok? ==> conference in r.value.teams
  {
    var entrants := Members(t, conference);
    if id in entrants then Err(AlreadyInConference(id, conference))
    else Ok(PlayoffTeams(t.teams[conference := entrants[id := PlayoffTeam(|entrants| + 1, shortName)]]))
  }

  /** The conference holding a team: the first in key order, which is the
      smallest index among those holding it. */
  function TeamConference(t: PlayoffTeams, id: nat): (r: Option<nat>)
    ensures r.None? <==> forall c :: c in t.teams ==> id !in t.teams[c]
    ensures r.Some? ==> r.value in t.teams && id in t.teams[r.value]
    ensures r.Some? ==> forall c :: c in t.teams && id in t.teams[c] ==> r.value <= c
  {
    FirstConference(t.teams, Maps.Keys(t.teams), id)
  }

  function FirstConference(m: map<nat, Entrants>, ks: seq<nat>, id: nat): (r: Option<nat>)
    requires Maps.Ascending(ks)
    ensures r.None? <==> forall i :: 0 <= i < |ks| && ks[i] in m ==> id !in m[ks[i]]
    ensures r.Some? ==> r.value in ks && r.value in m && id in m[r.value]
    ensures r.Some? ==> forall i :: 0 <= i < |ks| && ks[i] in m && id in m[ks[i]] ==> r.value <= ks[i]
    decreases |ks|
  {
    if |ks| == 0 then None
    else if ks[0] in m && id in m[ks[0]] then Some(ks[0])
    else
      assert forall i :: 1 <= i < |ks| ==> ks[1..][i - 1] == ks[i];
      FirstConference(m, ks[1..], id)
  }

  /** `get`: the entry found in the first conference holding the team. */
  function Get(t: PlayoffTeams, id: nat): (r: Option<PlayoffTeam>)
    ensures r.Some? <==> exists c :: c in t.teams && id in t.teams[c]
    ensures r.Some? ==> exists c :: c in t.teams && id in t.teams[c] && t.teams[c][id] == r.value
  {
    match TeamConference(t, id)
    case Some(c) => Some(t.teams[c][id])
    case None => None
  }

  /** `contains`. */
  predicate Contains(t: PlayoffTeams, id: nat) {
    Get(t, id).Some?
  }

  /** A team is contained exactly when `iter` lists it. */
  lemma ContainsIffListed(t: PlayoffTeams, id: nat)
    ensures Contains(t, id) <==> id in Iter(t)
  {
    IterOfMember(t.teams, Maps.Keys(t.teams), id);
    if Contains(t, id) {
      var c := TeamConference(t, id).value;
      assert c in Maps.Keys(t.teams);
    }
  }

  /** In a valid field `get` returns the entry of the one conference holding
      the team. */
  lemma GetInValidField(t: PlayoffTeams, id: nat, c: nat)
    requires CrossDisjoint(t)
    requires c in t.teams && id in t.teams[c]
    ensures Get(t, id) == Some(t.teams[c][id])
  {
    var c0 := TeamConference(t, id).value;
    assert c0 == c;
  }

  /** `len`: the conference sizes added up in key order. */
  function Len(t: PlayoffTeams): nat {
    SizeSum(t.teams, Maps.Keys(t.teams))
  }

  function SizeSum(m: map<nat, Entrants>, ks: seq<nat>): nat
    decreases |ks|
  {
    if |ks| == 0 then 0
    else SizeSum(m, ks[..|ks| - 1]) + (if ks[|ks| - 1] in m then |m[ks[|ks| - 1]]| else 0)
  }

  /** `is_empty`: no conference, or none with a team. */
  predicate IsEmpty(t: PlayoffTeams) {
    |t.teams| == 0 || forall c :: c in t.teams ==> |t.teams[c]| == 0
  }

  /** `len` counts exactly the IDs `iter` lists, so it is zero exactly when
      the field is empty. */
  lemma LenIsIterLength(t: PlayoffTeams)
    ensures Len(t) == |Iter(t)|
    ensures Len(t) == 0 <==> IsEmpty(t)
  {
    var ks := Maps.Keys(t.teams);
    SizeSumIsLength(t.teams, ks);
    if Len(t) == 0 {
      forall c | c in t.teams ensures |t.teams[c]| == 0 {
        if |t.teams[c]| != 0 {
          var id :| id in t.teams[c];
          assert c in ks;
          IterOfMember(t.teams, ks, id);
        }
      }
    }
    if |Iter(t)| != 0 {
      IterOfMember(t.teams, ks, Iter(t)[0]);
    }
  }

  lemma {:induction false} SizeSumIsLength(m: map<nat, Entrants>, ks: seq<nat>)
    ensures SizeSum(m, ks) == |IterOf(m, ks)|
    decreases |ks|
  {
    if |ks| > 0 {
      SizeSumIsLength(m, ks[..|ks| - 1]);
    }
  }

  /** `num_conferences`. */
  function NumConferences(t: PlayoffTeams): nat {
    |t.teams|
  }

  /** Some team of the conference holds the seed. */
  predicate HasSeed(e: Entrants, s: nat) {
    exists id :: id in e && e[id].seed == s
  }

  /** The seeds of a conference are 1 to its size, one team each. */
  predicate SeedsDense(e: Entrants) {
    && (forall id :: id in e ==> 1 <= e[id].seed <= |e|)
    && (forall a, b :: a in e && b in e && a != b ==> e[a].seed != e[b].seed)
    && (forall s :: 1 <= s <= |e| ==> HasSeed(e, s))
  }

  /** Seeding on entry keeps every conference densely seeded: the newcomer
      takes the one seed past the end. */
  lemma AddKeepsSeedsDense(t: PlayoffTeams, id: nat, shortName: string, conference: nat)
    requires forall c :: SeedsDense(Members(t, c))
    requires Add(t, id, shortName, conference).Ok?
    ensures forall c :: SeedsDense(Members(Add(t, id, shortName, conference).value, c))
  {
    var r := Add(t, id, shortName, conference).value;
    var e := Members(t, conference);
    var e' := Members(r, conference);
    assert |e'| == |e| + 1;
    forall s | 1 <= s <= |e'| ensures HasSeed(e', s) {
      if s == |e'| {
        assert e'[id].seed == s;
      } else {
        assert HasSeed(e, s);
        var x :| x in e && e[x].seed == s;
        assert x in e' && e'[x].seed == s;
      }
    }
    forall c ensures SeedsDense(Members(r, c)) {
      if c == conference {
        assert SeedsDense(e');
      } else {
        assert Members(r, c) == Members(t, c);
      }
    }
  }

  /** `get_by_seed`: the team of a conference holding a seed, the one with the
      smallest ID if several do. */
  function GetBySeed(t: PlayoffTeams, conference: nat, seed: nat): (r: Option<(nat, PlayoffTeam)>)
    ensures r.Some? <==> conference in t.teams && exists id :: id in t.teams[conference] && t.teams[conference][id].seed == seed
    ensures r.Some? ==> r.value.0 in t.teams[conference] && t.teams[conference][r.value.0] == r.value.1
                        && r.value.1.seed == seed
    ensures r.Some? ==> forall id :: id in t.teams[conference] && t.teams[conference][id].seed == seed ==> r.value.0 <= id
  {
    if conference !in t.teams then None
    else
      var e := t.teams[conference];
      var ks := Maps.Keys(e);
      match FirstWithSeed(e, ks, seed)
      case Some(id) => Some((id, e[id]))
      case None => None
  }

  function FirstWithSeed(e: Entrants, ks: seq<nat>, seed: nat): (r: Option<nat>)
    requires Maps.Ascending(ks)
    requires forall i :: 0 <= i < |ks| ==> ks[i] in e
    ensures r.None? <==> forall i :: 0 <= i < |ks| ==> e[ks[i]].seed != seed
    ensures r.Some? ==> r.value in ks && e[r.value].seed == seed
    ensures r.Some? ==> forall i :: 0 <= i < |ks| && e[ks[i]].seed == seed ==> r.value <= ks[i]
    decreases |ks|
  {
    if |ks| == 0 then None
    else if e[ks[0]].seed == seed then Some(ks[0])
    else
      assert forall i :: 1 <= i < |ks| ==> ks[1..][i - 1] == ks[i];
      FirstWithSeed(e, ks[1..], seed)
  }

  /** In a densely seeded conference every seed from 1 to its size names
      exactly one team, and no other seed names any. */
  lemma SeedLookup(t: PlayoffTeams, conference: nat, seed: nat)
    requires conference in t.teams && SeedsDense(t.teams[conference])
    ensures GetBySeed(t, conference, seed).Some? <==> 1 <= seed <= |t.teams[conference]|
    ensures forall id :: id in t.teams[conference] && t.teams[conference][id].seed == seed
              ==> GetBySeed(t, conference, seed) == Some((id, t.teams[conference][id]))
  {
    if 1 <= seed <= |t.teams[conference]| {
      assert HasSeed(t.teams[conference], seed);
    }
  }

  /** Three entries into a new conference take seeds 1, 2 and 3 in order of
      entry, and entering the first one again is refused. */
  lemma SeedingExample()
    ensures var t1 := Add(New(), 5, "E", 0);
            t1.Ok? && Members(t1.value, 0)[5].seed == 1
            && var t2 := Add(t1.value, 2, "B", 0);
            t2.Ok? && Members(t2.value, 0)[2].seed == 2
            && var t3 := Add(t2.value, 9, "I", 0);
            t3.Ok? && Members(t3.value, 0)[9].seed == 3
            && Add(t3.value, 5, "E", 0) == Err(AlreadyInConference(5, 0))
  {
  }

  /** `add` checks only the conference it adds to, so the same team can be
      entered in two conferences, leaving a field the program's own
      validator refuses to load. */
  lemma AddAcceptsCrossConferenceDuplicate()
    ensures var t1 := Add(New(), 7, "SEVN", 0);
            t1.Ok? && var t2 := Add(t1.value, 7, "SEVN", 1);
            t2.Ok? && !CrossDisjoint(t2.value) && ValidateTeams(t2.value).Err?
  {
    var t1 := Add(New(), 7, "SEVN", 0).value;
    var t2 := Add(t1, 7, "SEVN", 1).value;
    assert 7 in t2.teams[0] && 7 in t2.teams[1];
  }

  /** `add` as the validator expects it: a team already in any conference is
      refused. */
  function AddChecked(t: PlayoffTeams, id: nat, shortName: string, conference: nat): (r: Result<PlayoffTeams, TeamsError>)
    ensures r.Err? <==> Contains(t, id)
    ensures r.Ok? ==> r == Add(t, id, shortName, conference)
  {
    if Contains(t, id) then
      match TeamConference(t, id)
      case Some(c) => Err(AlreadyInConference(id, c))
      case None => Err(DuplicateTeam(id))
    else Add(t, id, shortName, conference)
  }

  /** The checked insertion keeps a valid field valid. */
  lemma AddCheckedKeepsValid(t: PlayoffTeams, id: nat, shortName: string, conference: nat)
    requires CrossDisjoint(t)
    requires AddChecked(t, id, shortName, conference).Ok?
    ensures CrossDisjoint(AddChecked(t, id, shortName, conference).value)
  {
    NotContained(t, id);
    AddFreshKeepsValid(t, id, shortName, conference);
  }

  lemma NotContained(t: PlayoffTeams, id: nat)
    requires !Contains(t, id)
    ensures forall c :: c in t.teams ==> id !in t.teams[c]
  {
  }

  /** Inserting a team no conference holds keeps the conferences disjoint. */
  lemma AddFreshKeepsValid(t: PlayoffTeams, id: nat, shortName: string, conference: nat)
    requires CrossDisjoint(t)
    requires forall c :: c in t.teams ==> id !in t.teams[c]
    ensures Add(t, id, shortName, conference).Ok?
    ensures CrossDisjoint(Add(t, id, shortName, conference).value)
  {
    var e := Members(t, conference);
    var grown := e[id := PlayoffTeam(|e| + 1, shortName)];
    var m := t.teams[conference := grown];
    assert Add(t, id, shortName, conference) == Ok(PlayoffTeams(m));
    forall c1, c2 | c1 in m && c2 in m && c1 != c2
      ensures m[c1].Keys !! m[c2].Keys
    {
      if c1 == conference {
        FreshApart(t, id, conference, grown, c2);
      } else if c2 == conference {
        FreshApart(t, id, conference, grown, c1);
      } else {
        assert m[c1] == t.teams[c1] && m[c2] == t.teams[c2];
      }
    }
  }

  /** The conference that received a team nobody held still shares no team
      with any other conference. */
  lemma FreshApart(t: PlayoffTeams, id: nat, conference: nat, grown: Entrants, c: nat)
    requires CrossDisjoint(t)
    requires forall c' :: c' in t.teams ==> id !in t.teams[c']
    requires grown.Keys == Members(t, conference).Keys + {id}
    requires c in t.teams && c != conference
    ensures grown.Keys !! t.teams[c].Keys
  {
    assert id !in t.teams[c];
    if conference in t.teams {
      assert t.teams[conference].Keys !! t.teams[c].Keys;
    }
  }
}
