/** The historical score-frequency table (src/game/score/freq.rs): a map from
    a final score to how often it was observed. */
module ScoreFrequency {
  import opened Wrappers

  type Lookup = map<nat, nat>

  /** The frequencies `create` inserts, for scores 0, 1, ..., 62 in order. */
  const Table: seq<nat> :=
    [443, 0, 7, 547, 1, 14, 431, 850, 220, 312]
    + [1271, 50, 204, 1059, 1084, 171, 758, 1617, 105, 438]
    + [1427, 949, 255, 865, 1354, 163, 427, 1115, 687, 188]
    + [579, 899, 99, 241, 621, 305, 105, 289, 406, 42]
    + [103, 225, 154, 47, 95, 140, 13, 26, 63, 44]
    + [10, 30, 35, 2, 8, 16, 12, 2, 4, 7]
    + [1, 1, 5]

  /** `ScoreFrequencyLookup::new`: an empty table. */
  function New(): Lookup {
    map[]
  }

  /** `insert`: records `freq` for `score`, replacing any earlier entry and
      leaving every other score as it was. */
  function Insert(lut: Lookup, score: nat, freq: nat): (r: Lookup)
    ensures score in r && r[score] == freq
    ensures r.Keys == lut.Keys + {score}
    ensures forall s :: s in lut && s != score ==> r[s] == lut[s]
  {
    lut[score := freq]
  }

  /** Inserts `Table[i]` for every score `i` from `from` on, in order. */
  function InsertFrom(lut: Lookup, from: nat): (r: Lookup)
    requires from <= |Table|
    ensures forall s :: from <= s < |Table| ==> s in r && r[s] == Table[s]
    ensures forall s :: s in lut && !(from <= s < |Table|) ==> s in r && r[s] == lut[s]
    ensures forall s :: s in r ==> s in lut || from <= s < |Table|
    decreases |Table| - from
  {
    if from == |Table| then lut else InsertFrom(Insert(lut, from, Table[from]), from + 1)
  }

  /** `create`: the 63 inserts for scores 0 through 62, applied to whatever the
      table already holds. */
  function Create(lut: Lookup): (r: Lookup)
    ensures forall s :: 0 <= s < |Table| ==> s in r && r[s] == Table[s]
    ensures forall s :: s in lut && s >= |Table| ==> s in r && r[s] == lut[s]
  {
    InsertFrom(lut, 0)
  }

  /** `frequency`: the stored value, or 1 for a score the table does not hold.
      It never fails. */
  function Frequency(lut: Lookup, score: nat): (r: Result<nat, string>)
    ensures r.Ok?
    ensures score in lut ==> r.value == lut[score]
    ensures score !in lut ==> r.value == 1
  {
    if score in lut then Ok(lut[score]) else Ok(1)
  }

  /** The populated table reports the observed counts: a shutout 443 times,
      a score of 1 never, and anything beyond 62 once. */
  lemma CreatedTableFrequencies(lut: Lookup, score: nat)
    requires lut == New()
    ensures Frequency(Create(lut), 0) == Ok(443)
    ensures Frequency(Create(lut), 1) == Ok(0)
    ensures score < |Table| ==> Frequency(Create(lut), score) == Ok(Table[score])
    ensures score >= |Table| ==> Frequency(Create(lut), score) == Ok(1)
  {
    assert |Table| == 63;
    assert Table[0] == 443 && Table[1] == 0;
  }

  /** Inserting and then looking up gives back the inserted value. */
  lemma InsertThenFrequency(lut: Lookup, score: nat, freq: nat, other: nat)
    ensures Frequency(Insert(lut, score, freq), score) == Ok(freq)
    ensures other != score ==> Frequency(Insert(lut, score, freq), other) == Frequency(lut, other)
  {
  }
}
