/** Key-ordered views of maps keyed by IDs: the program keeps its teams and
    playoff conferences in `BTreeMap`s, whose iteration visits the keys in
    ascending order. */
module Maps {
  /** `s` lists its elements in strictly ascending order. */
  predicate Ascending(s: seq<nat>) {
    forall i, j :: 0 <= i < j < |s| ==> s[i] < s[j]
  }

  lemma MinExists(s: set<nat>)
    requires s != {}
    ensures exists m :: m in s && forall x :: x in s ==> m <= x
  {
    var y :| y in s;
    MinFrom(s, 0, y);
  }

  /** Counting up from a lower bound of `s` reaches its least element no
      later than `y`. */
  lemma {:induction false} MinFrom(s: set<nat>, k: nat, y: nat)
    requires y in s && k <= y && forall x :: x in s ==> k <= x
    ensures exists m :: m in s && forall x :: x in s ==> m <= x
    decreases y - k
  {
    if k !in s {
      MinFrom(s, k + 1, y);
    }
  }

  /** The smallest element of a non-empty set. */
  function Min(s: set<nat>): (m: nat)
    requires s != {}
    ensures m in s && forall x :: x in s ==> m <= x
  {
    MinExists(s);
    var m :| m in s && forall x :: x in s ==> m <= x;
    m
  }

  /** The largest element of a non-empty set: the last of its keys in
      ascending order. */
  function Max(s: set<nat>): (m: nat)
    requires s != {}
    ensures m in s && forall x :: x in s ==> x <= m
  {
    var r := SortedKeys(s);
    assert |r| > 0 by { var y :| y in s; assert y in r; }
    assert forall x :: x in s ==> x <= r[|r| - 1] by {
      forall x | x in s ensures x <= r[|r| - 1] {
        var i :| 0 <= i < |r| && r[i] == x;
      }
    }
    r[|r| - 1]
  }

  /** The elements of `s` in ascending order, as a `BTreeMap` visits its keys. */
  function SortedKeys(s: set<nat>): (r: seq<nat>)
    ensures |r| == |s|
    ensures forall x :: x in r <==> x in s
    ensures Ascending(r)
    decreases |s|
  {
    if s == {} then []
    else
      var m := Min(s);
      var rest := SortedKeys(s - {m});
      assert forall i :: 0 <= i < |rest| ==> m < rest[i] by {
        forall i | 0 <= i < |rest| ensures m < rest[i] {
          assert rest[i] in s - {m};
        }
      }
      [m] + rest
  }

  /** The key order of a map. */
  function Keys<V>(m: map<nat, V>): (r: seq<nat>)
    ensures |r| == |m|
    ensures forall x :: x in r <==> x in m
    ensures Ascending(r)
  {
    SortedKeys(m.Keys)
  }

  /** The keys of a three-entry set come out smallest first. */
  lemma SortedKeysExample()
    ensures SortedKeys({7, 2, 5}) == [2, 5, 7]
  {
    var r := SortedKeys({7, 2, 5});
    assert 2 in r && 5 in r && 7 in r;
    assert |r| == 3;
    assert r[0] < r[1] < r[2];
    assert forall i :: 0 <= i < 3 ==> r[i] in {7, 2, 5};
  }
}
