/** Lists of team IDs without repetitions, and the `HashSet::insert` scan the
    league validators use to find the first repeated ID. */
module Ids {
  import opened Wrappers

  /** No ID occurs twice. */
  predicate Distinct(s: seq<nat>) {
    forall i, j :: 0 <= i < j < |s| ==> s[i] != s[j]
  }

  /** Scans `s` from the front, inserting every ID into the `seen` set, and
      stops at the first ID the set already holds. */
  function FirstRepeat(s: seq<nat>, seen: set<nat>): (r: Option<nat>)
    ensures r.None? <==> Distinct(s) && forall i :: 0 <= i < |s| ==> s[i] !in seen
    ensures r.Some? ==> r.value in s && (r.value in seen || multiset(s)[r.value] >= 2)
    decreases |s|
  {
    if |s| == 0 then None
    else if s[0] in seen then Some(s[0])
    else
      var r := FirstRepeat(s[1..], seen + {s[0]});
      assert s == [s[0]] + s[1..];
      if r.None? then
        assert Distinct(s) by {
          forall i, j | 0 <= i < j < |s| ensures s[i] != s[j] {
            if i > 0 { assert s[i] == s[1..][i - 1] && s[j] == s[1..][j - 1]; }
            else { assert s[j] == s[1..][j - 1]; }
          }
        }
        r
      else
        assert multiset(s) == multiset([s[0]]) + multiset(s[1..]);
        r
  }

  /** A concatenation is repetition-free iff both halves are and no ID is in
      both. */
  lemma DistinctAppend(a: seq<nat>, b: seq<nat>)
    ensures Distinct(a + b) <==>
            Distinct(a) && Distinct(b) && forall i, j :: 0 <= i < |a| && 0 <= j < |b| ==> a[i] != b[j]
  {
    if Distinct(a + b) {
      forall i, j | 0 <= i < |a| && 0 <= j < |b| ensures a[i] != b[j] {
        assert (a + b)[i] == a[i] && (a + b)[|a| + j] == b[j];
      }
      forall i, j | 0 <= i < j < |b| ensures b[i] != b[j] {
        assert (a + b)[|a| + i] == b[i] && (a + b)[|a| + j] == b[j];
      }
      forall i, j | 0 <= i < j < |a| ensures a[i] != a[j] {
        assert (a + b)[i] == a[i] && (a + b)[j] == a[j];
      }
    }
  }

  /** No ID of `a` is in `b`. */
  predicate Separated(a: seq<nat>, b: seq<nat>) {
    forall id :: id in a ==> id !in b
  }

  lemma DisjointFromFront(a: seq<nat>, b: seq<nat>)
    ensures (forall i, j :: 0 <= i < |a| && 0 <= j < |b| ==> a[i] != b[j]) <==> Separated(a, b)
  {
    if !Separated(a, b) {
      var id :| id in a && id in b;
      var i :| 0 <= i < |a| && a[i] == id;
      var j :| 0 <= j < |b| && b[j] == id;
    } else {
      forall i, j | 0 <= i < |a| && 0 <= j < |b| ensures a[i] != b[j] {
        assert a[i] in a;
      }
    }
  }

  /** A concatenation is repetition-free iff both halves are and they share
      no ID. */
  lemma DistinctConcat(a: seq<nat>, b: seq<nat>)
    ensures Distinct(a + b) <==> Distinct(a) && Distinct(b) && Separated(a, b)
  {
    DistinctAppend(a, b);
    DisjointFromFront(a, b);
  }

  /** A list is repetition-free iff no ID occurs in it more than once, so
      any reordering of a repetition-free list is repetition-free. */
  lemma {:induction false} DistinctCounts(s: seq<nat>)
    ensures Distinct(s) <==> forall x :: multiset(s)[x] <= 1
    decreases |s|
  {
    if |s| > 0 {
      var t := s[1..];
      assert s == [s[0]] + t;
      DistinctCounts(t);
      DistinctAppend([s[0]], t);
      assert multiset(s) == multiset{s[0]} + multiset(t);
      if !Distinct(s) {
        if Distinct(t) {
          var j :| 0 <= j < |t| && s[0] == t[j];
          assert t[j] in multiset(t);
          assert multiset(s)[s[0]] > 1;
        } else {
          var x :| multiset(t)[x] > 1;
          assert multiset(s)[x] > 1;
        }
      }
      if Distinct(s) {
        forall x ensures multiset(s)[x] <= 1 {
          if x == s[0] {
            assert x !in t;
          }
        }
      }
    }
  }
}
