/** Choosing a conference's playoff field from its standings: the division
    winners first, in the order they stand in the conference, then the best
    of the remaining teams until the field is full. */
module Selection {
  import Ids

  /** The IDs of `s` as a set. */
  function Members(s: seq<nat>): set<nat> {
    set x | x in s
  }

  /** A repetition-free list has as many members as entries. */
  lemma {:induction false} DistinctCard(s: seq<nat>)
    requires Ids.Distinct(s)
    ensures |Members(s)| == |s|
    decreases |s|
  {
    if |s| > 0 {
      var rest := s[1..];
      DistinctTail(s);
      DistinctCard(rest);
      assert Members(s) == Members(rest) + {s[0]} by {
        assert s == [s[0]] + rest;
      }
    }
  }

  /** The tail of a repetition-free list is repetition-free and misses the
      head. */
  lemma DistinctTail(s: seq<nat>)
    requires Ids.Distinct(s) && |s| > 0
    ensures Ids.Distinct(s[1..]) && s[0] !in s[1..]
  {
    var rest := s[1..];
    forall i, j | 0 <= i < j < |rest| ensures rest[i] != rest[j] {
      assert rest[i] == s[i + 1] && rest[j] == s[j + 1];
    }
    forall i | 0 <= i < |rest| ensures rest[i] != s[0] {
      assert rest[i] == s[i + 1];
    }
  }

  /** A set holding every entry of a repetition-free list is at least as
      large as the list. */
  lemma CoveredIsLarger(s: seq<nat>, t: set<nat>)
    requires Ids.Distinct(s)
    requires forall x :: x in s ==> x in t
    ensures |s| <= |t|
  {
    DistinctCard(s);
    assert Members(s) <= t;
    SubsetCard(Members(s), t);
  }

  lemma SubsetCard(a: set<nat>, b: set<nat>)
    requires a <= b
    ensures |a| <= |b|
  {
    assert b == a + (b - a);
  }

  // ----- the division winners, ordered by conference standing -----

  /** `count` copies of `x`. */
  function Copies(x: nat, count: nat): (r: seq<nat>)
    ensures |r| == count
    ensures forall i :: 0 <= i < |r| ==> r[i] == x
  {
    seq(count, _ => x)
  }

  /** The winners sorted by the position of their first appearance in the
      standings `st`: a stable sort by that position, so a winner listed
      twice keeps both copies and a winner missing from `st` is dropped. */
  function ByPosition(winners: seq<nat>, st: seq<nat>): (r: seq<nat>)
    ensures forall x :: x in r ==> x in winners && x in st
    decreases |st|
  {
    if |st| == 0 then []
    else Copies(st[0], multiset(winners)[st[0]]) + ByPosition(winners, st[1..])
  }

  /** Without repetitions among the winners or in the standings, the sorted
      winners are exactly the winners found in the standings, each once. */
  lemma {:induction false} ByPositionIsWinners(winners: seq<nat>, st: seq<nat>)
    requires Ids.Distinct(winners) && Ids.Distinct(st)
    ensures Ids.Distinct(ByPosition(winners, st))
    ensures forall x :: x in ByPosition(winners, st) <==> x in winners && x in st
    decreases |st|
  {
    if |st| > 0 {
      var rest := st[1..];
      DistinctTail(st);
      ByPositionIsWinners(winners, rest);
      var tail := ByPosition(winners, rest);
      var head := Copies(st[0], multiset(winners)[st[0]]);
      DistinctCount(winners, st[0]);
      assert ByPosition(winners, st) == head + tail;
      Ids.DistinctConcat(head, tail);
      forall x ensures x in head + tail <==> x in winners && x in st {
        assert x in st <==> x == st[0] || x in rest by { assert st == [st[0]] + rest; }
        if x == st[0] && x in winners { assert head[0] == x; }
      }
    }
  }

  /** The sorted winners keep the order of the standings. */
  lemma {:induction false} ByPositionFollowsStandings(winners: seq<nat>, st: seq<nat>)
    requires Ids.Distinct(st)
    ensures forall i, j :: 0 <= i < j < |ByPosition(winners, st)| ==>
              Index(st, ByPosition(winners, st)[i]) <= Index(st, ByPosition(winners, st)[j])
    decreases |st|
  {
    if |st| > 0 {
      var rest := st[1..];
      DistinctTail(st);
      ByPositionFollowsStandings(winners, rest);
      var tail := ByPosition(winners, rest);
      var head := Copies(st[0], multiset(winners)[st[0]]);
      var r := head + tail;
      assert ByPosition(winners, st) == r;
      IndexShift(st);
      forall i, j | 0 <= i < j < |r| ensures Index(st, r[i]) <= Index(st, r[j]) {
        if i < |head| {
          assert r[i] == st[0];
        } else {
          assert r[i] == tail[i - |head|] && r[j] == tail[j - |head|];
        }
      }
    }
  }

  /** A winner occurs at most once in a repetition-free list. */
  lemma DistinctCount(s: seq<nat>, x: nat)
    requires Ids.Distinct(s)
    ensures multiset(s)[x] == if x in s then 1 else 0
  {
    if x in s {
      var i :| 0 <= i < |s| && s[i] == x;
      assert s == s[..i] + [x] + s[i + 1..];
      assert x !in s[..i] && x !in s[i + 1..] by {
        forall k | 0 <= k < i ensures s[..i][k] != x { assert s[..i][k] == s[k]; }
        var t := s[i + 1..];
        forall k | 0 <= k < |t| ensures t[k] != x { assert t[k] == s[i + 1 + k]; }
      }
      assert multiset(s) == multiset(s[..i]) + multiset{x} + multiset(s[i + 1..]);
    } else {
      assert multiset(s)[x] == 0;
    }
  }

  /** The position of `x` in `s`: the first index holding it, `|s|` if none. */
  function Index(s: seq<nat>, x: nat): (r: nat)
    ensures r <= |s|
    ensures r < |s| <==> x in s
    ensures r < |s| ==> s[r] == x
    ensures forall k :: 0 <= k < r ==> s[k] != x
    decreases |s|
  {
    if |s| == 0 then 0 else if s[0] == x then 0 else Index(s[1..], x) + 1
  }

  lemma IndexShift(s: seq<nat>)
    requires |s| > 0
    ensures forall x :: x in s[1..] && x != s[0] ==> Index(s, x) == Index(s[1..], x) + 1
    ensures Index(s, s[0]) == 0
  {
  }

  // ----- filling the field -----

  /** The first `k` of the sorted winners, pushed while the field has room. */
  function Take(ws: seq<nat>, k: nat): (r: seq<nat>)
    ensures |r| == if |ws| < k then |ws| else k
    ensures r == ws[..|r|]
  {
    if |ws| < k then ws else ws[..k]
  }

  /** The wild-card pass: walk the standings, stop once the field holds `k`
      teams, and push every team not already in the field. */
  function Fill(acc: seq<nat>, st: seq<nat>, k: nat): (r: seq<nat>)
    ensures |acc| <= |r| && r[..|acc|] == acc
    ensures |acc| <= k ==> |r| <= k
    ensures forall x :: x in r ==> x in acc || x in st
    ensures Ids.Distinct(acc) ==> Ids.Distinct(r)
    ensures |r| < k ==> forall x :: x in st ==> x in r
    decreases |st|
  {
    if |st| == 0 || |acc| >= k then acc
    else if st[0] in acc then
      var r := Fill(acc, st[1..], k);
      assert forall x :: x in st ==> x == st[0] || x in st[1..];
      assert forall x :: x in acc ==> x in r by {
        forall x | x in acc ensures x in r {
          var i :| 0 <= i < |acc| && acc[i] == x;
          assert r[..|acc|][i] == x;
        }
      }
      r
    else
      var acc' := acc + [st[0]];
      var r := Fill(acc', st[1..], k);
      assert r[..|acc|] == r[..|acc'|][..|acc|];
      assert forall x :: x in st ==> x == st[0] || x in st[1..];
      assert forall x :: x in acc' ==> x in r by {
        forall x | x in acc' ensures x in r {
          var i :| 0 <= i < |acc'| && acc'[i] == x;
          assert r[..|acc'|][i] == x;
        }
      }
      assert Ids.Distinct(acc) ==> Ids.Distinct(acc') by {
        Ids.DistinctConcat(acc, [st[0]]);
      }
      r
  }

  /** The teams of the standings not yet in the field, in standings order. */
  function Fresh(st: seq<nat>, acc: seq<nat>): (r: seq<nat>)
    ensures forall x :: x in r <==> x in st && x !in acc
    decreases |st|
  {
    if |st| == 0 then []
    else
      assert forall x :: x in st <==> x == st[0] || x in st[1..];
      if st[0] in acc then Fresh(st[1..], acc) else [st[0]] + Fresh(st[1..], acc)
  }

  lemma {:induction false} FreshIgnoresAbsent(st: seq<nat>, acc: seq<nat>, x: nat)
    requires x !in st
    ensures Fresh(st, acc + [x]) == Fresh(st, acc)
    decreases |st|
  {
    if |st| > 0 {
      assert x != st[0];
      assert st[0] in acc + [x] <==> st[0] in acc;
      FreshIgnoresAbsent(st[1..], acc, x);
    }
  }

  function Min(a: int, b: int): int {
    if a < b then a else b
  }

  /** `w` followed by the best teams of the standings `st` that `w` does
      not hold, as many as there is room for up to `k` teams. */
  function TopUp(w: seq<nat>, st: seq<nat>, k: nat): seq<nat> {
    var room := if |w| < k then k - |w| else 0;
    w + Fresh(st, w)[..Min(room, |Fresh(st, w)|)]
  }

  /** The wild cards are the best teams of the standings that the field
      does not yet hold, as many as there is room for. */
  lemma {:induction false} FillIsBestRemaining(acc: seq<nat>, st: seq<nat>, k: nat)
    requires Ids.Distinct(st)
    requires |acc| <= k
    ensures Fill(acc, st, k) == acc + Fresh(st, acc)[..Min(k - |acc|, |Fresh(st, acc)|)]
    decreases |st|
  {
    if |st| > 0 && |acc| < k {
      var rest := st[1..];
      DistinctTail(st);
      if st[0] in acc {
        assert Fresh(st, acc) == Fresh(rest, acc);
        assert Fill(acc, st, k) == Fill(acc, rest, k);
        FillIsBestRemaining(acc, rest, k);
      } else {
        var acc' := acc + [st[0]];
        assert Fill(acc, st, k) == Fill(acc', rest, k);
        FillIsBestRemaining(acc', rest, k);
        FreshIgnoresAbsent(rest, acc, st[0]);
        var f := Fresh(rest, acc);
        assert Fresh(st, acc) == [st[0]] + f;
        PushOne(acc, st[0], f, k);
      }
    }
  }

  lemma PushOne(acc: seq<nat>, x: nat, f: seq<nat>, k: nat)
    requires |acc| < k
    ensures (acc + [x]) + f[..Min(k - |acc + [x]|, |f|)] == acc + ([x] + f)[..Min(k - |acc|, |[x] + f|)]
  {
    var m := Min(k - |acc| - 1, |f|);
    assert ([x] + f)[..m + 1] == [x] + f[..m];
  }

  /** When the standings hold at least `k` distinct teams, the wild-card
      pass fills the field to exactly `k`. */
  lemma FillReachesK(acc: seq<nat>, st: seq<nat>, k: nat)
    requires Ids.Distinct(acc) && Ids.Distinct(st)
    requires |acc| <= k <= |st|
    ensures |Fill(acc, st, k)| == k
  {
    var r := Fill(acc, st, k);
    if |r| < k {
      CoveredIsLarger(st, Members(r));
      DistinctCard(r);
    }
  }

  /** The field of a conference: the sorted division winners while there is
      room, then the wild cards. */
  function Select(sortedWinners: seq<nat>, st: seq<nat>, k: nat): (r: seq<nat>)
    ensures |r| <= k
    ensures forall x :: x in r ==> x in sortedWinners || x in st
  {
    Fill(Take(sortedWinners, k), st, k)
  }

  /** The properties the field promises: at most `k` teams, exactly `k` when
      the standings are large enough, no team twice, the division winners
      first and the rest the best remaining teams in standings order. */
  lemma SelectIsField(sortedWinners: seq<nat>, st: seq<nat>, k: nat)
    requires Ids.Distinct(sortedWinners) && Ids.Distinct(st)
    ensures var r := Select(sortedWinners, st, k);
            && Ids.Distinct(r)
            && (k <= |st| ==> |r| == k)
            && r == TopUp(Take(sortedWinners, k), st, k)
  {
    var w := Take(sortedWinners, k);
    assert Ids.Distinct(w) by {
      assert sortedWinners == w + sortedWinners[|w|..];
      Ids.DistinctConcat(w, sortedWinners[|w|..]);
    }
    FillIsBestRemaining(w, st, k);
    if k <= |st| {
      FillReachesK(w, st, k);
    }
  }

  /** The field chosen from the winners and the standings, both free of
      repetitions: distinct, the winners found in the standings first in
      standings order, then the best remaining teams, exactly `k` of them
      when the standings hold that many. */
  lemma FieldOf(winners: seq<nat>, st: seq<nat>, k: nat)
    requires Ids.Distinct(winners) && Ids.Distinct(st)
    ensures var r := Select(ByPosition(winners, st), st, k);
            && Ids.Distinct(r)
            && r == TopUp(Take(ByPosition(winners, st), k), st, k)
            && (k <= |st| ==> |r| == k)
  {
    ByPositionIsWinners(winners, st);
    SelectIsField(ByPosition(winners, st), st, k);
  }
}
