/** The schedule builders of a season (src/league/season.rs): the circle
    method that pairs every team with every other once per cycle of rounds,
    the rotation of the finished weeks, and the greedy packing of a list of
    games into weeks in which no team plays twice. Games are `(home, away)`
    pairs of team IDs here; `Seasons` turns them into matchups. The random
    shuffles of the source become inputs: the order of the team IDs handed to
    the circle method and the order of the games handed to the packing. */
module Schedules {
  import opened Wrappers
  import opened Ids

  /** A game as the generators produce it: home team ID, away team ID. */
  type Pair = (nat, nat)

  // ----- the circle method -----

  /** `a % m` for an `a` below `2 * m`: at most one subtraction. */
  function Wrap(a: nat, m: nat): (r: nat)
    requires a < 2 * m
    ensures r < m
  {
    if a < m then a else a - m
  }

  /** `a % m` for `a` below `2m`. */
  lemma ModBelowTwice(a: int, m: int)
    requires 0 < m && 0 <= a < 2 * m
    ensures a < m ==> a % m == a
    ensures a >= m ==> a % m == a - m
  {
    if a >= m {
      assert a == (a - m) + m * 1;
    }
  }

  lemma WrapIsMod(a: nat, m: nat)
    requires a < 2 * m
    ensures Wrap(a, m) == a % m
  {
    ModBelowTwice(a, m);
  }

  /** The index (into the shuffled team list) of the team at position `k` of
      round `r`: position 0 is fixed, positions `1..n-1` turn by one place
      per round. */
  function Slot(n: nat, r: nat, k: nat): (i: nat)
    requires 2 <= n && r < n - 1 && k < n
    ensures i < n
  {
    if k == 0 then 0 else 1 + Wrap((k - 1) + (n - 1) - r, n - 1)
  }

  /** `Slot` is the source's rotated index `(i + (n - 1) - round) % (n - 1)`
      of position `i + 1`. */
  lemma SlotIsRotation(n: nat, r: nat, k: nat)
    requires 2 <= n && r < n - 1 && 0 < k < n
    ensures Slot(n, r, k) == 1 + ((k - 1) + (n - 1) - r) % (n - 1)
  {
    WrapIsMod((k - 1) + (n - 1) - r, n - 1);
  }

  /** The position of index `t` in round `r`, the inverse of `Slot`. */
  function Pos(n: nat, r: nat, t: nat): (k: nat)
    requires 2 <= n && r < n - 1 && t < n
    ensures k < n
  {
    if t == 0 then 0 else 1 + Wrap((t - 1) + r, n - 1)
  }

  /** `Slot` and `Pos` are inverse bijections of `0..n-1` in every round. */
  lemma SlotPos(n: nat, r: nat, t: nat)
    requires 2 <= n && r < n - 1 && t < n
    ensures Slot(n, r, Pos(n, r, t)) == t
    ensures Pos(n, r, Slot(n, r, t)) == t
  {
  }

  /** The `m`-th game of round `r`, as indices: position `m` against
      position `n - 1 - m`. */
  function IndexGame(n: nat, r: nat, m: nat): (g: (nat, nat))
    requires 2 <= n && r < n - 1 && m < n / 2
    ensures g.0 < n && g.1 < n
  {
    (Slot(n, r, m), Slot(n, r, n - 1 - m))
  }

  /** Indices `a` and `b` meet in round `r`. */
  predicate MeetsAt(n: nat, r: nat, a: nat, b: nat)
    requires 2 <= n && r < n - 1
  {
    exists m :: 0 <= m < n / 2 && (IndexGame(n, r, m) == (a, b) || IndexGame(n, r, m) == (b, a))
  }

  /** With an even number of teams every index plays exactly one game of
      each round: the round is a perfect matching. */
  lemma {:induction false} RoundIsMatching(n: nat, r: nat, t: nat)
    requires 2 <= n && n % 2 == 0 && r < n - 1 && t < n
    ensures exists m :: 0 <= m < n / 2 && (IndexGame(n, r, m).0 == t || IndexGame(n, r, m).1 == t)
    ensures forall m1, m2 :: (0 <= m1 < n / 2 && 0 <= m2 < n / 2
              && (IndexGame(n, r, m1).0 == t || IndexGame(n, r, m1).1 == t)
              && (IndexGame(n, r, m2).0 == t || IndexGame(n, r, m2).1 == t)) ==> m1 == m2
  {
    var p := Pos(n, r, t);
    SlotPos(n, r, t);
    var m := if p < n / 2 then p else n - 1 - p;
    assert IndexGame(n, r, m).0 == t || IndexGame(n, r, m).1 == t;
    forall m1 | 0 <= m1 < n / 2 && (IndexGame(n, r, m1).0 == t || IndexGame(n, r, m1).1 == t)
      ensures m1 == m
    {
      SlotPos(n, r, m1);
      SlotPos(n, r, n - 1 - m1);
    }
  }

  /** Two indices meet in round `r` exactly when their positions add up to
      `n - 1`. */
  lemma MeetsAtPositions(n: nat, r: nat, a: nat, b: nat)
    requires 2 <= n && r < n - 1 && a < n && b < n && a != b
    ensures MeetsAt(n, r, a, b) <==> Pos(n, r, a) + Pos(n, r, b) == n - 1
  {
    if Pos(n, r, a) + Pos(n, r, b) == n - 1 {
      OppositeMeet(n, r, a, b);
    }
    if MeetsAt(n, r, a, b) {
      var m :| 0 <= m < n / 2 && (IndexGame(n, r, m) == (a, b) || IndexGame(n, r, m) == (b, a));
      GameOpposite(n, r, m);
    }
  }

  /** Indices at opposite positions play each other. */
  lemma OppositeMeet(n: nat, r: nat, a: nat, b: nat)
    requires 2 <= n && r < n - 1 && a < n && b < n && a != b
    requires Pos(n, r, a) + Pos(n, r, b) == n - 1
    ensures MeetsAt(n, r, a, b)
  {
    SlotPos(n, r, a);
    SlotPos(n, r, b);
    var lo := if Pos(n, r, a) < Pos(n, r, b) then Pos(n, r, a) else Pos(n, r, b);
    assert lo < n / 2;
    assert IndexGame(n, r, lo) == (a, b) || IndexGame(n, r, lo) == (b, a);
  }

  /** The two sides of an index game sit at opposite positions. */
  lemma GameOpposite(n: nat, r: nat, m: nat)
    requires 2 <= n && r < n - 1 && m < n / 2
    ensures Pos(n, r, IndexGame(n, r, m).0) + Pos(n, r, IndexGame(n, r, m).1) == n - 1
  {
    SlotPos(n, r, m);
    SlotPos(n, r, n - 1 - m);
  }

  /** The round in which indices `a != b` meet, for an even `n`. */
  function MeetingRound(n: nat, a: nat, b: nat): (r: nat)
    requires 2 <= n && n % 2 == 0 && a < n && b < n && a != b
    ensures r < n - 1
  {
    var m := n - 1;
    if a == 0 then m - b
    else if b == 0 then m - a
    else HalfShift(m, a - 1, b - 1)
  }

  /** The shift that takes two different remainders `x`, `y` modulo an odd
      `m` to remainders adding up to `m - 2`. */
  function HalfShift(m: nat, x: nat, y: nat): (r: nat)
    requires m % 2 == 1 && x < m && y < m && x != y
    ensures r < m
  {
    var s := x + y + 2;
    if s % 2 == 1 then (if s <= m then (m - s) / 2 else m - (s - m) / 2) else (2 * m - s) / 2
  }

  /** With an even number of teams, indices `a != b` meet in exactly one
      round of every cycle of `n - 1` rounds. */
  lemma {:induction false} MeetOncePerCycle(n: nat, a: nat, b: nat)
    requires 2 <= n && n % 2 == 0 && a < n && b < n && a != b
    ensures MeetsAt(n, MeetingRound(n, a, b), a, b)
    ensures forall r :: 0 <= r < n - 1 && MeetsAt(n, r, a, b) ==> r == MeetingRound(n, a, b)
  {
    var r0 := MeetingRound(n, a, b);
    MeetsAtPositions(n, r0, a, b);
    MeetingRoundMeets(n, a, b);
    forall r | 0 <= r < n - 1 && MeetsAt(n, r, a, b) ensures r == r0 {
      MeetsAtPositions(n, r, a, b);
      MeetingRoundUnique(n, a, b, r);
    }
  }

  lemma MeetingRoundMeets(n: nat, a: nat, b: nat)
    requires 2 <= n && n % 2 == 0 && a < n && b < n && a != b
    ensures Pos(n, MeetingRound(n, a, b), a) + Pos(n, MeetingRound(n, a, b), b) == n - 1
  {
    var m := n - 1;
    var r := MeetingRound(n, a, b);
    if a == 0 {
      assert r == m - b;
      assert Pos(n, r, b) == 1 + Wrap(m - 1, m);
    } else if b == 0 {
      assert r == m - a;
      assert Pos(n, r, a) == 1 + Wrap(m - 1, m);
    } else {
      assert r == HalfShift(m, a - 1, b - 1);
      HalfShiftMeets(m, a - 1, b - 1);
    }
  }

  /** `HalfShift` does take the two remainders to a sum of `m - 2`. */
  lemma HalfShiftMeets(m: nat, x: nat, y: nat)
    requires m % 2 == 1 && x < m && y < m && x != y
    ensures Wrap(x + HalfShift(m, x, y), m) + Wrap(y + HalfShift(m, x, y), m) == m - 2
  {
    var r := HalfShift(m, x, y);
    HalfShiftDouble(m, x, y);
    if x + y + 2 * r == m - 2 {
      NoneWraps(m, x, y, r);
    } else if x + y + 2 * r == 3 * m - 2 {
      BothWrap(m, x, y, r);
    } else {
      OneWraps(m, x, y, r);
    }
  }

  /** Twice the shift, in the three cases of its definition. */
  lemma HalfShiftDouble(m: nat, x: nat, y: nat)
    requires m % 2 == 1 && x < m && y < m && x != y
    ensures var r := HalfShift(m, x, y);
            x + y + 2 * r == m - 2 || x + y + 2 * r == 2 * m - 2 || x + y + 2 * r == 3 * m - 2
  {
  }

  /** Shifts whose sum stays below `m` wrap neither remainder. */
  lemma NoneWraps(m: nat, x: nat, y: nat, r: nat)
    requires 0 < m && x + y + 2 * r == m - 2
    ensures Wrap(x + r, m) + Wrap(y + r, m) == m - 2
  {
  }

  /** Shifts that take both remainders past `m`. */
  lemma BothWrap(m: nat, x: nat, y: nat, r: nat)
    requires x < m && y < m && r < m && x + y + 2 * r == 3 * m - 2
    ensures Wrap(x + r, m) + Wrap(y + r, m) == m - 2
  {
  }

  /** Shifts that take exactly one of two different remainders past `m`. */
  lemma OneWraps(m: nat, x: nat, y: nat, r: nat)
    requires x < m && y < m && r < m && x != y && x + y + 2 * r == 2 * m - 2
    ensures Wrap(x + r, m) + Wrap(y + r, m) == m - 2
  {
  }

  lemma MeetingRoundUnique(n: nat, a: nat, b: nat, r: nat)
    requires 2 <= n && n % 2 == 0 && a < n && b < n && a != b && r < n - 1
    requires Pos(n, r, a) + Pos(n, r, b) == n - 1
    ensures r == MeetingRound(n, a, b)
  {
    MeetingRoundMeets(n, a, b);
    PositionsFixRound(n, a, b, r, MeetingRound(n, a, b));
  }

  /** Two rounds that seat `a` and `b` opposite each other are the same. */
  lemma PositionsFixRound(n: nat, a: nat, b: nat, r: nat, r0: nat)
    requires 2 <= n && n % 2 == 0 && a < n && b < n && a != b && r < n - 1 && r0 < n - 1
    requires Pos(n, r, a) + Pos(n, r, b) == n - 1
    requires Pos(n, r0, a) + Pos(n, r0, b) == n - 1
    ensures r == r0
  {
    var m := n - 1;
    if a == 0 {
      FixedOpposite(m, b - 1, r, r0);
    } else if b == 0 {
      FixedOpposite(m, a - 1, r, r0);
    } else {
      RotatingOpposite(n, a, b, r);
      RotatingOpposite(n, a, b, r0);
      HalvingIsUnique(m, a - 1, b - 1, r, r0);
    }
  }

  /** Two rotating indices at opposite positions, as remainders. */
  lemma RotatingOpposite(n: nat, a: nat, b: nat, r: nat)
    requires 2 <= n && 0 < a < n && 0 < b < n && r < n - 1
    requires Pos(n, r, a) + Pos(n, r, b) == n - 1
    ensures Wrap(a - 1 + r, n - 1) + Wrap(b - 1 + r, n - 1) == n - 3
  {
  }

  /** Only one shift below `m` takes `x` to the last position. */
  lemma FixedOpposite(m: nat, x: nat, r: nat, r0: nat)
    requires x < m && r < m && r0 < m
    requires 1 + Wrap(x + r, m) == m && 1 + Wrap(x + r0, m) == m
    ensures r == r0
  {
  }

  /** For an odd `m`, only one shift below `m` takes two different
      remainders `x`, `y` to remainders adding up to `m - 2`: the shift is
      counted twice, and 2 has an inverse modulo an odd number. */
  lemma HalvingIsUnique(m: nat, x: nat, y: nat, r: nat, r0: nat)
    requires m % 2 == 1 && x < m && y < m && r < m && r0 < m
    requires Wrap(x + r, m) + Wrap(y + r, m) == m - 2
    requires Wrap(x + r0, m) + Wrap(y + r0, m) == m - 2
    ensures r == r0
  {
  }

  /** The games of round `r` between the teams of `ids`, first team at home. */
  function CircleRound(ids: seq<nat>, r: nat): (g: seq<Pair>)
    requires 2 <= |ids| && r < |ids| - 1
    ensures |g| == |ids| / 2
  {
    var n := |ids|;
    seq(n / 2, m requires 0 <= m < n / 2 => (ids[IndexGame(n, r, m).0], ids[IndexGame(n, r, m).1]))
  }

  /** Both orders of every game swapped. */
  function Swapped(g: seq<Pair>): (s: seq<Pair>)
    ensures |s| == |g| && forall i :: 0 <= i < |g| ==> s[i] == (g[i].1, g[i].0)
  {
    seq(|g|, i requires 0 <= i < |g| => (g[i].1, g[i].0))
  }

  /** Round `r` of cycle `c`: home and away swapped in odd cycles. */
  function CycleRound(ids: seq<nat>, c: nat, r: nat): (g: seq<Pair>)
    requires 2 <= |ids| && r < |ids| - 1
    ensures |g| == |ids| / 2
  {
    if c % 2 == 0 then CircleRound(ids, r) else Swapped(CircleRound(ids, r))
  }

  /** Week `w` of the circle method: round `w % (n - 1)` of cycle
      `w / (n - 1)`. */
  function CircleWeek(ids: seq<nat>, w: nat): (g: seq<Pair>)
    requires 2 <= |ids|
    ensures |g| == |ids| / 2
  {
    CycleRound(ids, w / (|ids| - 1), w % (|ids| - 1))
  }

  /** Teams `x` and `y` play each other in the list of games. */
  predicate Plays(g: seq<Pair>, x: nat, y: nat) {
    (x, y) in g || (y, x) in g
  }

  /** For an even number of distinct teams, every week of the circle method
      seats every team exactly once. */
  lemma {:induction false} CircleWeekSeatsEveryone(ids: seq<nat>, w: nat, t: nat)
    requires 2 <= |ids| && |ids| % 2 == 0 && Distinct(ids) && t in ids
    ensures exists i :: 0 <= i < |ids| / 2 && (CircleWeek(ids, w)[i].0 == t || CircleWeek(ids, w)[i].1 == t)
    ensures forall i, j :: (0 <= i < |ids| / 2 && 0 <= j < |ids| / 2
              && (CircleWeek(ids, w)[i].0 == t || CircleWeek(ids, w)[i].1 == t)
              && (CircleWeek(ids, w)[j].0 == t || CircleWeek(ids, w)[j].1 == t)) ==> i == j
  {
    var n := |ids|;
    var k :| 0 <= k < n && ids[k] == t;
    assert CircleWeek(ids, w) == CycleRound(ids, w / (n - 1), w % (n - 1));
    CycleRoundSeatsEveryone(ids, w / (n - 1), w % (n - 1), k);
  }

  /** Every round of every cycle seats index `k` exactly once. */
  lemma CycleRoundSeatsEveryone(ids: seq<nat>, c: nat, r: nat, k: nat)
    requires 2 <= |ids| && |ids| % 2 == 0 && Distinct(ids) && r < |ids| - 1 && k < |ids|
    ensures exists i :: 0 <= i < |ids| / 2 && (CycleRound(ids, c, r)[i].0 == ids[k] || CycleRound(ids, c, r)[i].1 == ids[k])
    ensures forall i, j :: (0 <= i < |ids| / 2 && 0 <= j < |ids| / 2
              && (CycleRound(ids, c, r)[i].0 == ids[k] || CycleRound(ids, c, r)[i].1 == ids[k])
              && (CycleRound(ids, c, r)[j].0 == ids[k] || CycleRound(ids, c, r)[j].1 == ids[k])) ==> i == j
  {
    var n := |ids|;
    RoundIsMatching(n, r, k);
    var g := CycleRound(ids, c, r);
    forall i | 0 <= i < n / 2 ensures (g[i].0 == ids[k] || g[i].1 == ids[k]) <==> (IndexGame(n, r, i).0 == k || IndexGame(n, r, i).1 == k) {
      SeatIffIndex(ids, c, r, i, k);
    }
  }

  /** Team `ids[k]` sits in the `i`-th game of a round exactly when index `k`
      sits in the `i`-th index game of the round. */
  lemma SeatIffIndex(ids: seq<nat>, c: nat, r: nat, i: nat, k: nat)
    requires 2 <= |ids| && Distinct(ids) && r < |ids| - 1 && i < |ids| / 2 && k < |ids|
    ensures var ig := IndexGame(|ids|, r, i);
            (CycleRound(ids, c, r)[i].0 == ids[k] || CycleRound(ids, c, r)[i].1 == ids[k]) <==> (ig.0 == k || ig.1 == k)
  {
    var ig := IndexGame(|ids|, r, i);
    CycleRoundGame(ids, c, r, i);
    if ids[ig.0] == ids[k] { DistinctIndex(ids, ig.0, k); }
    if ids[ig.1] == ids[k] { DistinctIndex(ids, ig.1, k); }
  }

  /** For an even number of distinct teams, two different teams meet in
      exactly one week of every cycle of `n - 1` weeks (the weeks `w` with
      `w / (n - 1) == c`). */
  lemma {:induction false} CircleCycleMeetsOnce(ids: seq<nat>, c: nat, x: nat, y: nat)
    requires 2 <= |ids| && |ids| % 2 == 0 && Distinct(ids) && x in ids && y in ids && x != y
    ensures exists w: nat :: w / (|ids| - 1) == c && Plays(CircleWeek(ids, w), x, y)
    ensures forall w1: nat, w2: nat :: (w1 / (|ids| - 1) == c && w2 / (|ids| - 1) == c
              && Plays(CircleWeek(ids, w1), x, y) && Plays(CircleWeek(ids, w2), x, y)) ==> w1 == w2
  {
    var n := |ids|;
    var a :| 0 <= a < n && ids[a] == x;
    var b :| 0 <= b < n && ids[b] == y;
    var w0 := CycleHasMeeting(ids, c, a, b);
    assert w0 / (n - 1) == c && Plays(CircleWeek(ids, w0), x, y);
    forall w1: nat, w2: nat | w1 / (n - 1) == c && w2 / (n - 1) == c
      && Plays(CircleWeek(ids, w1), x, y) && Plays(CircleWeek(ids, w2), x, y)
      ensures w1 == w2
    {
      CycleMeetsOnce(ids, c, a, b, w1, w2);
    }
  }

  /** The week of cycle `c` in which indices `a` and `b` meet. */
  lemma CycleHasMeeting(ids: seq<nat>, c: nat, a: nat, b: nat) returns (w: nat)
    requires 2 <= |ids| && |ids| % 2 == 0 && Distinct(ids) && a < |ids| && b < |ids| && a != b
    ensures w / (|ids| - 1) == c && Plays(CircleWeek(ids, w), ids[a], ids[b])
  {
    MeetOncePerCycle(|ids|, a, b);
    var r0 := MeetingRound(|ids|, a, b);
    PlaysIffMeets(ids, c, r0, a, b);
    w := RoundPlaysInWeek(ids, c, r0, ids[a], ids[b]);
  }

  /** Two weeks of cycle `c` in which indices `a` and `b` meet are one. */
  lemma CycleMeetsOnce(ids: seq<nat>, c: nat, a: nat, b: nat, w1: nat, w2: nat)
    requires 2 <= |ids| && |ids| % 2 == 0 && Distinct(ids) && a < |ids| && b < |ids| && a != b
    requires w1 / (|ids| - 1) == c && Plays(CircleWeek(ids, w1), ids[a], ids[b])
    requires w2 / (|ids| - 1) == c && Plays(CircleWeek(ids, w2), ids[a], ids[b])
    ensures w1 == w2
  {
    MeetingWeek(ids, a, b, w1, c);
    MeetingWeek(ids, a, b, w2, c);
    SameCycleSameRound(w1, w2, |ids| - 1);
  }

  /** A week of cycle `c` in which two teams play is their meeting round of
      that cycle. */
  lemma MeetingWeek(ids: seq<nat>, a: nat, b: nat, w: nat, c: nat)
    requires 2 <= |ids| && |ids| % 2 == 0 && Distinct(ids) && a < |ids| && b < |ids| && a != b
    requires w / (|ids| - 1) == c && Plays(CircleWeek(ids, w), ids[a], ids[b])
    ensures w % (|ids| - 1) == MeetingRound(|ids|, a, b)
  {
    WeekPlays(ids, w, c, ids[a], ids[b]);
    RoundOfMeeting(ids, a, b, c, w % (|ids| - 1));
  }

  /** A round in which two teams play is their meeting round. */
  lemma RoundOfMeeting(ids: seq<nat>, a: nat, b: nat, c: nat, r: nat)
    requires 2 <= |ids| && |ids| % 2 == 0 && Distinct(ids) && a < |ids| && b < |ids| && a != b
    requires r < |ids| - 1 && Plays(CycleRound(ids, c, r), ids[a], ids[b])
    ensures r == MeetingRound(|ids|, a, b)
  {
    PlaysIffMeets(ids, c, r, a, b);
    MeetsAtPositions(|ids|, r, a, b);
    MeetingRoundUnique(|ids|, a, b, r);
  }

  lemma WeekIsCycleRound(ids: seq<nat>, w: nat)
    requires 2 <= |ids|
    ensures w % (|ids| - 1) < |ids| - 1
    ensures CircleWeek(ids, w) == CycleRound(ids, w / (|ids| - 1), w % (|ids| - 1))
  {
  }

  /** Two teams playing in round `r` of cycle `c` play in week
      `c * (n - 1) + r`. */
  lemma RoundPlaysInWeek(ids: seq<nat>, c: nat, r: nat, x: nat, y: nat) returns (w: nat)
    requires 2 <= |ids| && r < |ids| - 1 && Plays(CycleRound(ids, c, r), x, y)
    ensures w == c * (|ids| - 1) + r
    ensures w / (|ids| - 1) == c && Plays(CircleWeek(ids, w), x, y)
  {
    var m := |ids| - 1;
    WeekOfCycle(c, m, r);
    w := c * m + r;
    WeekIsCycleRound(ids, w);
  }

  /** Two teams playing in a week of cycle `c` play in its round of that
      cycle. */
  lemma WeekPlays(ids: seq<nat>, w: nat, c: nat, x: nat, y: nat)
    requires 2 <= |ids| && w / (|ids| - 1) == c && Plays(CircleWeek(ids, w), x, y)
    ensures w % (|ids| - 1) < |ids| - 1
    ensures Plays(CycleRound(ids, c, w % (|ids| - 1)), x, y)
  {
    WeekIsCycleRound(ids, w);
  }

  /** Two weeks with the same cycle and the same round are one week. */
  lemma SameCycleSameRound(w1: nat, w2: nat, m: nat)
    requires m > 0 && w1 / m == w2 / m && w1 % m == w2 % m
    ensures w1 == w2
  {
    DivMod(w1, m);
    DivMod(w2, m);
  }

  /** A week is its cycle times the cycle length plus its round. */
  lemma DivMod(w: nat, m: nat)
    requires m > 0
    ensures w == m * (w / m) + w % m
  {
  }

  /** Week `c * m + r` is round `r` of cycle `c`. */
  lemma WeekOfCycle(c: nat, m: nat, r: nat)
    requires r < m
    ensures c * m + r >= 0 && (c * m + r) % m == r && (c * m + r) / m == c
  {
    var q := c * m + r;
    var d, s := q / m, q % m;
    assert q == d * m + s;
    AtLeastOnce(c - d, m);
    AtLeastOnce(d - c, m);
    assert (c - d) * m == c * m - d * m;
    assert (d - c) * m == d * m - c * m;
  }

  lemma AtLeastOnce(k: int, m: nat)
    ensures k >= 1 ==> k * m >= m
  {
    if k >= 1 {
      assert k * m == (k - 1) * m + m;
    }
  }

  /** A distinct list holds each ID at one index only. */
  lemma DistinctIndex(ids: seq<nat>, i: nat, j: nat)
    requires Distinct(ids) && i < |ids| && j < |ids| && ids[i] == ids[j]
    ensures i == j
  {
  }

  /** The `i`-th game of a round seats the teams of the `i`-th index game,
      in either order. */
  lemma CycleRoundGame(ids: seq<nat>, c: nat, r: nat, i: nat)
    requires 2 <= |ids| && r < |ids| - 1 && i < |ids| / 2
    ensures var ig := IndexGame(|ids|, r, i);
            CycleRound(ids, c, r)[i] == (ids[ig.0], ids[ig.1]) || CycleRound(ids, c, r)[i] == (ids[ig.1], ids[ig.0])
  {
  }

  /** The same for the `i`-th game of week `w`. */
  lemma CircleWeekGame(ids: seq<nat>, w: nat, i: nat)
    requires 2 <= |ids| && i < |ids| / 2
    ensures var ig := IndexGame(|ids|, w % (|ids| - 1), i);
            CircleWeek(ids, w)[i] == (ids[ig.0], ids[ig.1]) || CircleWeek(ids, w)[i] == (ids[ig.1], ids[ig.0])
  {
    CycleRoundGame(ids, w / (|ids| - 1), w % (|ids| - 1), i);
  }

  /** Two teams play in a round of the circle method exactly when their
      indices meet in it. */
  lemma PlaysIffMeets(ids: seq<nat>, c: nat, r: nat, a: nat, b: nat)
    requires 2 <= |ids| && Distinct(ids) && r < |ids| - 1 && a < |ids| && b < |ids| && a != b
    ensures Plays(CycleRound(ids, c, r), ids[a], ids[b]) <==> MeetsAt(|ids|, r, a, b)
  {
    var n := |ids|;
    var g := CycleRound(ids, c, r);
    if Plays(g, ids[a], ids[b]) {
      var i :| 0 <= i < |g| && (g[i] == (ids[a], ids[b]) || g[i] == (ids[b], ids[a]));
      CycleRoundGame(ids, c, r, i);
      var ig := IndexGame(n, r, i);
      if ids[ig.0] == ids[a] { DistinctIndex(ids, ig.0, a); } else { DistinctIndex(ids, ig.0, b); }
      if ids[ig.1] == ids[a] { DistinctIndex(ids, ig.1, a); } else { DistinctIndex(ids, ig.1, b); }
      assert ig == (a, b) || ig == (b, a);
    }
    if MeetsAt(n, r, a, b) {
      var i :| 0 <= i < n / 2 && (IndexGame(n, r, i) == (a, b) || IndexGame(n, r, i) == (b, a));
      CycleRoundGame(ids, c, r, i);
      assert g[i] == (ids[a], ids[b]) || g[i] == (ids[b], ids[a]);
    }
  }

  /** The default double round-robin balances home and away: week `w + n - 1`
      of the second cycle is week `w` of the first with sides swapped. */
  lemma SecondCycleSwapsSides(ids: seq<nat>, w: nat)
    requires 2 <= |ids| && w < |ids| - 1
    ensures CircleWeek(ids, w + (|ids| - 1)) == Swapped(CircleWeek(ids, w))
  {
    var m := |ids| - 1;
    NextCycle(w, m);
    assert CircleWeek(ids, w) == CycleRound(ids, 0, w);
    assert CircleWeek(ids, w + m) == CycleRound(ids, 1, w);
  }

  /** A round of the first cycle and the same round of the second. */
  lemma NextCycle(w: nat, m: nat)
    requires w < m
    ensures w % m == w && w / m == 0
    ensures (w + m) % m == w && (w + m) / m == 1
  {
    ModBelowTwice(w + m, m);
    DivMod(w + m, m);
  }

  /** `circle_method_matchups`: fewer than two teams give no games;
      otherwise `cycles` cycles of `n - 1` rounds in week order. */
  function CircleMatchups(ids: seq<nat>, cycles: nat): (g: seq<Pair>)
    ensures |ids| < 2 ==> g == []
    ensures |ids| >= 2 ==> |g| == cycles * (|ids| - 1) * (|ids| / 2)
  {
    if |ids| < 2 then [] else CircleWeeks(ids, cycles * (|ids| - 1))
  }

  /** The games of the first `weeks` weeks of the circle method, in order. */
  function CircleWeeks(ids: seq<nat>, weeks: nat): (g: seq<Pair>)
    requires 2 <= |ids|
    ensures |g| == weeks * (|ids| / 2)
  {
    if weeks == 0 then [] else CircleWeeks(ids, weeks - 1) + CircleWeek(ids, weeks - 1)
  }

  /** The circle method on an odd number of teams, as written: three teams
      give two rounds of one game each, and the second and third team never
      meet. */
  lemma OddCircleMissesAPair()
    ensures CircleRound([10, 11, 12], 0) == [(10, 12)]
    ensures CircleRound([10, 11, 12], 1) == [(10, 11)]
    ensures !Plays(CircleMatchups([10, 11, 12], 1), 11, 12)
  {
    var ids := [10, 11, 12];
    assert CircleRound(ids, 0)[0] == (10, 12);
    assert CircleRound(ids, 1)[0] == (10, 11);
    assert CircleWeek(ids, 0) == [(10, 12)];
    assert CircleWeek(ids, 1) == [(10, 11)];
    assert CircleWeeks(ids, 2) == [(10, 12), (10, 11)];
  }

  /** The circle method as evidently intended for any number of teams: an
      odd field is padded with a bye, and games against the bye are dropped.
      The padded field is even, so every pair meets once per cycle. */
  function PaddedField(ids: seq<nat>): (p: seq<Option<nat>>)
    ensures |p| % 2 == 0 && |p| >= |ids|
  {
    var field := seq(|ids|, i requires 0 <= i < |ids| => Some(ids[i]));
    if |ids| % 2 == 0 then field else field + [None]
  }

  /** Round `r` of the padded field, without the games against the bye. */
  function CircleRoundCorrected(ids: seq<nat>, r: nat): (g: seq<Pair>)
    requires 2 <= |ids| && r < |PaddedField(ids)| - 1
  {
    var p := PaddedField(ids);
    var n := |p|;
    RealGames(seq(n / 2, m requires 0 <= m < n / 2 => (p[IndexGame(n, r, m).0], p[IndexGame(n, r, m).1])))
  }

  /** The games in which neither side is the bye. */
  function RealGames(g: seq<(Option<nat>, Option<nat>)>): (s: seq<Pair>)
    ensures forall x, y :: (x, y) in s <==> (Some(x), Some(y)) in g
  {
    if |g| == 0 then []
    else
      var rest := RealGames(g[1..]);
      assert g == [g[0]] + g[1..];
      if g[0].0.Some? && g[0].1.Some? then [(g[0].0.value, g[0].1.value)] + rest else rest
  }

  /** With the bye in place, two different teams meet in exactly one round
      of a cycle, whatever the size of the field. */
  lemma {:induction false} CorrectedMeetsOnce(ids: seq<nat>, a: nat, b: nat)
    requires 2 <= |ids| && Distinct(ids) && a < |ids| && b < |ids| && a != b
    ensures exists r :: 0 <= r < |PaddedField(ids)| - 1 && Plays(CircleRoundCorrected(ids, r), ids[a], ids[b])
    ensures forall r1, r2 :: (0 <= r1 < |PaddedField(ids)| - 1 && 0 <= r2 < |PaddedField(ids)| - 1
              && Plays(CircleRoundCorrected(ids, r1), ids[a], ids[b])
              && Plays(CircleRoundCorrected(ids, r2), ids[a], ids[b])) ==> r1 == r2
  {
    var n := |PaddedField(ids)|;
    MeetOncePerCycle(n, a, b);
    var r0 := MeetingRound(n, a, b);
    CorrectedPlaysIffMeets(ids, r0, a, b);
    forall r1, r2 | 0 <= r1 < n - 1 && 0 <= r2 < n - 1
      && Plays(CircleRoundCorrected(ids, r1), ids[a], ids[b])
      && Plays(CircleRoundCorrected(ids, r2), ids[a], ids[b])
      ensures r1 == r2
    {
      CorrectedPlaysIffMeets(ids, r1, a, b);
      CorrectedPlaysIffMeets(ids, r2, a, b);
    }
  }

  lemma CorrectedPlaysIffMeets(ids: seq<nat>, r: nat, a: nat, b: nat)
    requires 2 <= |ids| && Distinct(ids) && a < |ids| && b < |ids| && a != b
    requires r < |PaddedField(ids)| - 1
    ensures Plays(CircleRoundCorrected(ids, r), ids[a], ids[b]) <==> MeetsAt(|PaddedField(ids)|, r, a, b)
  {
    var p := PaddedField(ids);
    var n := |p|;
    PaddedIndex(ids, a);
    PaddedIndex(ids, b);
    var full := seq(n / 2, m requires 0 <= m < n / 2 => (p[IndexGame(n, r, m).0], p[IndexGame(n, r, m).1]));
    assert CircleRoundCorrected(ids, r) == RealGames(full);
    if (Some(ids[a]), Some(ids[b])) in full || (Some(ids[b]), Some(ids[a])) in full {
      var j :| 0 <= j < |full| && (full[j] == (Some(ids[a]), Some(ids[b])) || full[j] == (Some(ids[b]), Some(ids[a])));
      var ig := IndexGame(n, r, j);
      PaddedTeam(ids, ig.0, a, b);
      PaddedTeam(ids, ig.1, a, b);
      assert ig == (a, b) || ig == (b, a);
    }
    if MeetsAt(n, r, a, b) {
      var j :| 0 <= j < n / 2 && (IndexGame(n, r, j) == (a, b) || IndexGame(n, r, j) == (b, a));
      assert full[j] == (Some(ids[a]), Some(ids[b])) || full[j] == (Some(ids[b]), Some(ids[a]));
    }
  }

  /** Only index `a` of the padded field holds team `ids[a]`. */
  lemma PaddedTeam(ids: seq<nat>, k: nat, a: nat, b: nat)
    requires Distinct(ids) && k < |PaddedField(ids)| && a < |ids| && b < |ids|
    requires PaddedField(ids)[k] == Some(ids[a]) || PaddedField(ids)[k] == Some(ids[b])
    ensures k == a || k == b
  {
    PaddedIndex(ids, k);
    if PaddedField(ids)[k] == Some(ids[a]) { DistinctIndex(ids, k, a); } else { DistinctIndex(ids, k, b); }
  }

  /** The padded field holds team `k` at index `k` and the bye past them. */
  lemma PaddedIndex(ids: seq<nat>, k: nat)
    requires k < |PaddedField(ids)|
    ensures k < |ids| ==> PaddedField(ids)[k] == Some(ids[k])
    ensures k >= |ids| ==> PaddedField(ids)[k] == None
  {
  }

  // ----- rotating and permuting the weeks -----

  /** `rotate_right(k)`: the last `k` weeks move to the front. */
  function RotateRight<T>(s: seq<T>, k: nat): (r: seq<T>)
    requires k <= |s|
    ensures |r| == |s| && multiset(r) == multiset(s)
  {
    assert s == s[..|s| - k] + s[|s| - k..];
    s[|s| - k..] + s[..|s| - k]
  }

  /** Week `i` moves `k` places on, wrapping round the end. */
  lemma RotateRightMoves<T>(s: seq<T>, k: nat, i: nat)
    requires k <= |s| && i < |s|
    ensures RotateRight(s, k)[(i + k) % |s|] == s[i]
  {
    ModBelowTwice(i + k, |s|);
  }

  /** `perm` lists every index below `n` once: a shuffle's outcome. */
  predicate IsPermutation(perm: seq<nat>, n: nat) {
    |perm| == n && Distinct(perm) && forall i :: 0 <= i < n ==> perm[i] < n
  }

  /** The weeks in the order a shuffle left them. */
  function Permuted<T>(s: seq<T>, perm: seq<nat>): (r: seq<T>)
    requires IsPermutation(perm, |s|)
    ensures |r| == |s| && forall i :: 0 <= i < |s| ==> r[i] == s[perm[i]]
  {
    seq(|s|, i requires 0 <= i < |s| => s[perm[i]])
  }

  // ----- the round-robin plan -----

  datatype ScheduleError =
    | TooFewTeams(teams: nat)
    | OddTeams(teams: nat)
    | TooManyWeeks(most: nat, given: nat)
    | TooFewWeeks(least: nat, given: nat)
    | ShiftTooLarge(shift: nat, weeks: nat)
    | AlreadyStarted
    | PackingFailed(weeks: nat)
    | UnknownTeam(id: nat)
    | ShortNameRejected

  /** The checks of `generate_round_robin_schedule`, in the source's order:
      at least four teams, an even count, a week count (default
      `2 * (n - 1)`) between `n - 1` and `3 * (n - 1)`, a shift (default 0)
      no larger than the week count, and a season not yet started. On
      success, the week count and the shift. */
  function RoundRobinPlan(teams: nat, weeks: Option<nat>, shift: Option<nat>, started: bool)
    : (r: Result<(nat, nat), ScheduleError>)
    ensures teams < 4 ==> r == Err(TooFewTeams(teams))
    ensures teams >= 4 && teams % 2 == 1 ==> r == Err(OddTeams(teams))
    ensures r.Ok? <==>
              teams >= 4 && teams % 2 == 0
              && teams - 1 <= weeks.GetOr(2 * (teams - 1)) <= 3 * (teams - 1)
              && shift.GetOr(0) <= weeks.GetOr(2 * (teams - 1))
              && !started
    ensures r.Ok? ==> r.value == (weeks.GetOr(2 * (teams - 1)), shift.GetOr(0))
  {
    if teams < 4 then Err(TooFewTeams(teams))
    else if teams % 2 == 1 then Err(OddTeams(teams))
    else
      var w := weeks.GetOr((teams - 1) * 2);
      if w > (teams - 1) * 3 then Err(TooManyWeeks((teams - 1) * 3, w))
      else if w < teams - 1 then Err(TooFewWeeks(teams, w))
      else
        var k := shift.GetOr(0);
        if k > w then Err(ShiftTooLarge(k, w))
        else if started then Err(AlreadyStarted)
        else Ok((w, k))
  }

  /** The plan with the lower bound the season validator enforces: at least
      `n` weeks. */
  function RoundRobinPlanCorrected(teams: nat, weeks: Option<nat>, shift: Option<nat>, started: bool)
    : (r: Result<(nat, nat), ScheduleError>)
    ensures r.Ok? <==>
              teams >= 4 && teams % 2 == 0
              && teams <= weeks.GetOr(2 * (teams - 1)) <= 3 * (teams - 1)
              && shift.GetOr(0) <= weeks.GetOr(2 * (teams - 1))
              && !started
    ensures r.Ok? ==> r.value == (weeks.GetOr(2 * (teams - 1)), shift.GetOr(0))
  {
    var plan :- RoundRobinPlan(teams, weeks, shift, started);
    if plan.0 < teams then Err(TooFewWeeks(teams, plan.0)) else Ok(plan)
  }

  /** The games of the round-robin weeks before the shift and the shuffle:
      week `k` is week `k` of the circle method. */
  function RoundRobinWeeks(ids: seq<nat>, weeks: nat): (r: seq<seq<Pair>>)
    requires 2 <= |ids|
    ensures |r| == weeks && forall k :: 0 <= k < weeks ==> r[k] == CircleWeek(ids, k)
  {
    seq(weeks, k requires 0 <= k < weeks => CircleWeek(ids, k))
  }

  // ----- packing games into weeks -----

  /** Two games share no team. */
  predicate Apart(x: Pair, y: Pair) {
    x.0 != y.0 && x.0 != y.1 && x.1 != y.0 && x.1 != y.1
  }

  /** No team plays twice in the week. */
  predicate OncePerWeek(week: seq<Pair>) {
    && (forall i :: 0 <= i < |week| ==> week[i].0 != week[i].1)
    && (forall i, j :: 0 <= i < j < |week| ==> Apart(week[i], week[j]))
  }

  /** No game pits a team against itself. */
  predicate NoSelfGames(games: seq<Pair>) {
    forall i :: 0 <= i < |games| ==> games[i].0 != games[i].1
  }

  /** One greedy pass of `interleave_matchups` over the games still to be
      placed: a game whose two teams are both free this week is taken, any
      other is kept, in order; once as many teams are busy as the season
      has, the pass stops and keeps the rest. The games taken, then those
      kept. */
  function Pass(rem: seq<Pair>, busy: set<nat>, teams: nat): (r: (seq<Pair>, seq<Pair>))
    ensures multiset(r.0) + multiset(r.1) == multiset(rem)
    ensures |r.0| + |r.1| == |rem|
    ensures |rem| > 0 && busy == {} ==> |r.0| > 0
    ensures forall i :: 0 <= i < |r.0| ==> r.0[i].0 !in busy && r.0[i].1 !in busy
    ensures forall i, j :: 0 <= i < j < |r.0| ==> Apart(r.0[i], r.0[j])
    decreases |rem|
  {
    if |rem| == 0 then ([], [])
    else
      var g := rem[0];
      assert rem == [g] + rem[1..];
      if g.0 in busy || g.1 in busy then
        var rest := Pass(rem[1..], busy, teams);
        (rest.0, [g] + rest.1)
      else
        var busy' := busy + {g.0, g.1};
        if |busy'| >= teams then ([g], rem[1..])
        else
          var rest := Pass(rem[1..], busy', teams);
          ([g] + rest.0, rest.1)
  }

  /** A list in reverse order. */
  function Reverse<T>(s: seq<T>): (r: seq<T>)
    ensures |r| == |s| && forall i :: 0 <= i < |s| ==> r[i] == s[|s| - 1 - i]
  {
    seq(|s|, i requires 0 <= i < |s| => s[|s| - 1 - i])
  }

  lemma {:induction false} ReverseMultiset<T>(s: seq<T>)
    ensures multiset(Reverse(s)) == multiset(s)
    decreases |s|
  {
    if |s| > 0 {
      var t := s[1..];
      ReverseMultiset(t);
      assert s == [s[0]] + t;
      assert Reverse(s) == Reverse(t) + [s[0]];
    }
  }

  /** All weeks' games in week order. */
  function Concat(weeks: seq<seq<Pair>>): seq<Pair> {
    if |weeks| == 0 then [] else weeks[0] + Concat(weeks[1..])
  }

  /** The weeks `interleave_matchups` fills, with no cap on their number:
      each week is one pass over the games left, its games in the reverse
      of the order they were taken in (the source removes them from the
      back). */
  function Packed(games: seq<Pair>, teams: nat): (weeks: seq<seq<Pair>>)
    decreases |games|
  {
    if |games| == 0 then []
    else
      var pass := Pass(games, {}, teams);
      [Reverse(pass.0)] + Packed(pass.1, teams)
  }

  /** A week of the packing is one pass. */
  lemma PackedStep(games: seq<Pair>, teams: nat)
    requires |games| > 0
    ensures Packed(games, teams) == [Reverse(Pass(games, {}, teams).0)] + Packed(Pass(games, {}, teams).1, teams)
  {
  }

  /** The packing places every game in exactly one week (as a multiset,
      duplicates included), leaves no week empty, and, when no game pits a
      team against itself, never puts a team twice into a week. */
  lemma {:induction false} PackedPlacesEveryGame(games: seq<Pair>, teams: nat)
    ensures multiset(Concat(Packed(games, teams))) == multiset(games)
    ensures forall k :: 0 <= k < |Packed(games, teams)| ==> |Packed(games, teams)[k]| > 0
    ensures NoSelfGames(games) ==> forall k :: 0 <= k < |Packed(games, teams)| ==> OncePerWeek(Packed(games, teams)[k])
    decreases |games|
  {
    if |games| > 0 {
      var pass := Pass(games, {}, teams);
      var weeks := Packed(games, teams);
      assert weeks == [Reverse(pass.0)] + Packed(pass.1, teams);
      PackedPlacesEveryGame(pass.1, teams);
      ReverseMultiset(pass.0);
      assert Concat(weeks) == Reverse(pass.0) + Concat(Packed(pass.1, teams));
      if NoSelfGames(games) {
        TakenHaveNoSelfGames(games, pass.0, pass.1);
        ReverseOncePerWeek(pass.0);
        forall k | 0 <= k < |weeks| ensures OncePerWeek(weeks[k]) {
          if k > 0 {
            assert weeks[k] == Packed(pass.1, teams)[k - 1];
          }
        }
      }
    }
  }

  /** A pass splits the games, so it keeps a property of each of them. */
  lemma TakenHaveNoSelfGames(games: seq<Pair>, taken: seq<Pair>, kept: seq<Pair>)
    requires NoSelfGames(games) && multiset(taken) + multiset(kept) == multiset(games)
    ensures NoSelfGames(taken) && NoSelfGames(kept)
  {
    forall i | 0 <= i < |taken| ensures taken[i].0 != taken[i].1 {
      assert taken[i] in multiset(taken);
      assert taken[i] in multiset(games);
    }
    forall i | 0 <= i < |kept| ensures kept[i].0 != kept[i].1 {
      assert kept[i] in multiset(kept);
      assert kept[i] in multiset(games);
    }
  }

  /** Games taken in one pass, reversed, form a week without a team twice. */
  lemma ReverseOncePerWeek(taken: seq<Pair>)
    requires NoSelfGames(taken)
    requires forall i, j :: 0 <= i < j < |taken| ==> Apart(taken[i], taken[j])
    ensures OncePerWeek(Reverse(taken))
  {
    var r := Reverse(taken);
    forall i, j | 0 <= i < j < |r| ensures Apart(r[i], r[j]) {
      assert Apart(taken[|r| - 1 - j], taken[|r| - 1 - i]);
    }
  }

  /** `interleave_matchups`: packs the games (already in the order the
      shuffle left them) into weeks, and gives up once it has filled more
      than `10 * teams` weeks. */
  method Interleave(games: seq<Pair>, teams: nat) returns (r: Result<seq<seq<Pair>>, ScheduleError>)
    ensures r.Ok? <==> |Packed(games, teams)| <= 10 * teams
    ensures r.Ok? ==> r.value == Packed(games, teams)
    ensures r.Err? ==> r.error.PackingFailed? && r.error.weeks == 10 * teams + 1
  {
    if |games| == 0 {
      return Ok([]);
    }
    var weeks: seq<seq<Pair>> := [];
    var rem := games;
    ghost var all := Packed(games, teams);
    while |rem| > 0
      invariant all == weeks + Packed(rem, teams)
      invariant |weeks| <= 10 * teams
      decreases |rem|
    {
      var pass := Pass(rem, {}, teams);
      var week := Reverse(pass.0);
      PackedStep(rem, teams);
      AppendWeek(weeks, week, Packed(pass.1, teams));
      weeks := weeks + [week];
      rem := pass.1;
      if |weeks| > 10 * teams {
        assert |all| >= |weeks|;
        return Err(PackingFailed(|weeks|));
      }
    }
    assert Packed(rem, teams) == [];
    return Ok(weeks);
  }

  /** Moving the next week from the weeks to come to the weeks filled. */
  lemma AppendWeek<T>(weeks: seq<T>, week: T, rest: seq<T>)
    ensures weeks + ([week] + rest) == (weeks + [week]) + rest
  {
  }
}
