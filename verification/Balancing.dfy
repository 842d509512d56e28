/** Round robin and least connections of src/load_balancer.cpp on values: who is picked, and how evenly. */
module Balancing {
  import opened Common
  import Bits

  // ----- Round robin -----

  /** Try backends from ticket c on, at most `tries` of them; every attempt takes a ticket. */
  function Spin(healthy: seq<bool>, c: nat, tries: nat): (Option<nat>, nat)
    requires healthy != []
    decreases tries
  {
    if tries == 0 then (None, c)
    else if healthy[c % |healthy|] then (Some(c % |healthy|), c + 1)
    else Spin(healthy, c + 1, tries - 1)
  }

  /** The healthy backends that tickets a up to b point at. */
  function Visits(healthy: seq<bool>, a: nat, b: nat): seq<nat>
    requires healthy != [] && a <= b
    decreases b - a
  {
    if a == b then []
    else (if healthy[a % |healthy|] then [a % |healthy|] else []) + Visits(healthy, a + 1, b)
  }

  /** The picks of k successive selections, and the counter after them. */
  function Selections(healthy: seq<bool>, c: nat, k: nat): (seq<nat>, nat)
    requires healthy != []
    decreases k
  {
    if k == 0 then ([], c)
    else
      var (pick, next) := Spin(healthy, c, |healthy|);
      var (picks, end) := Selections(healthy, next, k - 1);
      ((if pick.Some? then [pick.value] else []) + picks, end)
  }

  lemma {:induction false} VisitsSplit(healthy: seq<bool>, a: nat, b: nat, c: nat)
    requires healthy != [] && a <= b <= c
    ensures Visits(healthy, a, c) == Visits(healthy, a, b) + Visits(healthy, b, c)
    decreases b - a
  {
    if a < b {
      VisitsSplit(healthy, a + 1, b, c);
    }
  }

  lemma {:induction false} SpinVisits(healthy: seq<bool>, c: nat, tries: nat)
    requires healthy != []
    ensures var (pick, next) := Spin(healthy, c, tries);
            c <= next && Visits(healthy, c, next) == if pick.Some? then [pick.value] else []
    decreases tries
  {
    if tries > 0 {
      if healthy[c % |healthy|] {
        assert Visits(healthy, c + 1, c + 1) == [];
      } else {
        SpinVisits(healthy, c + 1, tries - 1);
      }
    }
  }

  /** A full turn fails only when no backend is healthy. */
  lemma {:induction false} SpinFinds(healthy: seq<bool>, c: nat, j: nat)
    requires j < |healthy| && healthy[j]
    ensures Spin(healthy, c, |healthy|).0.Some?
  {
    var d := TurnTo(c, j, |healthy|);
    SpinReaches(healthy, c, d, |healthy|);
  }

  lemma TurnTo(c: nat, j: nat, n: nat) returns (d: nat)
    requires j < n
    ensures d < n && (c + d) % n == j
  {
    var q, r := c / n, c % n;
    d := if j >= r then j - r else j - r + n;
    assert c == q * n + r;
    ModShift(q, n, r, d, j);
  }

  lemma ModShift(q: nat, n: nat, r: nat, d: nat, j: nat)
    requires r < n && j < n && (r + d == j || r + d == j + n)
    ensures (q * n + r + d) % n == j
  {
    if r + d == j {
      Mod(q, n, j);
    } else {
      assert q * n + r + d == (q + 1) * n + j;
      Mod(q + 1, n, j);
    }
  }

  lemma Mod(q: nat, n: nat, r: nat)
    requires r < n
    ensures (q * n + r) % n == r
  {
    Bits.DivMod(q, n, r);
  }

  lemma {:induction false} SpinReaches(healthy: seq<bool>, c: nat, d: nat, tries: nat)
    requires healthy != [] && d < tries && healthy[(c + d) % |healthy|]
    ensures Spin(healthy, c, tries).0.Some?
    decreases tries
  {
    if !healthy[c % |healthy|] {
      SpinReaches(healthy, c + 1, d - 1, tries - 1);
    }
  }

  /** Successive selections are exactly the healthy backends in ticket order, with none skipped or repeated. */
  lemma {:induction false} SelectionsVisit(healthy: seq<bool>, c: nat, k: nat)
    requires healthy != []
    ensures var (picks, end) := Selections(healthy, c, k);
            c <= end && picks == Visits(healthy, c, end)
    decreases k
  {
    hide Spin, Visits;
    if k > 0 {
      var next := Spin(healthy, c, |healthy|).1;
      SpinVisits(healthy, c, |healthy|);
      SelectionsVisit(healthy, next, k - 1);
      VisitsSplit(healthy, c, next, Selections(healthy, next, k - 1).1);
    } else {
      NoVisits(healthy, c);
    }
  }

  lemma NoVisits(healthy: seq<bool>, c: nat)
    requires healthy != []
    ensures Visits(healthy, c, c) == []
  {
  }

  // How often a residue occurs among consecutive tickets.

  function Hits(j: nat, n: nat, a: nat, len: nat): nat
    requires n > 0
    decreases len
  {
    if len == 0 then 0 else (if a % n == j then 1 else 0) + Hits(j, n, a + 1, len - 1)
  }

  lemma {:induction false} HitsSplit(j: nat, n: nat, a: nat, x: nat, y: nat)
    requires n > 0
    ensures Hits(j, n, a, x + y) == Hits(j, n, a, x) + Hits(j, n, a + x, y)
    decreases x
  {
    if x > 0 {
      HitsSplit(j, n, a + 1, x - 1, y);
    }
  }

  /** Every window of n tickets hits each residue once. */
  lemma {:induction false} FullTurn(j: nat, n: nat, a: nat)
    requires j < n
    ensures Hits(j, n, a, n) == 1
  {
    if a == 0 {
      HitsLow(j, n, n);
    } else {
      FullTurn(j, n, a - 1);
      HitsSplit(j, n, a - 1, 1, n - 1);
      HitsSplit(j, n, a, n - 1, 1);
      OneHit(j, n, a - 1);
      OneHit(j, n, a + n - 1);
      NextTurn(a - 1, n);
    }
  }

  lemma NextTurn(x: nat, n: nat)
    requires n > 0
    ensures (x + n) % n == x % n
  {
    var q, r := x / n, x % n;
    assert x + n == (q + 1) * n + r;
    Mod(q + 1, n, r);
  }

  lemma OneHit(j: nat, n: nat, a: nat)
    requires n > 0
    ensures Hits(j, n, a, 1) == if a % n == j then 1 else 0
  {
    assert Hits(j, n, a + 1, 0) == 0;
  }

  lemma {:induction false} HitsLow(j: nat, n: nat, len: nat)
    requires j < n && len <= n
    ensures Hits(j, n, 0, len) == if j < len then 1 else 0
  {
    if len > 0 {
      HitsLow(j, n, len - 1);
      HitsSplit(j, n, 0, len - 1, 1);
      OneHit(j, n, len - 1);
      Bits.SmallMod(len - 1, n);
    }
  }

  /** In any window two residues are hit equally often up to one. */
  lemma {:induction false} HitsEven(i: nat, j: nat, n: nat, a: nat, len: nat)
    requires i < n && j < n
    ensures Hits(i, n, a, len) <= Hits(j, n, a, len) + 1
    decreases len
  {
    if len >= n {
      HitsEven(i, j, n, a + n, len - n);
      FullTurn(i, n, a);
      FullTurn(j, n, a);
      HitsSplit(i, n, a, n, len - n);
      HitsSplit(j, n, a, n, len - n);
    } else {
      FullTurn(i, n, a);
      HitsSplit(i, n, a, len, n - len);
    }
  }

  lemma {:induction false} VisitCount(healthy: seq<bool>, a: nat, b: nat, j: nat)
    requires a <= b && j < |healthy| && healthy[j]
    ensures multiset(Visits(healthy, a, b))[j] == Hits(j, |healthy|, a, b - a)
    decreases b - a
  {
    if a < b {
      VisitCount(healthy, a + 1, b, j);
      Counted(healthy, a % |healthy|, Visits(healthy, a + 1, b), j);
    }
  }

  lemma Counted(healthy: seq<bool>, i: nat, rest: seq<nat>, j: nat)
    requires i < |healthy| && j < |healthy| && healthy[j]
    ensures multiset((if healthy[i] then [i] else []) + rest)[j] == (if i == j then 1 else 0) + multiset(rest)[j]
  {
  }

  /** Over any number of selections every healthy backend is picked equally often, up to one. */
  lemma {:induction false} RoundRobinFair(healthy: seq<bool>, c: nat, k: nat, i: nat, j: nat)
    requires i < |healthy| && j < |healthy| && healthy[i] && healthy[j]
    ensures var picks := multiset(Selections(healthy, c, k).0);
            picks[i] <= picks[j] + 1
    ensures |Selections(healthy, c, k).0| == k
  {
    hide Selections, Visits, Hits;
    SelectionsVisit(healthy, c, k);
    var end := Selections(healthy, c, k).1;
    VisitCount(healthy, c, end, i);
    VisitCount(healthy, c, end, j);
    HitsEven(i, j, |healthy|, c, end - c);
    AllServed(healthy, c, k, i);
  }

  lemma {:induction false} AllServed(healthy: seq<bool>, c: nat, k: nat, j: nat)
    requires j < |healthy| && healthy[j]
    ensures |Selections(healthy, c, k).0| == k
    decreases k
  {
    hide Spin;
    if k > 0 {
      SpinFinds(healthy, c, j);
      AllServed(healthy, Spin(healthy, c, |healthy|).1, k - 1, j);
    }
  }

  // ----- Least connections -----

  const INT_MAX := 0x7fff_ffff

  datatype Load = Load(healthy: bool, active: int)

  /** The first of the least loaded healthy backends. */
  ghost predicate IsLeast(loads: seq<Load>, p: nat) {
    && p < |loads| && loads[p].healthy && loads[p].active < INT_MAX
    && (forall i | 0 <= i < |loads| && loads[i].healthy :: loads[p].active <= loads[i].active)
    && (forall i | 0 <= i < p && loads[i].healthy :: loads[p].active < loads[i].active)
  }

  ghost predicate Balanced(loads: seq<Load>) {
    forall i, j | 0 <= i < |loads| && 0 <= j < |loads| && loads[i].healthy && loads[j].healthy ::
      loads[i].active <= loads[j].active + 1
  }

  function Taken(loads: seq<Load>, p: nat): seq<Load>
    requires p < |loads|
  {
    loads[p := loads[p].(active := loads[p].active + 1)]
  }

  /** A run of selections, each of which picks a least loaded backend. */
  ghost predicate LeastRun(loads: seq<Load>, picks: seq<nat>, end: seq<Load>)
    decreases |picks|
  {
    if picks == [] then end == loads
    else IsLeast(loads, picks[0]) && LeastRun(Taken(loads, picks[0]), picks[1..], end)
  }

  function TotalLoad(loads: seq<Load>): int {
    if loads == [] then 0 else loads[0].active + TotalLoad(loads[1..])
  }

  lemma {:induction false} TakenAddsOne(loads: seq<Load>, p: nat)
    requires p < |loads|
    ensures TotalLoad(Taken(loads, p)) == TotalLoad(loads) + 1
  {
    var t := Taken(loads, p);
    if p == 0 {
      assert t[1..] == loads[1..];
    } else {
      TakenAddsOne(loads[1..], p - 1);
      assert t[1..] == Taken(loads[1..], p - 1);
    }
  }

  /** Every selection adds one connection in all, and health does not change. */
  lemma {:induction false} LeastCounts(loads: seq<Load>, picks: seq<nat>, end: seq<Load>)
    requires LeastRun(loads, picks, end)
    ensures TotalLoad(end) == TotalLoad(loads) + |picks|
    ensures |end| == |loads| && forall i | 0 <= i < |end| :: end[i].healthy == loads[i].healthy
    decreases |picks|
  {
    if picks != [] {
      TakenAddsOne(loads, picks[0]);
      LeastCounts(Taken(loads, picks[0]), picks[1..], end);
    }
  }

  /** Selecting keeps balanced loads balanced, for any number of selections. */
  lemma {:induction false} LeastStaysBalanced(loads: seq<Load>, picks: seq<nat>, end: seq<Load>)
    requires Balanced(loads) && LeastRun(loads, picks, end)
    ensures Balanced(end)
    decreases |picks|
  {
    if picks != [] {
      LeastStaysBalanced(Taken(loads, picks[0]), picks[1..], end);
    }
  }
}
