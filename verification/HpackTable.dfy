/** What the dynamic table holds after any run of insertions and size updates (section 4 of RFC 7541). */
module HpackTable {
  import opened Hpack

  // ----- Longest fitting prefix -----

  /** How many entries, newest first, fit in `room` bytes. */
  function FitLen(s: seq<Header>, room: int): (n: nat)
    ensures n <= |s|
  {
    if s == [] || s[0].Size() > room then 0 else 1 + FitLen(s[1..], room - s[0].Size())
  }

  /** An entry is within the fit exactly when it and everything newer fit. */
  lemma {:induction false} FitIff(s: seq<Header>, room: int, j: nat)
    requires j < |s|
    ensures j < FitLen(s, room) <==> Total(s[..j + 1]) <= room
  {
    assert s[..j + 1][1..] == s[1..][..j];
    if j > 0 {
      FitIff(s[1..], room - s[0].Size(), j - 1);
    }
  }

  /** The entry exists, and it and everything newer fit. */
  predicate Fits(s: seq<Header>, room: int, j: nat) {
    j < |s| && Total(s[..j + 1]) <= room
  }

  /** Two lists that agree on what fits have the same fit. */
  lemma FitSame(a: seq<Header>, ra: int, b: seq<Header>, rb: int)
    requires forall j: nat :: Fits(a, ra, j) <==> Fits(b, rb, j)
    ensures FitLen(a, ra) == FitLen(b, rb)
  {
    hide FitLen, Total;
    var x, y := FitLen(a, ra), FitLen(b, rb);
    if x < y {
      FitIff(b, rb, x);
      assert Fits(b, rb, x);
      FitIff(a, ra, x);
    } else if y < x {
      FitIff(a, ra, y);
      assert Fits(a, ra, y);
      FitIff(b, rb, y);
    }
  }

  /** Cutting at a looser bound first does not change the fit. */
  lemma FitTwice(s: seq<Header>, loose: int, tight: int)
    requires tight <= loose
    ensures FitLen(s[..FitLen(s, loose)], tight) == FitLen(s, tight)
  {
    hide FitLen, Total;
    var p := s[..FitLen(s, loose)];
    forall j: nat
      ensures Fits(p, tight, j) <==> Fits(s, tight, j)
    {
      if j < |s| {
        FitIff(s, loose, j);
        if j < |p| {
          assert p[..j + 1] == s[..j + 1];
        }
      }
    }
    FitSame(p, tight, s, tight);
  }

  // ----- The operations keep a fitting prefix -----

  lemma {:induction false} EvictKeepsFit(t: Table, extra: nat)
    requires t.Exact()
    ensures Evict(t, extra).entries == t.entries[..FitLen(t.entries, t.max - extra)]
    decreases |t.entries|
  {
    hide FitLen, Total;
    var s, room := t.entries, t.max - extra;
    if t.size + extra > t.max && s != [] {
      TotalLast(s);
      var n := |s| - 1;
      EvictKeepsFit(t.(entries := s[..n], size := t.size - s[n].Size()), extra);
      LastDoesNotFit(s, room);
      assert s[..n][..FitLen(s, room)] == s[..FitLen(s, room)];
    } else {
      if s != [] {
        FitIff(s, room, |s| - 1);
        assert s[..|s|] == s;
      }
      assert s[..FitLen(s, room)] == s by { FitBound(s, room); }
    }
  }

  lemma LastDoesNotFit(s: seq<Header>, room: int)
    requires s != [] && Total(s) > room
    ensures FitLen(s[..|s| - 1], room) == FitLen(s, room)
  {
    hide FitLen, Total;
    var p := s[..|s| - 1];
    forall j: nat
      ensures Fits(p, room, j) <==> Fits(s, room, j)
    {
      if j < |p| {
        assert p[..j + 1] == s[..j + 1];
      } else {
        assert s[..|s|] == s;
      }
    }
    FitSame(p, room, s, room);
  }

  lemma FitBound(s: seq<Header>, room: int)
    requires s != [] ==> FitLen(s, room) > |s| - 1
    ensures FitLen(s, room) == |s|
  {
  }

  lemma AddKeepsFit(t: Table, h: Header)
    requires t.Valid()
    ensures var s := [h] + t.entries; Add(t, h).entries == s[..FitLen(s, t.max)]
  {
    hide Evict;
    EvictKeepsFit(t, h.Size());
    var s := [h] + t.entries;
    assert s[1..] == t.entries;
  }

  lemma SetMaxKeepsFit(t: Table, max: nat)
    requires t.Valid()
    ensures SetMax(t, max).entries == t.entries[..FitLen(t.entries, max)]
  {
    hide Evict, FitLen;
    EvictKeepsFit(t.(max := max), 0);
  }

  // ----- Runs -----

  datatype Op = Insert(header: Header) | Resize(max: nat)

  function Step(t: Table, op: Op): (r: Table)
    requires t.Valid()
    ensures r.Valid()
  {
    match op
    case Insert(h) => Add(t, h)
    case Resize(m) => SetMax(t, m)
  }

  /** The table after a run from an empty table of maximum `max`. */
  function Run(max: nat, ops: seq<Op>): (r: Table)
    ensures r.Valid()
  {
    if ops == [] then Table([], 0, max) else Step(Run(max, ops[..|ops| - 1]), ops[|ops| - 1])
  }

  /** The table after a run from any table. */
  function After(t: Table, ops: seq<Op>): (r: Table)
    requires t.Valid()
    ensures r.Valid()
    decreases |ops|
  {
    if ops == [] then t else After(Step(t, ops[0]), ops[1..])
  }

  lemma {:induction false} AfterAppend(t: Table, a: seq<Op>, b: seq<Op>)
    requires t.Valid()
    ensures After(t, a + b) == After(After(t, a), b)
    decreases |a|
  {
    hide Step;
    if a == [] {
      assert a + b == b;
    } else {
      AfterAppend(Step(t, a[0]), a[1..], b);
      assert (a + b)[0] == a[0] && (a + b)[1..] == a[1..] + b;
    }
  }

  lemma {:induction false} RunIsAfter(max: nat, ops: seq<Op>)
    ensures Run(max, ops) == After(Table([], 0, max), ops)
    decreases |ops|
  {
    hide Step;
    if ops != [] {
      var before, last := ops[..|ops| - 1], ops[|ops| - 1];
      RunIsAfter(max, before);
      AfterAppend(Table([], 0, max), before, [last]);
      assert ops == before + [last];
      AfterOne(Run(max, before), last);
    }
  }

  lemma AfterOne(t: Table, op: Op)
    requires t.Valid()
    ensures After(t, [op]) == Step(t, op)
  {
    hide Step;
    assert [op][1..] == [];
  }

  /** Everything inserted, newest first. */
  function History(ops: seq<Op>): seq<Header> {
    if ops == [] then []
    else
      var h, op := History(ops[..|ops| - 1]), ops[|ops| - 1];
      if op.Insert? then [op.header] + h else h
  }

  function MaxAfter(max: nat, ops: seq<Op>): nat {
    if ops == [] then max
    else if ops[|ops| - 1].Resize? then ops[|ops| - 1].max
    else MaxAfter(max, ops[..|ops| - 1])
  }

  /**
   At a fixed maximum the table is the longest prefix of the newest-first history that fits, even after
   an entry too large to be stored has emptied it.
   */
  lemma {:induction false} FixedMaximum(max: nat, ops: seq<Op>)
    requires forall i | 0 <= i < |ops| :: ops[i].Insert?
    ensures var h := History(ops); Run(max, ops).entries == h[..FitLen(h, max)] && Run(max, ops).max == max
    decreases |ops|
  {
    if ops != [] {
      var before, h := ops[..|ops| - 1], ops[|ops| - 1].header;
      FixedMaximum(max, before);
      FixedMaximumStep(Run(max, before), History(before), h);
    }
  }

  lemma FixedMaximumStep(t: Table, history: seq<Header>, h: Header)
    requires t.Valid() && t.entries == history[..FitLen(history, t.max)]
    ensures var s := [h] + history; Add(t, h).entries == s[..FitLen(s, t.max)]
  {
    hide Add;
    AddKeepsFit(t, h);
    var s, e := [h] + history, [h] + t.entries;
    assert s[1..] == history && e[1..] == t.entries;
    FitTwice(history, t.max, t.max - h.Size());
  }

  /** The size counter is the sum of the sizes, and never exceeds the maximum. */
  lemma {:induction false} SizeWithinMaximum(max: nat, ops: seq<Op>)
    ensures var t := Run(max, ops); t.size == Total(t.entries) <= t.max == MaxAfter(max, ops)
    decreases |ops|
  {
    hide Add, SetMax, FitLen;
    if ops != [] {
      var before, op := ops[..|ops| - 1], ops[|ops| - 1];
      SizeWithinMaximum(max, before);
      StepFits(Run(max, before), op);
    }
  }

  lemma StepFits(t: Table, op: Op)
    requires t.Valid()
    ensures Total(Step(t, op).entries) <= Step(t, op).max
  {
    hide Add, SetMax, FitLen;
    match op {
      case Insert(h) =>
        AddKeepsFit(t, h);
        FitTotal([h] + t.entries, t.max);
      case Resize(m) =>
        SetMaxKeepsFit(t, m);
        FitTotal(t.entries, m);
    }
  }

  lemma FitTotal(s: seq<Header>, room: nat)
    ensures Total(s[..FitLen(s, room)]) <= room
  {
    hide FitLen;
    var n := FitLen(s, room);
    if n > 0 {
      FitIff(s, room, n - 1);
    }
  }

  // ----- Which entries survive size updates -----

  /** Number of insertions after the first `k` operations. */
  function Later(ops: seq<Op>, k: nat): int
    requires k <= |ops|
  {
    |History(ops)| - |History(ops[..k])|
  }

  /** After the first `k` operations the entry that is now `j`th newest, if inserted by then, fitted with everything newer. */
  predicate FittedAt(max: nat, ops: seq<Op>, j: nat, k: nat)
    requires j < |History(ops)| && k <= |ops|
  {
    var i := j - Later(ops, k);
    0 <= i < |History(ops[..k])| ==> Total(History(ops[..k])[..i + 1]) <= MaxAfter(max, ops[..k])
  }

  lemma LastStep(max: nat, ops: seq<Op>, j: nat, k: nat)
    requires ops != [] && j < |History(ops)| && k < |ops|
    ensures var before := ops[..|ops| - 1];
            var shift := if ops[|ops| - 1].Insert? then 1 else 0;
            && (shift <= j ==> (FittedAt(max, ops, j, k) <==> FittedAt(max, before, j - shift, k)))
            && (j < shift ==> FittedAt(max, ops, j, k))
  {
    hide Total, MaxAfter, History;
    var before := ops[..|ops| - 1];
    assert before[..k] == ops[..k];
    HistoryGrows(before, k);
    HistoryStep(ops);
  }

  lemma HistoryStep(ops: seq<Op>)
    requires ops != []
    ensures |History(ops)| == |History(ops[..|ops| - 1])| + if ops[|ops| - 1].Insert? then 1 else 0
  {
  }

  lemma {:induction false} HistoryGrows(ops: seq<Op>, k: nat)
    requires k <= |ops|
    ensures |History(ops[..k])| <= |History(ops)|
  {
    if k < |ops| {
      var before := ops[..|ops| - 1];
      HistoryGrows(before, k);
      assert before[..k] == ops[..k];
    } else {
      assert ops[..k] == ops;
    }
  }

  /**
   Under any mixture of insertions and size updates the table is a prefix of the newest-first history, and an
   entry is still there exactly when, at every moment since its insertion, it and everything newer fitted in
   the maximum then in force.
   */
  lemma {:induction false} SurvivesIff(max: nat, ops: seq<Op>, j: nat)
    requires j < |History(ops)|
    ensures Run(max, ops).entries <= History(ops)
    ensures j < |Run(max, ops).entries| <==> forall k: nat | k <= |ops| :: FittedAt(max, ops, j, k)
    decreases |ops|
  {
    hide FittedAt, Add, SetMax, FitLen;
    var before, op := ops[..|ops| - 1], ops[|ops| - 1];
    var i := j - if op.Insert? then 1 else 0;
    PrefixOfHistory(max, ops);
    SurvivesStep(max, ops, j);
    var earlier := forall k: nat | k < |ops| :: FittedAt(max, ops, j, k);
    forall k: nat | k < |ops|
      ensures i >= 0 ==> (FittedAt(max, ops, j, k) <==> FittedAt(max, before, i, k))
      ensures i < 0 ==> FittedAt(max, ops, j, k)
    {
      LastStep(max, ops, j, k);
    }
    if i >= 0 {
      SurvivesIff(max, before, i);
      assert earlier <==> forall k: nat | k <= |before| :: FittedAt(max, before, i, k);
    }
    assert (forall k: nat | k <= |ops| :: FittedAt(max, ops, j, k)) <==> earlier && FittedAt(max, ops, j, |ops|);
  }

  lemma {:induction false} PrefixOfHistory(max: nat, ops: seq<Op>)
    ensures Run(max, ops).entries <= History(ops)
    decreases |ops|
  {
    hide Add, SetMax, FitLen;
    if ops != [] {
      var before, op := ops[..|ops| - 1], ops[|ops| - 1];
      PrefixOfHistory(max, before);
      var t := Run(max, before);
      match op {
        case Insert(h) =>
          AddKeepsFit(t, h);
          assert [h] + t.entries <= [h] + History(before);
        case Resize(m) =>
          SetMaxKeepsFit(t, m);
      }
    }
  }

  /** What the last operation keeps: entries that were there before and fit now. */
  lemma SurvivesStep(max: nat, ops: seq<Op>, j: nat)
    requires ops != [] && j < |History(ops)|
    ensures var before, op := ops[..|ops| - 1], ops[|ops| - 1];
            var was := if op.Insert? then j <= |Run(max, before).entries| else j < |Run(max, before).entries|;
            j < |Run(max, ops).entries| <==> was && FittedAt(max, ops, j, |ops|)
  {
    hide Add, SetMax, FitLen, Total;
    var before, op := ops[..|ops| - 1], ops[|ops| - 1];
    var t := Run(max, before);
    PrefixOfHistory(max, before);
    MaxOfRun(max, before);
    assert ops[..|ops|] == ops;
    match op {
      case Insert(h) =>
        AddKeepsFit(t, h);
        var s := [h] + t.entries;
        if j < |s| {
          FitIff(s, t.max, j);
          assert s[..j + 1] == History(ops)[..j + 1];
        }
      case Resize(m) =>
        SetMaxKeepsFit(t, m);
        if j < |t.entries| {
          FitIff(t.entries, m, j);
          assert t.entries[..j + 1] == History(ops)[..j + 1];
        }
    }
  }

  lemma {:induction false} MaxOfRun(max: nat, ops: seq<Op>)
    ensures Run(max, ops).max == MaxAfter(max, ops)
    decreases |ops|
  {
    hide Add, SetMax;
    if ops != [] {
      MaxOfRun(max, ops[..|ops| - 1]);
    }
  }
}
