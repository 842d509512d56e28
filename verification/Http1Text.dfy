/** Facts about searching a buffer and reading a number in front of one. */
module Http1Text {
  import opened Common
  import opened Http1

  // ----- Searching -----

  predicate Occurs(s: bytes, pat: bytes, i: nat) {
    i + |pat| <= |s| && s[i..i + |pat|] == pat
  }

  lemma OccursShifted(pre: bytes, s: bytes, pat: bytes, k: nat)
    ensures Occurs(pre + s, pat, |pre| + k) == Occurs(s, pat, k)
  {
    if k + |pat| <= |s| {
      assert (pre + s)[|pre| + k..|pre| + k + |pat|] == s[k..k + |pat|];
    }
  }

  lemma {:induction false} FindStep(s: bytes, pat: bytes, k: nat)
    requires k <= |s| && pat != []
    ensures Occurs(s, pat, k) ==> Find(s, pat, k) == Some(k)
    ensures !Occurs(s, pat, k) && k < |s| ==> Find(s, pat, k) == Find(s, pat, k + 1)
    ensures k == |s| ==> Find(s, pat, k).None?
  {
    if k + |pat| > |s| && k < |s| {
      assert Find(s, pat, k + 1).None?;
    }
  }

  lemma {:induction false} FindShift(pre: bytes, s: bytes, pat: bytes, k: nat)
    requires k <= |s| && pat != []
    ensures Find(pre + s, pat, |pre| + k) == match Find(s, pat, k) case None => None case Some(i) => Some(|pre| + i)
    decreases |s| - k
  {
    hide Find, Occurs;
    OccursShifted(pre, s, pat, k);
    FindStep(s, pat, k);
    FindStep(pre + s, pat, |pre| + k);
    if k < |s| && !Occurs(s, pat, k) {
      FindShift(pre, s, pat, k + 1);
    }
  }

  lemma {:induction false} FindSkip(s: bytes, pat: bytes, from: nat, until: nat)
    requires from <= until <= |s| && pat != []
    requires forall i | from <= i < until :: !Occurs(s, pat, i)
    ensures Find(s, pat, from) == Find(s, pat, until)
    decreases until - from
  {
    hide Find, Occurs;
    if from < until {
      FindStep(s, pat, from);
      FindSkip(s, pat, from + 1, until);
    }
  }

  lemma {:induction false} InsideLine(pre: bytes, line: bytes, rest: bytes, e: nat)
    requires Find(line, CRLF, 0).None? && |pre| <= e < |pre| + |line| && (rest == [] || rest[0] == 13)
    requires e + 2 <= |pre + line + rest|
    ensures (pre + line + rest)[e..e + 2] != CRLF
  {
    hide Find;
    var t := pre + line + rest;
    var i := e - |pre|;
    if i + 2 <= |line| && t[e..e + 2] == CRLF {
      assert line[i..i + 2] == t[e..e + 2];
      FindFirst(line, CRLF, 0, i);
    }
    if i + 1 == |line| {
      assert t[e..e + 2][1] == rest[0];
    }
  }

  /** The first line end after a line without one is its own. */
  lemma {:induction false} LineFound(pre: bytes, line: bytes, s: bytes)
    requires Find(line, CRLF, 0).None?
    ensures Find(pre + line + CRLF + s, CRLF, |pre|) == Some(|pre| + |line|)
  {
    hide Find;
    var t := pre + line + CRLF + s;
    var k := |pre| + |line|;
    assert t[k..k + 2] == CRLF;
    FindFirst(t, CRLF, |pre|, k);
    var e := Find(t, CRLF, |pre|).value;
    if e < k {
      InsideLine(pre, line, CRLF + s, e);
    }
  }

  /** A search from further on finds the same, if nothing lies between. */
  lemma {:induction false} FindLater(s: bytes, t: bytes, pat: bytes, from: nat, later: nat)
    requires pat != [] && from <= later && later + |pat| <= |s| + 1 && Find(s, pat, from).None?
    ensures Find(s + t, pat, from) == Find(s + t, pat, later)
  {
    hide Find;
    forall i | from <= i < later
      ensures !Occurs(s + t, pat, i)
    {
      if Occurs(s + t, pat, i) {
        assert s[i..i + |pat|] == (s + t)[i..i + |pat|];
        FindFirst(s, pat, from, i);
      }
    }
    FindSkip(s + t, pat, from, later);
  }

  lemma {:induction false} NoneFrom(s: bytes, pat: bytes, from: nat)
    requires pat != [] && from <= |s| && Find(s, pat, from).None?
    ensures Find(s[from..], pat, 0).None?
  {
    hide Find;
    FindShift(s[..from], s[from..], pat, 0);
    assert s[..from] + s[from..] == s;
  }

  /** A line that goes on without a line feed still has no end. */
  lemma {:induction false} StillNoEnd(line: bytes, x: byte)
    requires Find(line, CRLF, 0).None? && x != 10
    ensures Find(line + [x], CRLF, 0).None?
  {
    hide Find;
    var s := line + [x];
    if Find(s, CRLF, 0).Some? {
      var i := Find(s, CRLF, 0).value;
      assert s[i..i + 2][1] == s[i + 1];
      assert i + 2 <= |line|;
      assert line[i..i + 2] == s[i..i + 2];
      FindFirst(line, CRLF, 0, i);
    }
  }

  // ----- Numbers -----

  predicate AllHex(s: bytes) {
    forall i | 0 <= i < |s| :: Digit(s[i], 16).Some?
  }

  lemma RunUnique(s: bytes, n: nat)
    requires n < |s| && Digit(s[n], 16).None? && forall i | 0 <= i < n :: Digit(s[i], 16).Some?
    ensures DigitRun(s, 16) == n
  {
  }

  lemma {:induction false} FullRun(s: bytes)
    requires AllHex(s)
    ensures DigitRun(s, 16) == |s|
  {
  }

  lemma RunHex(s: bytes)
    ensures AllHex(s) <==> DigitRun(s, 16) == |s|
  {
  }

  /** What follows a byte that is no digit does not matter. */
  lemma {:induction false} NumberCut(x: bytes, w: bytes)
    requires !AllHex(x)
    ensures Number(x + w, 16) == Number(x, 16) && !AllHex(x + w)
  {
    hide DigitRun;
    RunHex(x);
    var n := DigitRun(x, 16);
    assert forall i | 0 <= i <= n :: (x + w)[i] == x[i];
    RunUnique(x + w, n);
    assert (x + w)[..n] == x[..n];
  }

  /** Nor does that byte itself. */
  lemma {:induction false} NumberEnd(x: bytes, z: byte, w: bytes)
    requires Digit(z, 16).None?
    ensures Number(x + ([z] + w), 16) == Number(x, 16)
  {
    hide DigitRun;
    var s := x + ([z] + w);
    var n := DigitRun(x, 16);
    assert forall i | 0 <= i < n :: s[i] == x[i];
    assert s[n] == if n < |x| then x[n] else z;
    RunUnique(s, n);
    assert s[..n] == x[..n];
  }

  /** The extension after a semicolon does not change the number. */
  lemma {:induction false} SemicolonIrrelevant(s: bytes)
    ensures Number(UpToSemicolon(s), 16) == Number(s, 16)
  {
    hide Find, DigitRun, Number;
    if Find(s, [59], 0).Some? {
      var i := Find(s, [59], 0).value;
      assert s[i..i + 1][0] == 59;
      assert s == s[..i] + ([59] + s[i + 1..]);
      NumberEnd(s[..i], 59, s[i + 1..]);
    }
  }

  lemma {:induction false} ValueLast(a: bytes, d: byte)
    requires AllHex(a) && Digit(d, 16).Some?
    ensures AllHex(a + [d]) && Value(a + [d], 16) == 16 * Value(a, 16) + Digit(d, 16).value
  {
    assert (a + [d])[..|a|] == a;
  }

  /** Digits in front raise the value unless they are zeros; digits behind never lower it. */
  lemma {:induction false} ValueAround(a: bytes, b: bytes)
    requires AllHex(a) && AllHex(b)
    ensures AllHex(a + b) && Value(a, 16) <= Value(a + b, 16)
    ensures Value(a, 16) == 0 ==> Value(a + b, 16) == Value(b, 16)
    ensures Value(a, 16) > 0 ==> Value(a + b, 16) > Value(b, 16)
    decreases |b|
  {
    hide Value, Digit;
    if b == [] {
      assert a + b == a && Value([], 16) == 0 by { NoDigits(); }
    } else {
      var n := |b| - 1;
      assert b == b[..n] + [b[n]] && a + b == a + b[..n] + [b[n]];
      ValueAround(a, b[..n]);
      ValueLast(b[..n], b[n]);
      ValueLast(a + b[..n], b[n]);
    }
  }

  lemma NoDigits()
    ensures Value([], 16) == 0
  {
  }

  lemma {:induction false} HexNumber(x: bytes)
    requires AllHex(x) && x != []
    ensures Number(x, 16) == if Value(x, 16) >= SIZE_LIMIT then None else Some(Value(x, 16))
  {
    FullRun(x);
    assert x[..|x|] == x;
  }

  // ----- Two lines that read the same however they go on -----

  /** Both read as the same number, with and without one more digit. */
  predicate Echo(stale: bytes, line: bytes) {
    Number(stale, 16) == Number(line, 16) && Number(stale + [49], 16) == Number(line + [49], 16)
  }

  /** The digits in front of a number that an echo allows are zeros. */
  lemma {:induction false} EchoZeros(u: bytes, y: bytes)
    requires y != [] && AllHex(y) && Value(y, 16) < SIZE_LIMIT && Echo(u + y, y)
    ensures AllHex(u) && Value(u, 16) == 0
  {
    hide Value, Number, AllHex;
    HexNumber(y);
    MoreHex(y);
    HexNumber(y + [49]);
    assert u + y + [49] == u + (y + [49]);
    if !AllHex(u) {
      NumberCut(u, y);
      NumberCut(u, y + [49]);
    } else {
      ValueAround(u, y);
      JoinHex(u, y);
      HexNumber(u + y);
    }
  }

  lemma MoreHex(y: bytes)
    requires AllHex(y)
    ensures AllHex(y + [49]) && Value(y + [49], 16) == 16 * Value(y, 16) + 1
  {
    ValueLast(y, 49);
  }

  lemma JoinHex(a: bytes, b: bytes)
    requires AllHex(a)
    ensures AllHex(a + b) <==> AllHex(b)
  {
    assert AllHex(a + b) ==> forall i | 0 <= i < |b| :: b[i] == (a + b)[|a| + i];
  }

  /** Zeros in front of a nonempty run of digits change nothing. */
  lemma {:induction false} ZerosIrrelevant(u: bytes, s: bytes)
    requires AllHex(u) && Value(u, 16) == 0 && s != [] && Digit(s[0], 16).Some?
    ensures Number(u + s, 16) == Number(s, 16)
  {
    hide Value, Digit, DigitRun;
    var n := DigitRun(s, 16);
    FirstRun(s);
    var x := s[..n];
    ValueAround(u, x);
    if n == |s| {
      RunHex(s);
      assert x == s;
      HexNumber(s);
      HexNumber(u + s);
    } else {
      assert s == x + ([s[n]] + s[n + 1..]) && u + s == u + x + ([s[n]] + s[n + 1..]);
      NumberEnd(x, s[n], s[n + 1..]);
      NumberEnd(u + x, s[n], s[n + 1..]);
      HexNumber(x);
      HexNumber(u + x);
    }
  }

  lemma FirstRun(s: bytes)
    requires s != [] && Digit(s[0], 16).Some?
    ensures DigitRun(s, 16) > 0
  {
  }

  /** A number out of range stays out of range. */
  lemma {:induction false} StaysOut(x: bytes, w: bytes)
    requires x != [] && AllHex(x) && Value(x, 16) >= SIZE_LIMIT
    ensures Number(x + w, 16).None?
  {
    hide Value, Digit, DigitRun;
    var s := x + w;
    var n := DigitRun(w, 16);
    ValueAround(x, w[..n]);
    var y := x + w[..n];
    HexNumber(y);
    if n == |w| {
      assert y == s;
    } else {
      assert s == y + ([w[n]] + w[n + 1..]);
      NumberEnd(y, w[n], w[n + 1..]);
    }
  }

  /** An echo lasts: the two lines read the same however they go on. */
  lemma {:induction false} EchoLasts(u: bytes, y: bytes, w: bytes)
    requires y != [] && Echo(u + y, y)
    ensures Number(u + (y + w), 16) == Number(y + w, 16)
  {
    hide Value, Number, Digit;
    assert u + (y + w) == u + y + w;
    if !AllHex(y) {
      NumberCut(y, w);
      if AllHex(u) {
        JoinHex(u, y);
      } else {
        NumberCut(u, y);
      }
      NumberCut(u + y, w);
    } else if Value(y, 16) < SIZE_LIMIT {
      EchoZeros(u, y);
      HexHead(y, w);
      ZerosIrrelevant(u, y + w);
    } else {
      HexNumber(y);
      StaysOut(y, w);
      if AllHex(u) {
        ValueFront(u, y);
        StaysOut(u + y, w);
      } else {
        NumberCut(u, y);
        NumberCut(u, y + w);
      }
    }
  }

  lemma HexHead(y: bytes, w: bytes)
    requires y != [] && AllHex(y)
    ensures Digit((y + w)[0], 16).Some?
  {
  }

  lemma ValueFront(u: bytes, y: bytes)
    requires AllHex(u) && AllHex(y)
    ensures AllHex(u + y) && Value(y, 16) <= Value(u + y, 16)
  {
    ValueAround(u, y);
  }
}
