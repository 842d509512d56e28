/** What the Huffman decoder returns, for any code table, in terms of bits alone. */
module HuffmanCorrect {
  import opened Common
  import opened Bits
  import opened Huffman

  /** The longest code that can ever be complete in the decoder's accumulator. */
  const MAX_PENDING: nat := 12

  ghost predicate PrefixFree(t: Table)
    requires WellFormed(t)
  {
    forall i, j | 0 <= i < 257 && 0 <= j < 257 && i != j :: !(CodeBits(t[i]) <= CodeBits(t[j]))
  }

  /** No code of at most twelve bits starts another symbol's code. Prefix-free tables have this. */
  ghost predicate ShortPrefixFree(t: Table)
    requires WellFormed(t)
  {
    forall i, j | 0 <= i < 257 && 0 <= j < 257 && i != j && t[i].bits <= MAX_PENDING ::
      !(CodeBits(t[i]) <= CodeBits(t[j]))
  }

  // ----- The lookup structure represents the table -----

  ghost predicate FromTable(t: Table, c: LongCode)
    requires WellFormed(t)
  {
    t[c.symbol] == Code(c.code, c.bits) && c.bits > LOOKUP_BITS
  }

  lemma {:induction false} LongCodesFromTable(t: Table, n: nat)
    requires WellFormed(t) && n <= 256
    ensures forall c | c in LongCodes(t, n) :: FromTable(t, c)
  {
    if n > 0 {
      LongCodesFromTable(t, n - 1);
    }
  }

  /** By length, and by code among codes of one length. */
  predicate Sorted(s: seq<LongCode>) {
    forall i, j | 0 <= i < j < |s| :: !Before(s[j], s[i])
  }

  lemma {:induction false} InsertFacts(c: LongCode, s: seq<LongCode>)
    requires Sorted(s)
    ensures Sorted(Insert(c, s))
    ensures forall x :: x in Insert(c, s) <==> x == c || x in s
  {
    if s != [] && Before(s[0], c) {
      InsertFacts(c, s[1..]);
      var r := Insert(c, s[1..]);
      assert forall x | x in r :: x == c || x in s[1..];
      forall k | 0 <= k < |r|
        ensures !Before(r[k], s[0])
      {
        assert r[k] in r;
      }
      assert forall x :: x in s <==> x == s[0] || x in s[1..];
    }
  }

  lemma {:induction false} SortFacts(s: seq<LongCode>)
    ensures Sorted(Sort(s))
    ensures forall x :: x in Sort(s) <==> x in s
  {
    if s != [] {
      SortFacts(s[1..]);
      InsertFacts(s[0], Sort(s[1..]));
      assert forall x :: x in s <==> x == s[0] || x in s[1..];
    }
  }

  lemma LookupFacts(t: Table)
    requires WellFormed(t)
    ensures Usable(LookupOf(t)) && Sorted(LookupOf(t).long)
    ensures forall c | c in LookupOf(t).long :: FromTable(t, c)
    ensures forall c :: c in LookupOf(t).long <==> c in LongCodes(t, 256)
  {
    LongCodesFromTable(t, 256);
    SortFacts(LongCodes(t, 256));
    var l := LookupOf(t);
    forall i | 0 <= i < |l.long|
      ensures l.long[i].bits >= 1
    {
      assert l.long[i] in l.long;
    }
  }

  // ----- One lookup -----

  /** The ten bits that index the fast table: the pending bits, filled up with zeros. */
  function Window(p: seq<bool>): (w: seq<bool>)
    ensures |w| == 10
  {
    if |p| >= 10 then p[..10] else p + seq(10 - |p|, _ => false)
  }

  lemma {:induction false} FromZeros(k: nat)
    ensures FromBits(seq(k, _ => false)) == 0
  {
    if k > 0 {
      FromZeros(k - 1);
      assert seq(k, _ => false)[..k - 1] == seq(k - 1, _ => false);
    }
  }

  lemma Pow2Ten()
    ensures Pow2(10) == 1024
  {
  }

  lemma ShortWindow(p: seq<bool>)
    requires |p| < 10
    ensures FromBits(Window(p)) == FromBits(p) * Pow2(10 - |p|)
  {
    hide FromBits, Pow2;
    FromZeros(10 - |p|);
    FromBitsAppend(p, seq(10 - |p|, _ => false));
  }

  lemma WindowValue(p: seq<bool>)
    ensures FromBits(Window(p)) < 1024
    ensures |p| >= 10 ==> FromBits(Window(p)) == FromBits(p) / Pow2(|p| - 10)
    ensures |p| < 10 ==> FromBits(Window(p)) == FromBits(p) * Pow2(10 - |p|)
  {
    hide FromBits, Pow2;
    Pow2Ten();
    FromBitsBound(Window(p));
    if |p| >= 10 {
      SplitBits(p, 10);
    } else {
      ShortWindow(p);
    }
  }

  lemma FastIndexIsWindow(p: seq<bool>)
    ensures FastIndex(FromBits(p), |p|) == FromBits(Window(p))
  {
    hide FromBits, Pow2, Window;
    WindowValue(p);
    SmallMod(FromBits(Window(p)), 1024);
  }

  /** A short code covers a slot exactly when its bits start the slot's window. */
  lemma CoversIsPrefix(c: Code, w: seq<bool>)
    requires |w| == 10 && c.bits <= 10 && c.code < Pow2(c.bits)
    ensures Covers(c, FromBits(w)) <==> CodeBits(c) <= w
  {
    SplitBits(w, c.bits);
    FromToBits(c.code, c.bits);
    if Covers(c, FromBits(w)) {
      FromBitsInjective(CodeBits(c), w[..c.bits]);
    }
    if CodeBits(c) <= w {
      assert CodeBits(c) == w[..c.bits];
    }
  }

  /** A long code hits exactly when its bits start the pending bits. */
  lemma HitsIsPrefix(c: LongCode, p: seq<bool>)
    requires c.code < Pow2(c.bits)
    ensures Hits(c, FromBits(p), |p|) <==> CodeBits(Code(c.code, c.bits)) <= p
  {
    if c.bits <= |p| {
      SplitBits(p, c.bits);
      FromBitsBound(p[..c.bits]);
      SmallMod(FromBits(p[..c.bits]), Pow2(c.bits));
      FromToBits(c.code, c.bits);
      var w := CodeBits(Code(c.code, c.bits));
      if Hits(c, FromBits(p), |p|) {
        FromBitsInjective(w, p[..c.bits]);
      }
      if w <= p {
        assert w == p[..c.bits];
      }
    }
  }

  lemma FastSound(t: Table, p: seq<bool>)
    requires WellFormed(t)
    ensures var e := FastEntryAt(t, FastIndex(FromBits(p), |p|));
            e.symbol >= 0 && e.bits <= |p| ==> e.bits == t[e.symbol].bits && CodeBits(t[e.symbol]) <= p
  {
    hide FromBits, Pow2, FastIndex, Covers;
    FastIndexIsWindow(p);
    var s := FastSymbol(t, EOS, FromBits(Window(p)));
    if s >= 0 && t[s].bits <= |p| {
      assert t[s].bits <= 10 by { CoversBits(t[s], FromBits(Window(p))); }
      CoversIsPrefix(t[s], Window(p));
      assert CodeBits(t[s]) == Window(p)[..t[s].bits] == p[..t[s].bits];
    }
  }

  lemma CoversBits(c: Code, index: nat)
    requires Covers(c, index)
    ensures c.bits <= 10
  {
  }

  lemma SlowSound(t: Table, p: seq<bool>)
    requires WellFormed(t)
    ensures var m := FindLong(LookupOf(t).long, FromBits(p), |p|);
            m.Match? ==> m.bits == t[m.symbol].bits && CodeBits(t[m.symbol]) <= p
  {
    hide FromBits, Pow2, Hits, LookupOf;
    LookupFacts(t);
    var l := LookupOf(t);
    var m := FindLong(l.long, FromBits(p), |p|);
    if m.Match? {
      var c :| c in l.long && Hits(c, FromBits(p), |p|) && m == Match(c.symbol, c.bits);
      assert FromTable(t, c);
      HitsIsPrefix(c, p);
    }
  }

  /** A match is a symbol whose code starts the pending bits. */
  lemma LookSound(t: Table, p: seq<bool>)
    requires WellFormed(t)
    ensures Usable(LookupOf(t))
    ensures var m := Look(LookupOf(t), FromBits(p), |p|);
            m.Match? ==> m.bits == t[m.symbol].bits && CodeBits(t[m.symbol]) <= p
  {
    hide FromBits, Pow2, FastIndex, FindLong, Usable, FastEntryAt;
    LookupFacts(t);
    FastSound(t, p);
    SlowSound(t, p);
  }

  lemma Comparable<T>(a: seq<T>, b: seq<T>, p: seq<T>)
    requires a <= p && b <= p
    ensures a <= b || b <= a
  {
    if |a| <= |b| {
      assert a == b[..|a|];
    } else {
      assert b == a[..|b|];
    }
  }

  /** Two codes that start the same bits are the same symbol's. */
  lemma Unique(t: Table, i: nat, j: nat, p: seq<bool>)
    requires WellFormed(t) && ShortPrefixFree(t) && i < 257 && j < 257
    requires CodeBits(t[i]) <= p && CodeBits(t[j]) <= p && |p| <= MAX_PENDING
    ensures i == j
  {
    Comparable(CodeBits(t[i]), CodeBits(t[j]), p);
  }

  /** Every code of eleven or twelve bits found room in the list of long codes. */
  ghost predicate Stored(t: Table)
    requires WellFormed(t)
  {
    forall i: byte :: 10 < t[i].bits <= MAX_PENDING ==> LongCode(t[i].code, t[i].bits, i) in LongCodes(t, 256)
  }

  lemma {:induction false} FindLongFinds(long: seq<LongCode>, c: LongCode, acc: nat, bits: nat)
    requires Sorted(long) && c in long && Hits(c, acc, bits)
    ensures FindLong(long, acc, bits).Match?
  {
    hide Hits;
    var i :| 0 <= i < |long| && long[i] == c;
    assert c.bits <= bits by { HitsBits(c, acc, bits); }
    if i > 0 {
      assert c == long[1..][i - 1];
      FindLongFinds(long[1..], c, acc, bits);
    }
  }

  lemma HitsBits(c: LongCode, acc: nat, bits: nat)
    requires Hits(c, acc, bits)
    ensures c.bits <= bits
  {
  }

  lemma FastComplete(t: Table, sym: byte, p: seq<bool>)
    requires WellFormed(t) && ShortPrefixFree(t)
    requires CodeBits(t[sym]) <= p && t[sym].bits <= 10
    ensures FastEntryAt(t, FastIndex(FromBits(p), |p|)) == FastEntry(sym, t[sym].bits)
  {
    hide FromBits, Pow2, FastIndex, Covers, ShortPrefixFree, CodeBits;
    var w := Window(p);
    FastIndexIsWindow(p);
    assert CodeBits(t[sym]) <= w by {
      assert w[..t[sym].bits] == p[..t[sym].bits];
    }
    CoversIsPrefix(t[sym], w);
    var s := FastSymbol(t, EOS, FromBits(w));
    CoversBits(t[s], FromBits(w));
    CoversIsPrefix(t[s], w);
    Unique(t, s, sym, w);
  }

  lemma SlowComplete(t: Table, sym: byte, p: seq<bool>)
    requires WellFormed(t) && Stored(t)
    requires CodeBits(t[sym]) <= p && 10 < t[sym].bits && |p| <= 12
    ensures FindLong(LookupOf(t).long, FromBits(p), |p|).Match?
  {
    hide FromBits, Pow2, Hits, LookupOf, LongCodes;
    var c := LongCode(t[sym].code, t[sym].bits, sym);
    LookupFacts(t);
    assert c in LongCodes(t, 256);
    HitsIsPrefix(c, p);
    FindLongFinds(LookupOf(t).long, c, FromBits(p), |p|);
  }

  /** When a whole code is pending, its symbol is the match. */
  lemma LookComplete(t: Table, sym: byte, p: seq<bool>)
    requires WellFormed(t) && ShortPrefixFree(t) && Stored(t)
    requires CodeBits(t[sym]) <= p && |p| <= 12
    ensures Usable(LookupOf(t))
    ensures Look(LookupOf(t), FromBits(p), |p|) == Match(sym, t[sym].bits)
  {
    hide FromBits, Pow2, FastIndex, FindLong, Usable, FastEntryAt, ShortPrefixFree, Stored, CodeBits;
    LookupFacts(t);
    LookSound(t, p);
    if t[sym].bits <= 10 {
      FastComplete(t, sym, p);
    } else {
      SlowComplete(t, sym, p);
      Unique(t, Look(LookupOf(t), FromBits(p), |p|).symbol, sym, p);
    }
  }
}
