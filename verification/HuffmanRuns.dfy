/**
 Whole runs of the Huffman decoder: whatever it returns is a decoding of the bits it read, and
 exactly which encoded strings it decodes.
 */
module HuffmanRuns {
  import opened Common
  import opened Bits
  import opened Huffman
  import opened HuffmanCorrect

  lemma CodesCons(t: Table, sym: byte, s: bytes)
    requires WellFormed(t)
    ensures Codes(t, [sym] + s) == CodeBits(t[sym]) + Codes(t, s)
  {
    assert ([sym] + s)[1..] == s;
  }

  /** One match: the symbol's code is split off the pending bits. */
  lemma Consume(t: Table, p: seq<bool>, m: Match)
    requires WellFormed(t) && m.Match? && m.bits == t[m.symbol].bits && CodeBits(t[m.symbol]) <= p
    ensures p == CodeBits(t[m.symbol]) + p[m.bits..]
    ensures FromBits(p) % Pow2(|p| - m.bits) == FromBits(p[m.bits..])
  {
    SplitBits(p, m.bits);
  }

  /** `r` is `out` followed by symbols whose codes are `p` up to the unread bits `q`. */
  ghost predicate Decodes(t: Table, p: seq<bool>, out: bytes, r: bytes, q: seq<bool>)
    requires WellFormed(t)
  {
    && out <= r && p == Codes(t, r[|out|..]) + q
    && (forall i | |out| <= i < |r| :: t[r[i]].bits <= MAX_PENDING)
  }

  lemma DecodesNothing(t: Table, p: seq<bool>, out: bytes)
    requires WellFormed(t)
    ensures Decodes(t, p, out, out, p)
  {
    assert [] + p == p;
  }

  lemma DecodesStep(t: Table, p: seq<bool>, m: Match, out: bytes, r: bytes, q: seq<bool>)
    requires WellFormed(t) && m.Match? && m.bits == t[m.symbol].bits && CodeBits(t[m.symbol]) <= p
    requires |p| <= MAX_PENDING
    requires Decodes(t, p[m.bits..], out + [m.symbol], r, q)
    ensures Decodes(t, p, out, r, q)
  {
    hide CodeBits;
    var s := r[|out| + 1..];
    assert r[|out|..] == [m.symbol] + s;
    CodesCons(t, m.symbol, s);
    assert p == CodeBits(t[m.symbol]) + (Codes(t, s) + q) by { Consume(t, p, m); }
  }

  lemma {:induction false} DrainSound(t: Table, p: seq<bool>, out: bytes) returns (q: seq<bool>)
    requires WellFormed(t) && Usable(LookupOf(t)) && |p| <= 12
    ensures match Drain(LookupOf(t), FromBits(p), |p|, out)
            case Pending(acc, bits, r) => acc == FromBits(q) && bits == |q| && Decodes(t, p, out, r, q)
            case Done(r) => 5 <= |q| <= 7 && q == Ones(|q|) && Decodes(t, p, out, r, q)
            case Bad => true
    decreases |p|
  {
    hide FromBits, Pow2, Look, Usable, LookupOf, Decodes, CodeBits, Ones;
    q := p;
    DecodesNothing(t, p, out);
    if |p| >= 5 {
      var m := Look(LookupOf(t), FromBits(p), |p|);
      LookSound(t, p);
      if m.Match? {
        Consume(t, p, m);
        q := DrainSound(t, p[m.bits..], out + [m.symbol]);
        if !Drain(LookupOf(t), FromBits(p), |p|, out).Bad? {
          DecodesStep(t, p, m, out, Drain(LookupOf(t), FromBits(p), |p|, out).out, q);
        }
      } else {
        PaddingIff(p);
      }
    }
  }

  /** The decoder's padding test: all the pending bits are ones. */
  lemma PaddingIff(p: seq<bool>)
    ensures FromBits(p) % Pow2(|p|) == Pow2(|p|) - 1 <==> p == Ones(|p|)
  {
    FromBitsBound(p);
    SmallMod(FromBits(p), Pow2(|p|));
    AllOnesIff(p);
  }

  /**
   The result is a decoding of the input up to a byte boundary: its codes, then at most seven ones.
   The boundary is the end of the input unless at least five ones were left.
   */
  ghost predicate DecodesUpTo(t: Table, p: seq<bool>, data: bytes, out: bytes, r: bytes, k: nat, u: nat)
    requires WellFormed(t)
  {
    && k <= |data| && u <= 7 && (k == |data| || u >= 5)
    && Decodes(t, p + BitsOf(data[..k]), out, r, Ones(u))
  }

  lemma DecodesThen(t: Table, p: seq<bool>, out: bytes, mid: bytes, q: seq<bool>, x: seq<bool>, r: bytes, z: seq<bool>)
    requires WellFormed(t)
    requires Decodes(t, p, out, mid, q) && Decodes(t, q + x, mid, r, z)
    ensures Decodes(t, p + x, out, r, z)
  {
    hide Codes;
    var s1, s2 := mid[|out|..], r[|mid|..];
    assert r[|out|..] == s1 + s2;
    CodesAppend(t, s1, s2);
    var c1, c2 := Codes(t, s1), Codes(t, s2);
    assert p + x == c1 + (q + x);
    assert c1 + (c2 + z) == (c1 + c2) + z;
  }

  lemma DecodesLater(t: Table, p: seq<bool>, data: bytes, out: bytes, mid: bytes, q: seq<bool>, r: bytes, k: nat, u: nat)
    requires WellFormed(t) && data != []
    requires Decodes(t, p + ToBits(data[0], 8), out, mid, q)
    requires DecodesUpTo(t, q, data[1..], mid, r, k, u)
    ensures DecodesUpTo(t, p, data, out, r, k + 1, u)
  {
    hide ToBits, Ones, Decodes;
    var d := data[1..][..k];
    assert data[..k + 1][1..] == d;
    assert p + BitsOf(data[..k + 1]) == (p + ToBits(data[0], 8)) + BitsOf(d);
    DecodesThen(t, p + ToBits(data[0], 8), out, mid, q, BitsOf(d), r, Ones(u));
  }

  lemma {:induction false} CodesAppend(t: Table, a: bytes, b: bytes)
    requires WellFormed(t)
    ensures Codes(t, a + b) == Codes(t, a) + Codes(t, b)
  {
    hide CodeBits;
    if a == [] {
      assert a + b == b;
    } else {
      CodesAppend(t, a[1..], b);
      assert (a + b)[0] == a[0] && (a + b)[1..] == a[1..] + b;
      Regroup(CodeBits(t[a[0]]), Codes(t, a[1..]), Codes(t, b));
    }
  }

  lemma Regroup<T>(x: seq<T>, y: seq<T>, z: seq<T>)
    ensures x + (y + z) == x + y + z
  {
  }

  lemma {:induction false} FeedSound(t: Table, data: bytes, p: seq<bool>, out: bytes) returns (k: nat, u: nat)
    requires WellFormed(t) && Usable(LookupOf(t)) && |p| < 5
    ensures var r := Feed(LookupOf(t), data, FromBits(p), |p|, out);
            r.Some? ==> DecodesUpTo(t, p, data, out, r.value, k, u)
    decreases |data|
  {
    hide FromBits, Pow2, Drain, Usable, LookupOf, Decodes, CodeBits, Ones, ToBits;
    k, u := 0, |p|;
    if data == [] {
      PaddingIff(p);
      DecodesNothing(t, p, out);
      assert p + [] == p;
    } else {
      var p1 := p + ToBits(data[0], 8);
      PushByte(p, data[0]);
      var q := DrainSound(t, p1, out);
      match Drain(LookupOf(t), FromBits(p1), |p1|, out) {
        case Pending(acc, bits, mid) =>
          k, u := FeedSound(t, data[1..], q, mid);
          if Feed(LookupOf(t), data, FromBits(p), |p|, out).Some? {
            var r := Feed(LookupOf(t), data, FromBits(p), |p|, out).value;
            DecodesLater(t, p, data, out, mid, q, r, k, u);
            k := k + 1;
          }
        case Done(r) =>
          k, u := 1, |q|;
          assert data[..1][1..] == [];
          assert BitsOf(data[..1]) == ToBits(data[0], 8);
        case Bad =>
      }
    }
  }

  /**
   Soundness, for any code table: when a string comes back, its concatenated codes are a prefix of the
   input bits, the bits left of the last byte examined are at most seven ones, and no code is longer than
   the twelve bits that can be pending.
   */
  lemma DecodeSound(t: Table, data: bytes) returns (k: nat, u: nat)
    requires WellFormed(t)
    ensures Usable(LookupOf(t))
    ensures var r := Decode(LookupOf(t), data);
            r.Some? ==> k <= |data| && u <= 7 && (k == |data| || u >= 5)
                        && BitsOf(data)[..8 * k] == Codes(t, r.value) + Ones(u)
                        && forall i | 0 <= i < |r.value| :: t[r.value[i]].bits <= MAX_PENDING
  {
    hide FromBits, LookupOf, Feed, Usable, Ones, CodeBits;
    LookupFacts(t);
    FromEmpty();
    k, u := FeedSound(t, data, [], []);
    if Decode(LookupOf(t), data).Some? {
      BitsOfPrefix(data, k);
      var r := Decode(LookupOf(t), data).value;
      assert r[0..] == r && [] + BitsOf(data[..k]) == BitsOf(data[..k]);
    }
  }

  lemma FromEmpty()
    ensures FromBits([]) == 0
  {
  }

  // ----- Exactly which encoded strings are decoded -----

  /** The least multiple of eight that is at least `n`. */
  function Ceil8(n: nat): nat {
    (n + 7) / 8 * 8
  }

  /**
   Every code, starting at bit `pos`, is complete by the first byte boundary that leaves the decoder
   at least five bits to look at. This is a property of the code lengths alone.
   */
  predicate Aligned(t: Table, s: bytes, pos: nat)
    requires WellFormed(t)
    decreases |s|
  {
    s == [] || (pos + t[s[0]].bits <= Ceil8(pos + 5) && Aligned(t, s[1..], pos + t[s[0]].bits))
  }

  /**
   What the decoder makes of the encoding of `s` from bit `pos` on: the symbols as long as their codes are complete
   where it looks. An incomplete code is taken for padding if the bits pending are at most seven ones, and the input
   is refused if not.
   */
  function Reading(t: Table, s: bytes, pos: nat): Option<bytes>
    requires WellFormed(t)
    decreases |s|
  {
    if s == [] then Some([])
    else if pos + t[s[0]].bits <= Ceil8(pos + 5) then Prepend([s[0]], Reading(t, s[1..], pos + t[s[0]].bits))
    else
      var n := Ceil8(pos + 5) - pos;
      if n <= 7 && CodeBits(t[s[0]])[..n] == Ones(n) then Some([]) else None
  }

  function Prepend(out: bytes, r: Option<bytes>): Option<bytes> {
    if r.Some? then Some(out + r.value) else None
  }

  lemma PrependTwice(a: bytes, b: bytes, r: Option<bytes>)
    ensures Prepend(a, Prepend(b, r)) == Prepend(a + b, r)
  {
    if r.Some? {
      Regroup(a, b, r.value);
    }
  }

  /** The whole string comes back exactly when it is aligned. */
  lemma {:induction false} ReadingWhole(t: Table, s: bytes, pos: nat)
    requires WellFormed(t)
    ensures Reading(t, s, pos) == Some(s) <==> Aligned(t, s, pos)
    decreases |s|
  {
    hide CodeBits, Ceil8, Ones;
    if s != [] {
      ReadingWhole(t, s[1..], pos + t[s[0]].bits);
      var r := Reading(t, s[1..], pos + t[s[0]].bits);
      assert s == [s[0]] + s[1..];
      if r.Some? {
        assert ([s[0]] + r.value)[1..] == r.value;
      }
    }
  }

  /** What the decoder relies on in a code table. */
  ghost predicate Suitable(t: Table) {
    && WellFormed(t) && ShortPrefixFree(t) && Stored(t)
    && (forall i: byte :: t[i].bits >= 5)
    && t[EOS].bits >= 8 && CodeBits(t[EOS]) == Ones(t[EOS].bits)
  }

  /** Nothing matches bits that properly start a code, or bits that are all padding. */
  lemma NoLook(t: Table, p: seq<bool>, i: nat)
    requires Suitable(t) && i < 257
    requires p <= CodeBits(t[i]) && |p| < t[i].bits && |p| <= MAX_PENDING
    ensures Usable(LookupOf(t)) && Look(LookupOf(t), FromBits(p), |p|).NoMatch?
  {
    hide FromBits, Look, Usable, LookupOf, CodeBits;
    LookSound(t, p);
  }

  lemma OnesPrefix(k: nat, n: nat)
    requires k <= n
    ensures Ones(k) <= Ones(n)
  {
    assert Ones(n)[..k] == Ones(k);
  }

  /** The decoder's state while it works through a rendered string. */
  ghost predicate Rendered(t: Table, p: seq<bool>, later: seq<bool>, s: bytes, pad: nat)
    requires WellFormed(t)
  {
    pad < 8 && p + later == Codes(t, s) + Ones(pad)
  }

  /** What draining one byte's worth must come to: `k` symbols taken, and the right verdict on the rest. */
  ghost predicate DrainVerdict(t: Table, r: Outcome, later: seq<bool>, out: bytes, s: bytes, pad: nat, pos: nat, k: nat, q: seq<bool>)
    requires WellFormed(t)
  {
    match r
    case Pending(acc, bits, out') =>
      && k <= |s| && out' == out + s[..k] && acc == FromBits(q) && bits == |q|
      && Rendered(t, q, later, s[k..], pad)
      && Reading(t, s, pos) == Prepend(s[..k], Reading(t, s[k..], pos + |Codes(t, s[..k])|))
    case Done(out') => Prepend(out, Reading(t, s, pos)) == Some(out')
    case Bad => Reading(t, s, pos) == None
  }

  lemma AtBoundary(pos: nat, n: nat)
    requires (pos + n) % 8 == 0 && 5 <= n <= 12
    ensures Ceil8(pos + 5) == pos + n
  {
  }

  lemma RenderedPads(t: Table, p: seq<bool>, later: seq<bool>, pad: nat)
    requires WellFormed(t) && Rendered(t, p, later, [], pad)
    ensures p == Ones(|p|) && |p| <= pad
  {
    assert p + later == Ones(pad);
    assert p == (p + later)[..|p|] == Ones(pad)[..|p|] == Ones(|p|);
  }

  lemma RenderedHead(t: Table, p: seq<bool>, later: seq<bool>, s: bytes, pad: nat)
    requires WellFormed(t) && s != [] && Rendered(t, p, later, s, pad)
    ensures var c := CodeBits(t[s[0]]);
            if |c| <= |p| then c <= p && Rendered(t, p[|c|..], later, s[1..], pad)
            else p <= c && |p| < |c|
  {
    hide CodeBits, Ones;
    var c := CodeBits(t[s[0]]);
    var w := p + later;
    var rest := Codes(t, s[1..]) + Ones(pad);
    assert w == c + rest;
    if |c| <= |p| {
      assert c == w[..|c|] == p[..|c|];
      assert p[|c|..] + later == w[|c|..] == rest;
    } else {
      assert p == w[..|p|] == c[..|p|];
    }
  }

  /** With no whole code pending the byte ends in a verdict at once. */
  lemma DrainStops(t: Table, p: seq<bool>, later: seq<bool>, out: bytes, s: bytes, pad: nat, pos: nat)
    requires Suitable(t) && Usable(LookupOf(t)) && 5 <= |p| <= 12 && (pos + |p|) % 8 == 0
    requires Rendered(t, p, later, s, pad) && (s != [] ==> |p| < t[s[0]].bits)
    ensures DrainVerdict(t, Drain(LookupOf(t), FromBits(p), |p|, out), later, out, s, pad, pos, 0, p)
  {
    hide FromBits, Pow2, Look, Usable, LookupOf, CodeBits, Ones, Rendered, ShortPrefixFree, Stored;
    AtBoundary(pos, |p|);
    PaddingIff(p);
    if s == [] {
      RenderedPads(t, p, later, pad);
      PadBound(t, p, later, s, pad);
      OnesPrefix(|p|, t[EOS].bits);
      NoLook(t, p, EOS);
      assert out + [] == out;
    } else {
      RenderedHead(t, p, later, s, pad);
      NoLook(t, p, s[0]);
      assert CodeBits(t[s[0]])[..|p|] == p;
      assert out + [] == out;
    }
  }

  lemma PadBound(t: Table, p: seq<bool>, later: seq<bool>, s: bytes, pad: nat)
    requires WellFormed(t) && Rendered(t, p, later, s, pad)
    ensures pad < 8
  {
  }

  lemma ReadingHead(t: Table, s: bytes, k: nat, pos: nat)
    requires WellFormed(t) && 1 <= k <= |s| && pos + t[s[0]].bits <= Ceil8(pos + 5)
    ensures Reading(t, s, pos) == Prepend([s[0]], Reading(t, s[1..], pos + t[s[0]].bits))
    ensures s[1..][k - 1..] == s[k..] && [s[0]] + s[1..][..k - 1] == s[..k]
    ensures |Codes(t, s[..k])| == t[s[0]].bits + |Codes(t, s[1..][..k - 1])|
  {
    assert s[..k][1..] == s[1..][..k - 1];
  }

  /** The verdict on the rest of the string is the verdict on the string. */
  lemma VerdictAfterSymbol(t: Table, r: Outcome, later: seq<bool>, out: bytes, s: bytes, pad: nat, pos: nat, k: nat, q: seq<bool>)
    requires WellFormed(t) && s != [] && pos + t[s[0]].bits <= Ceil8(pos + 5)
    requires DrainVerdict(t, r, later, out + [s[0]], s[1..], pad, pos + t[s[0]].bits, k, q)
    ensures DrainVerdict(t, r, later, out, s, pad, pos, k + 1, q)
  {
    hide Rendered, Reading, Codes, FromBits, Prepend, Ceil8;
    ReadingHead(t, s, 1, pos);
    PrependTwice(out, [s[0]], Reading(t, s[1..], pos + t[s[0]].bits));
    NoneStays([s[0]]);
    if r.Pending? {
      ReadingHead(t, s, k + 1, pos);
      PrependTwice([s[0]], s[1..][..k], Reading(t, s[k + 1..], pos + |Codes(t, s[..k + 1])|));
      assert out + [s[0]] + s[1..][..k] == out + s[..k + 1];
    }
  }

  lemma NoneStays(out: bytes)
    ensures Prepend(out, None) == None
  {
  }

  lemma {:induction false} DrainExact(t: Table, p: seq<bool>, later: seq<bool>, out: bytes, s: bytes, pad: nat, pos: nat)
    returns (k: nat, q: seq<bool>)
    requires Suitable(t) && Usable(LookupOf(t)) && |p| <= 12 && (pos + |p|) % 8 == 0
    requires Rendered(t, p, later, s, pad)
    ensures DrainVerdict(t, Drain(LookupOf(t), FromBits(p), |p|, out), later, out, s, pad, pos, k, q)
    decreases |p|
  {
    hide FromBits, Pow2, Look, Usable, LookupOf, CodeBits, Rendered, ShortPrefixFree, Stored, Ones, DrainVerdict;
    k, q := 0, p;
    if |p| < 5 {
      VerdictNone(t, p, later, out, s, pad, pos);
    } else if s == [] || |p| < t[s[0]].bits {
      DrainStops(t, p, later, out, s, pad, pos);
    } else {
      var n := t[s[0]].bits;
      RenderedHead(t, p, later, s, pad);
      LookComplete(t, s[0], p);
      Consume(t, p, Match(s[0], n));
      AtBoundary(pos, |p|);
      k, q := DrainExact(t, p[n..], later, out + [s[0]], s[1..], pad, pos + n);
      VerdictAfterSymbol(t, Drain(LookupOf(t), FromBits(p), |p|, out), later, out, s, pad, pos, k, q);
      k := k + 1;
    }
  }

  lemma VerdictNone(t: Table, p: seq<bool>, later: seq<bool>, out: bytes, s: bytes, pad: nat, pos: nat)
    requires WellFormed(t) && Rendered(t, p, later, s, pad)
    ensures DrainVerdict(t, Pending(FromBits(p), |p|, out), later, out, s, pad, pos, 0, p)
  {
    assert s[..0] == [] && s[0..] == s && out + [] == out;
    PrependNothing(Reading(t, s, pos));
  }

  lemma PrependNothing(r: Option<bytes>)
    ensures Prepend([], r) == r
  {
    if r.Some? {
      assert [] + r.value == r.value;
    }
  }

  /** At the end of the input fewer than five bits are left, too few for any code. */
  lemma FeedEnds(t: Table, p: seq<bool>, out: bytes, s: bytes, pad: nat)
    requires Suitable(t) && Usable(LookupOf(t)) && |p| < 5 && Rendered(t, p, [], s, pad)
    ensures s == [] && Feed(LookupOf(t), [], FromBits(p), |p|, out) == Some(out)
  {
    hide FromBits, Pow2, Usable, LookupOf, CodeBits, Ones, ShortPrefixFree, Stored;
    PaddingIff(p);
    if s == [] {
      RenderedPads(t, p, [], pad);
    }
  }

  lemma {:induction false} FeedExact(t: Table, data: bytes, p: seq<bool>, out: bytes, s: bytes, pad: nat, pos: nat)
    requires Suitable(t) && Usable(LookupOf(t)) && |p| < 5 && (pos + |p|) % 8 == 0
    requires Rendered(t, p, BitsOf(data), s, pad)
    ensures Feed(LookupOf(t), data, FromBits(p), |p|, out) == Prepend(out, Reading(t, s, pos))
    decreases |data|
  {
    hide FromBits, Pow2, Drain, Usable, LookupOf, ToBits, ShortPrefixFree, Stored, Rendered, Codes, Prepend;
    if data == [] {
      FeedEnds(t, p, out, s, pad);
      NothingRead(t, out, pos);
    } else {
      var p1, later := p + ToBits(data[0], 8), BitsOf(data[1..]);
      PushByte(p, data[0]);
      assert p1 + later == p + BitsOf(data);
      Rerender(t, p, BitsOf(data), p1, later, s, pad);
      var k, q := DrainExact(t, p1, later, out, s, pad, pos);
      match Drain(LookupOf(t), FromBits(p1), |p1|, out) {
        case Pending(acc, bits, out') =>
          var n := |Codes(t, s[..k])|;
          TakenBits(t, p1, later, s, pad, k, q);
          assert (pos + n + |q|) % 8 == 0;
          FeedExact(t, data[1..], q, out', s[k..], pad, pos + n);
          PrependTwice(out, s[..k], Reading(t, s[k..], pos + n));
        case _ =>
          NoneStays(out);
      }
    }
  }

  lemma NothingRead(t: Table, out: bytes, pos: nat)
    requires WellFormed(t)
    ensures Prepend(out, Reading(t, [], pos)) == Some(out)
  {
    assert out + [] == out;
  }

  lemma Rerender(t: Table, p: seq<bool>, later: seq<bool>, p': seq<bool>, later': seq<bool>, s: bytes, pad: nat)
    requires WellFormed(t) && Rendered(t, p, later, s, pad) && p' + later' == p + later
    ensures Rendered(t, p', later', s, pad)
  {
  }

  lemma TakenBits(t: Table, p: seq<bool>, later: seq<bool>, s: bytes, pad: nat, k: nat, q: seq<bool>)
    requires WellFormed(t) && k <= |s| && Rendered(t, p, later, s, pad) && Rendered(t, q, later, s[k..], pad)
    ensures |p| == |Codes(t, s[..k])| + |q|
  {
    hide Codes, Ones;
    CodesAppend(t, s[..k], s[k..]);
    assert s == s[..k] + s[k..];
    assert |p + later| == |Codes(t, s)| + |Ones(pad)|;
    assert |q + later| == |Codes(t, s[k..])| + |Ones(pad)|;
  }

  /** Whatever the string, the decoder makes of its padded encoding what Reading says, which names no bits but its codes. */
  lemma DecodeReads(t: Table, data: bytes, s: bytes, pad: nat)
    requires Suitable(t) && pad < 8 && BitsOf(data) == Codes(t, s) + Ones(pad)
    ensures Usable(LookupOf(t))
    ensures Decode(LookupOf(t), data) == Reading(t, s, 0)
  {
    hide FromBits, LookupOf, Feed, Usable, Ones, CodeBits, ShortPrefixFree, Stored, Prepend;
    LookupFacts(t);
    FromEmpty();
    assert [] + BitsOf(data) == BitsOf(data);
    FeedExact(t, data, [], [], s, pad, 0);
    PrependNothing(Reading(t, s, 0));
  }

  /**
   Completeness, exactly: an encoded and padded string decodes to itself if and only if every code in it
   is complete at the first byte boundary at which the decoder looks at it.
   */
  lemma DecodeExact(t: Table, data: bytes, s: bytes, pad: nat)
    requires Suitable(t) && pad < 8 && BitsOf(data) == Codes(t, s) + Ones(pad)
    ensures Usable(LookupOf(t))
    ensures Decode(LookupOf(t), data) == Some(s) <==> Aligned(t, s, 0)
  {
    hide LookupOf, Decode, Usable, CodeBits, Reading, Aligned, ShortPrefixFree, Stored, WellFormed;
    DecodeReads(t, data, s, pad);
    ReadingWhole(t, s, 0);
  }

  /** How many symbols come before the first whose code is incomplete where the decoder looks. */
  function Leading(t: Table, s: bytes, pos: nat): (j: nat)
    requires WellFormed(t)
    ensures j <= |s|
    decreases |s|
  {
    if s == [] || pos + t[s[0]].bits > Ceil8(pos + 5) then 0 else 1 + Leading(t, s[1..], pos + t[s[0]].bits)
  }

  /**
   The first `j` symbols, whose codes have `taken` bits, and the verdict on the next one: the decoder sees only the
   first `n` bits of its code.
   */
  ghost predicate StopsAt(t: Table, s: bytes, pos: nat, j: nat, taken: nat, r: Option<bytes>)
    requires WellFormed(t)
  {
    var n := Ceil8(pos + taken + 5) - (pos + taken);
    && j < |s| && taken == |Codes(t, s[..j])| && 5 <= n < t[s[j]].bits
    && r == if n <= 7 && CodeBits(t[s[j]])[..n] == Ones(n) then Some(s[..j]) else None
  }

  lemma StopsLater(t: Table, s: bytes, pos: nat, j: nat, taken: nat, r: Option<bytes>)
    requires WellFormed(t) && s != [] && StopsAt(t, s[1..], pos + t[s[0]].bits, j, taken, r)
    ensures StopsAt(t, s, pos, j + 1, t[s[0]].bits + taken, Prepend([s[0]], r))
  {
    hide CodeBits, Ceil8, Ones;
    assert s[..j + 1][1..] == s[1..][..j] && [s[0]] + s[1..][..j] == s[..j + 1];
  }

  /**
   On a string that is not aligned the decoder returns the symbols before the first incomplete code, as a success, if
   the bits of that code it sees are at most seven ones, and refuses the input if they are not.
   */
  lemma {:induction false} MisalignedReading(t: Table, s: bytes, pos: nat)
    requires WellFormed(t) && !Aligned(t, s, pos)
    ensures var j := Leading(t, s, pos); StopsAt(t, s, pos, j, |Codes(t, s[..j])|, Reading(t, s, pos))
    decreases |s|
  {
    hide CodeBits, Ones, StopsAt;
    var n := t[s[0]].bits;
    if pos + n <= Ceil8(pos + 5) {
      MisalignedReading(t, s[1..], pos + n);
      var j := Leading(t, s[1..], pos + n);
      StopsLater(t, s, pos, j, |Codes(t, s[1..][..j])|, Reading(t, s[1..], pos + n));
      assert s[..j + 1][1..] == s[1..][..j];
    } else {
      StopsHere(t, s, pos);
    }
  }

  lemma StopsHere(t: Table, s: bytes, pos: nat)
    requires WellFormed(t) && s != [] && pos + t[s[0]].bits > Ceil8(pos + 5)
    ensures StopsAt(t, s, pos, 0, |Codes(t, s[..0])|, Reading(t, s, pos))
  {
    assert s[..0] == [];
  }
}
