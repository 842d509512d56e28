/** Bit strings, most significant bit first, and their values. */
module Bits {
  import opened Common

  function ToBits(v: nat, k: nat): (r: seq<bool>)
    ensures |r| == k
  {
    if k == 0 then [] else ToBits(v / 2, k - 1) + [v % 2 == 1]
  }

  function FromBits(p: seq<bool>): nat {
    if p == [] then 0 else 2 * FromBits(p[..|p| - 1]) + if p[|p| - 1] then 1 else 0
  }

  /** The bits of a byte string in wire order. */
  function BitsOf(data: bytes): (r: seq<bool>)
    ensures |r| == 8 * |data|
  {
    if data == [] then [] else ToBits(data[0], 8) + BitsOf(data[1..])
  }

  function Ones(k: nat): (r: seq<bool>)
    ensures |r| == k
  {
    seq(k, _ => true)
  }

  lemma {:induction false} FromBitsBound(p: seq<bool>)
    ensures FromBits(p) < Pow2(|p|)
  {
    if p != [] {
      FromBitsBound(p[..|p| - 1]);
    }
  }

  lemma {:induction false} FromToBits(v: nat, k: nat)
    requires v < Pow2(k)
    ensures FromBits(ToBits(v, k)) == v
  {
    if k > 0 {
      FromToBits(v / 2, k - 1);
      assert ToBits(v, k)[..k - 1] == ToBits(v / 2, k - 1);
    }
  }

  lemma {:induction false} ToFromBits(p: seq<bool>)
    ensures ToBits(FromBits(p), |p|) == p
  {
    if p != [] {
      var q := p[..|p| - 1];
      ToFromBits(q);
      assert FromBits(p) / 2 == FromBits(q);
      assert p == q + [p[|p| - 1]];
    }
  }

  lemma FromBitsInjective(p: seq<bool>, q: seq<bool>)
    requires |p| == |q| && FromBits(p) == FromBits(q)
    ensures p == q
  {
    ToFromBits(p);
    ToFromBits(q);
  }

  lemma {:induction false} FromBitsAppend(p: seq<bool>, q: seq<bool>)
    ensures FromBits(p + q) == FromBits(p) * Pow2(|q|) + FromBits(q)
  {
    if q == [] {
      assert p + q == p;
    } else {
      var r := q[..|q| - 1];
      assert (p + q)[..|p + q| - 1] == p + r;
      FromBitsAppend(p, r);
      Shift(FromBits(p), Pow2(|r|), FromBits(r));
      assert (p + q)[|p + q| - 1] == q[|q| - 1];
    }
  }

  lemma Shift(h: nat, w: nat, l: nat)
    ensures 2 * (h * w + l) == h * (2 * w) + 2 * l
  {
  }

  /** Splitting a value by division is splitting its bits. */
  lemma SplitBits(p: seq<bool>, k: nat)
    requires k <= |p|
    ensures FromBits(p) / Pow2(|p| - k) == FromBits(p[..k])
    ensures FromBits(p) % Pow2(|p| - k) == FromBits(p[k..])
  {
    hide FromBits, Pow2;
    assert p == p[..k] + p[k..];
    FromBitsAppend(p[..k], p[k..]);
    FromBitsBound(p[k..]);
    DivMod(FromBits(p[..k]), Pow2(|p| - k), FromBits(p[k..]));
  }

  lemma SmallMod(a: nat, b: nat)
    requires a < b
    ensures a % b == a
  {
  }

  lemma DivMod(h: nat, w: nat, l: nat)
    requires l < w
    ensures (h * w + l) / w == h && (h * w + l) % w == l
  {
    var q, r := (h * w + l) / w, (h * w + l) % w;
    assert (q - h) * w == l - r by {
      assert q * w + r == h * w + l;
    }
    if q > h {
      Monotone(1, q - h, w);
      assert false;
    } else if q < h {
      Monotone(1, h - q, w);
      assert false;
    }
  }

  lemma Monotone(a: nat, b: nat, w: nat)
    requires a <= b
    ensures a * w <= b * w
  {
  }

  lemma {:induction false} Pow2Add(a: nat, b: nat)
    ensures Pow2(a + b) == Pow2(a) * Pow2(b)
  {
    if a > 0 {
      Pow2Add(a - 1, b);
      Doubled(Pow2(a - 1), Pow2(b));
    }
  }

  lemma Doubled(x: nat, y: nat)
    ensures 2 * (x * y) == (2 * x) * y
  {
  }

  lemma {:induction false} FromOnes(k: nat)
    ensures FromBits(Ones(k)) == Pow2(k) - 1
  {
    if k > 0 {
      FromOnes(k - 1);
      assert Ones(k)[..k - 1] == Ones(k - 1);
    }
  }

  lemma AllOnesIff(p: seq<bool>)
    ensures FromBits(p) == Pow2(|p|) - 1 <==> p == Ones(|p|)
  {
    FromOnes(|p|);
    if FromBits(p) == Pow2(|p|) - 1 {
      FromBitsInjective(p, Ones(|p|));
    }
  }

  lemma {:induction false} BitsOfPrefix(data: bytes, k: nat)
    requires k <= |data|
    ensures BitsOf(data)[..8 * k] == BitsOf(data[..k])
  {
    if k > 0 {
      BitsOfPrefix(data[1..], k - 1);
      assert data[..k][1..] == data[1..][..k - 1];
    }
  }

  /** Shifting a byte into an accumulator appends its bits. */
  lemma PushByte(p: seq<bool>, b: byte)
    ensures FromBits(p + ToBits(b, 8)) == FromBits(p) * 256 + b
  {
    assert Pow2(8) == 256;
    FromBitsAppend(p, ToBits(b, 8));
    FromToBits(b, 8);
  }
}
