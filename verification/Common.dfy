/** Bytes, big-endian integers and the small sequence helpers that the protocol models share. */
module Common {
  datatype Option<+T> = None | Some(value: T)

  type byte = b: int | 0 <= b < 256
  type bytes = seq<byte>

  /** The bytes of an ASCII literal. */
  function Raw(s: string): (r: bytes)
    ensures |r| == |s|
  {
    seq(|s|, i requires 0 <= i < |s| => s[i] as int % 256)
  }

  /** ASCII letters in lower case. */
  function Lower(s: bytes): (r: bytes)
    ensures |r| == |s|
  {
    seq(|s|, i requires 0 <= i < |s| => if 65 <= s[i] <= 90 then s[i] + 32 else s[i])
  }

  /** A number in decimal digits. */
  function Digits(n: nat): bytes {
    if n < 10 then [48 + n] else Digits(n / 10) + [48 + n % 10]
  }

  function Concat<T>(parts: seq<seq<T>>): seq<T> {
    if parts == [] then [] else parts[0] + Concat(parts[1..])
  }

  /** Number of values that `k` bytes can hold. */
  function Pow256(k: nat): (p: nat)
    ensures 0 < p
  {
    if k == 0 then 1 else 256 * Pow256(k - 1)
  }

  /** The unsigned value of a big-endian byte string. */
  function BigEndian(s: bytes): nat {
    if s == [] then 0 else 256 * BigEndian(s[..|s| - 1]) + s[|s| - 1]
  }

  /** The low `k` bytes of `n`, most significant first. */
  function ToBigEndian(n: nat, k: nat): (r: bytes)
    ensures |r| == k
  {
    if k == 0 then [] else ToBigEndian(n / 256, k - 1) + [n % 256]
  }

  lemma {:induction false} BigEndianRoundTrip(n: nat, k: nat)
    requires n < Pow256(k)
    ensures BigEndian(ToBigEndian(n, k)) == n
  {
    if k > 0 {
      BigEndianRoundTrip(n / 256, k - 1);
      assert ToBigEndian(n, k)[..k - 1] == ToBigEndian(n / 256, k - 1);
    }
  }

  lemma TwoBytes(s: bytes)
    requires |s| == 2
    ensures BigEndian(s) == 256 * (s[0] as int) + s[1]
  {
    assert s[..1][..0] == [];
    assert BigEndian(s[..1]) == s[0];
  }

  lemma {:induction false} BigEndianBound(s: bytes)
    ensures BigEndian(s) < Pow256(|s|)
  {
    if s != [] {
      BigEndianBound(s[..|s| - 1]);
    }
  }

  lemma {:induction false} ConcatAppend<T>(a: seq<seq<T>>, b: seq<seq<T>>)
    ensures Concat(a + b) == Concat(a) + Concat(b)
  {
    if a == [] {
      assert a + b == b;
    } else {
      var t := a[1..];
      assert (a + b)[1..] == t + b;
      ConcatAppend(t, b);
      assert Concat(a + b) == a[0] + (Concat(t) + Concat(b));
    }
  }

  lemma SliceOfAppend<T>(a: seq<T>, b: seq<T>, i: nat, j: nat)
    requires i <= j <= |a|
    ensures (a + b)[i..j] == a[i..j]
  {
  }

  /** Bitwise exclusive or of two unsigned integers. */
  function Xor(a: nat, b: nat): nat
    decreases a + b
  {
    if a == 0 && b == 0 then 0 else (a + b) % 2 + 2 * Xor(a / 2, b / 2)
  }

  /** The parity and the half of an exclusive or. */
  lemma {:induction false} XorDigits(a: nat, b: nat)
    ensures Xor(a, b) % 2 == (a + b) % 2
    ensures Xor(a, b) / 2 == Xor(a / 2, b / 2)
  {
    HalfAndParity((a + b) % 2, Xor(a / 2, b / 2));
  }

  lemma HalfAndParity(d: nat, h: nat)
    requires d < 2
    ensures (d + 2 * h) % 2 == d && (d + 2 * h) / 2 == h
  {
  }

  lemma {:induction false} XorInvolutive(a: nat, b: nat)
    ensures Xor(Xor(a, b), b) == a
    decreases a + b
  {
    hide Xor;
    if a == 0 && b == 0 {
      XorZero();
    } else {
      var x := Xor(a, b);
      XorDigits(a, b);
      XorDigits(x, b);
      XorInvolutive(a / 2, b / 2);
      Parity(a, b, x, Xor(x, b));
    }
  }

  lemma XorZero()
    ensures Xor(0, 0) == 0
  {
  }

  lemma Parity(a: nat, b: nat, x: nat, y: nat)
    requires x % 2 == (a + b) % 2 && y % 2 == (x + b) % 2 && y / 2 == a / 2
    ensures y == a
  {
  }

  lemma {:induction false} XorBound(a: nat, b: nat, bits: nat, limit: nat)
    requires limit == Pow2(bits) && a < limit && b < limit
    ensures Xor(a, b) < limit
  {
    if bits > 0 {
      XorBound(a / 2, b / 2, bits - 1, limit / 2);
    }
  }

  function Pow2(k: nat): (p: nat)
    ensures 0 < p
  {
    if k == 0 then 1 else 2 * Pow2(k - 1)
  }

  function XorByte(a: byte, b: byte): (r: byte) {
    assert Pow2(8) == 256;
    XorBound(a, b, 8, 256);
    Xor(a, b)
  }
}
