/** What an integer in a header block denotes (section 5.1 of RFC 7541), and when the decoder reads that. */
module HpackIntegers {
  import opened Common
  import opened Hpack
  import Bits

  /** Seven bits to a byte, least significant first, up to the first byte below 128. */
  function DenotedTail(data: bytes): (r: Option<(nat, bytes)>)
    ensures r.Some? ==> |r.value.1| < |data|
  {
    if data == [] then None
    else if data[0] < 128 then Some((data[0], data[1..]))
    else
      match DenotedTail(data[1..])
      case None => None
      case Some((v, rest)) => Some(((data[0] % 128) as int + 128 * v, rest))
  }

  /** The value and what follows it; nothing if the input ends first. There is no bound on the value. */
  function Denoted(data: bytes, prefix: nat): (r: Option<(nat, bytes)>)
    requires 1 <= prefix <= 8
    ensures r.Some? ==> |r.value.1| < |data|
  {
    if data == [] then None
    else
      var v := (data[0] as int) % Pow2(prefix);
      if v < Pow2(prefix) - 1 then Some((v, data[1..]))
      else
        match DenotedTail(data[1..])
        case None => None
        case Some((t, rest)) => Some((v + t, rest))
  }

  lemma {:induction false} TailReads(data: bytes, value: nat, m: nat)
    requires m <= 63
    ensures DecodeTail(data, value, m)
         == match DenotedTail(data)
            case None => Failed
            case Some((v, rest)) =>
              if m + 7 * (|data| - |rest| - 1) > 63 then Failed else Read((value + v * Pow2(m)) % WORD, rest)
    decreases |data|
  {
    hide Pow2;
    if data != [] && data[0] >= 128 {
      var b: nat := (data[0] % 128) as int;
      var now := (value + b * Pow2(m)) % WORD;
      if m + 7 <= 63 {
        TailReads(data[1..], now, m + 7);
        if DenotedTail(data[1..]).Some? {
          NextSeven(value, b, DenotedTail(data[1..]).value.0, m);
        }
      }
    }
  }

  lemma NextSeven(value: nat, b: nat, v: nat, m: nat)
    ensures ((value + b * Pow2(m)) % WORD + v * Pow2(m + 7)) % WORD == (value + (b + 128 * v) * Pow2(m)) % WORD
  {
    hide Pow2;
    var p := Pow2(m);
    Bits.Pow2Add(7, m);
    Seven();
    Scaled(b, v, p);
    ModAdd(value + b * p, v * (128 * p));
  }

  lemma Seven()
    ensures Pow2(7) == 128
  {
  }

  lemma Scaled(b: nat, v: nat, p: nat)
    ensures (b + 128 * v) * p == b * p + v * (128 * p)
  {
  }

  lemma ModAdd(x: nat, y: nat)
    ensures (x % WORD + y) % WORD == (x + y) % WORD
  {
    var q := x / WORD;
    assert x == q * WORD + x % WORD;
    Bits.DivMod(q + (x % WORD + y) / WORD, WORD, (x % WORD + y) % WORD);
    assert x + y == (q + (x % WORD + y) / WORD) * WORD + (x % WORD + y) % WORD;
  }

  /** On every input: the denoted value modulo 2^64, if it takes at most eleven bytes. */
  lemma {:induction false} IntegerReads(data: bytes, prefix: nat)
    requires 1 <= prefix <= 8
    ensures DecodeInteger(data, prefix)
         == match Denoted(data, prefix)
            case None => Failed
            case Some((v, rest)) => if |data| - |rest| > 11 then Failed else Read(v % 0x1_0000_0000_0000_0000, rest)
  {
    hide DenotedTail, DecodeTail, Pow2;
    if data != [] {
      var v := (data[0] as int) % Pow2(prefix);
      PrefixBound(prefix);
      Bits.SmallMod(v, WORD);
      if v == Pow2(prefix) - 1 {
        TailReads(data[1..], v, 0);
        Once();
      }
    }
  }

  lemma PrefixBound(prefix: nat)
    requires 1 <= prefix <= 8
    ensures 2 <= Pow2(prefix) <= 256
  {
    assert Pow2(1) == 2 && Pow2(2) == 4 && Pow2(3) == 8 && Pow2(4) == 16;
    assert Pow2(5) == 32 && Pow2(6) == 64 && Pow2(7) == 128 && Pow2(8) == 256;
  }

  lemma Once()
    ensures Pow2(0) == 1
  {
  }

  /** The decoder reads what is denoted exactly when that is below 2^64 and takes at most eleven bytes. */
  lemma IntegerDenotedIff(data: bytes, prefix: nat, v: nat, rest: bytes)
    requires 1 <= prefix <= 8 && Denoted(data, prefix) == Some((v, rest))
    ensures DecodeInteger(data, prefix) == Read(v, rest) <==> v < 0x1_0000_0000_0000_0000 && |data| - |rest| <= 11
  {
    hide Denoted, DecodeInteger;
    IntegerReads(data, prefix);
    if v < WORD {
      Bits.SmallMod(v, WORD);
    }
  }

  // ----- A value that wraps -----

  lemma SevenZeros(data: bytes, v: nat, rest: bytes)
    requires DenotedTail(data) == Some((v, rest))
    ensures DenotedTail([0x80] + data) == Some((128 * v, rest))
  {
    assert ([0x80] + data)[1..] == data;
  }

  function Zeros(n: nat, data: bytes): bytes {
    if n == 0 then data else [0x80] + Zeros(n - 1, data)
  }

  /** 2^64 + 127 in seven bits and ten more bytes is read as 127. */
  lemma IntegerWraps()
    ensures var data := [0xff] + Zeros(9, [0x02]);
            Denoted(data, 7) == Some((0x1_0000_0000_0000_007f, [])) && DecodeInteger(data, 7) == Read(0x7f, [])
  {
    hide DenotedTail, DecodeInteger, Pow2;
    TwoAlone();
    SevenZeros(Zeros(0, [0x02]), 0x2, []);
    SevenZeros(Zeros(1, [0x02]), 0x100, []);
    SevenZeros(Zeros(2, [0x02]), 0x8000, []);
    SevenZeros(Zeros(3, [0x02]), 0x40_0000, []);
    SevenZeros(Zeros(4, [0x02]), 0x2000_0000, []);
    SevenZeros(Zeros(5, [0x02]), 0x10_0000_0000, []);
    SevenZeros(Zeros(6, [0x02]), 0x800_0000_0000, []);
    SevenZeros(Zeros(7, [0x02]), 0x4_0000_0000_0000, []);
    SevenZeros(Zeros(8, [0x02]), 0x200_0000_0000_0000, []);
    var tail := Zeros(9, [0x02]);
    ZerosLength(9, [0x02]);
    assert ([0xff] + tail)[1..] == tail;
    Seven();
    IntegerReads([0xff] + tail, 7);
  }

  lemma TwoAlone()
    ensures DenotedTail([0x02]) == Some((0x2, []))
  {
    assert [0x02][1..] == [];
  }

  lemma {:induction false} ZerosLength(n: nat, data: bytes)
    ensures |Zeros(n, data)| == n + |data|
  {
    if n > 0 {
      ZerosLength(n - 1, data);
    }
  }
}
