/** Texts that both versions of HTTP read: targets, names, numbers, and how each is told from its bytes. */
module HttpText {
  import opened Common

  // ----- Targets -----

  /** A target's path: everything before its first question mark. */
  predicate IsPath(target: bytes, path: bytes) {
    if 63 in target then path + [63] <= target && 63 !in path else path == target
  }

  /** A target's query: everything after its first question mark. */
  predicate IsQuery(target: bytes, query: bytes) {
    |query| < |target| && var k := |target| - |query| - 1; target == target[..k] + [63] + query && 63 !in target[..k]
  }

  lemma FirstOnly(target: bytes, i: nat, j: nat)
    requires i < |target| && target[i] == 63 && 63 !in target[..i]
    requires j < |target| && target[j] == 63 && 63 !in target[..j]
    ensures i == j
  {
  }

  lemma SamePath(target: bytes, p: bytes, q: bytes)
    requires IsPath(target, p) && IsPath(target, q)
    ensures p == q
  {
    if 63 in target {
      assert (p + [63])[|p|] == 63 && (q + [63])[|q|] == 63;
      assert p == target[..|p|] && q == target[..|q|];
      FirstOnly(target, |p|, |q|);
    }
  }

  lemma SameQuery(target: bytes, p: bytes, q: bytes)
    requires IsQuery(target, p) && IsQuery(target, q)
    ensures p == q
  {
    var i, j := |target| - |p| - 1, |target| - |q| - 1;
    assert p == target[i + 1..] && q == target[j + 1..];
    FirstOnly(target, i, j);
  }

  /** The two parts around the first question mark. */
  lemma SplitAt(target: bytes, k: nat)
    requires k < |target| && target[k] == 63 && 63 !in target[..k]
    ensures IsPath(target, target[..k]) && IsQuery(target, target[k + 1..])
  {
    assert target == target[..k] + [63] + target[k + 1..];
    assert target[..k] + [63] == target[..k + 1];
  }

  // ----- Names -----

  /** The same name with A to Z in lower case. */
  predicate IsLower(name: bytes, low: bytes) {
    |low| == |name| && forall i | 0 <= i < |name| :: low[i] == if 65 <= name[i] <= 90 then name[i] + 32 else name[i]
  }

  lemma LowerIs(name: bytes, low: bytes)
    ensures IsLower(name, low) <==> low == Lower(name)
  {
  }

  // ----- Numbers -----

  /** The number that decimal digits stand for. */
  function NumberOf(s: bytes): nat
    requires forall i | 0 <= i < |s| :: 48 <= s[i] <= 57
  {
    if s == [] then 0 else 10 * NumberOf(s[..|s| - 1]) + (s[|s| - 1] - 48)
  }

  /** The decimal text of a number, without leading zeros. */
  predicate IsDecimal(s: bytes, n: int) {
    if n < 0 then s != [] && s[0] == 45 && IsDecimal(s[1..], -n)
    else s != [] && (forall i | 0 <= i < |s| :: 48 <= s[i] <= 57) && NumberOf(s) == n && (s[0] == 48 ==> |s| == 1)
  }

  lemma {:induction false} DigitsRead(n: nat)
    ensures IsDecimal(Digits(n), n) && (n > 0 ==> Digits(n)[0] != 48)
    decreases n
  {
    if n >= 10 {
      DigitsRead(n / 10);
      var s := Digits(n);
      assert s[..|s| - 1] == Digits(n / 10);
    } else {
      assert [48 + n][..0] == [];
    }
  }

  /** A hexadecimal digit of this value, in either case. */
  predicate IsHexDigit(d: byte, v: nat) {
    v < 16 && (d == Raw("0123456789abcdef")[v] || d == Raw("0123456789ABCDEF")[v])
  }

  /** Hexadecimal digits for a number, with any leading zeros. */
  predicate IsHex(digits: bytes, n: nat) {
    if digits == [] then n == 0
    else IsHexDigit(digits[|digits| - 1], n % 16) && IsHex(digits[..|digits| - 1], n / 16)
  }
}
