/**
 Python's unbounded-integer bit operations on naturals: powers of two,
 `&`, `^`, the text produced by `bin` and the value read back by
 `int(s, base=2)`.
 */
module BitOps {

  /** `1 << k` */
  function Pow2(k: nat): (p: nat)
    ensures p >= 1
  {
    if k == 0 then 1 else 2 * Pow2(k - 1)
  }

  /** A positive power of two, stated without an exponent. */
  predicate IsPow2(x: int)
    decreases if x < 0 then 0 else x
  {
    x == 1 || (x > 1 && x % 2 == 0 && IsPow2(x / 2))
  }

  /** `a & b` on naturals, bit by bit from the least significant end. */
  function And(a: nat, b: nat): nat
  {
    if a == 0 || b == 0 then 0
    else 2 * And(a / 2, b / 2) + (if a % 2 == 1 && b % 2 == 1 then 1 else 0)
  }

  /** `a ^ b` on naturals, bit by bit from the least significant end. */
  function Xor(a: nat, b: nat): nat
  {
    if a == 0 then b
    else if b == 0 then a
    else 2 * Xor(a / 2, b / 2) + (if a % 2 != b % 2 then 1 else 0)
  }

  /** Number of binary digits of a positive number (`int.bit_length`). */
  function BitLength(m: nat): nat
  {
    if m == 0 then 0 else 1 + BitLength(m / 2)
  }

  function Digit(b: nat): char
    requires b < 2
  {
    if b == 0 then '0' else '1'
  }

  function DigitValue(c: char): nat
  {
    if c == '1' then 1 else 0
  }

  /** The digits `bin(n)` prints after its `0b` prefix; `bin(0)` gives "0". */
  function Bin(n: nat): (s: seq<char>)
    ensures |s| >= 1
  {
    if n < 2 then [Digit(n)] else Bin(n / 2) + [Digit(n % 2)]
  }

  /** `int(s, base=2)` on a string of binary digits. */
  function FromBinary(s: seq<char>): nat
  {
    if s == [] then 0 else 2 * FromBinary(s[..|s| - 1]) + DigitValue(s[|s| - 1])
  }

  /** A run of `k` one-digits, as in `'1' * k`. */
  function Ones(k: nat): (s: seq<char>)
    ensures |s| == k
  {
    if k == 0 then [] else Ones(k - 1) + ['1']
  }

  // ---------------------------------------------------------------------
  // Division facts used below

  lemma DivModUnique(x: int, d: int, t: int, r: int)
    requires d > 0 && x == d * t + r && 0 <= r < d
    ensures x / d == t && x % d == r
  {
    var q, m := x / d, x % d;
    MulSign(d, t - q);
    assert d * (t - q) == m - r;
  }

  lemma MulSign(d: int, k: int)
    requires d > 0
    ensures k >= 1 ==> d * k >= d
    ensures k <= -1 ==> d * k <= -d
    decreases if k < 0 then -k else k
  {
    if k >= 1 {
      assert d * k == d * (k - 1) + d;
      MulSign(d, k - 1);
    } else if k <= -1 {
      assert d * k == d * (k + 1) - d;
      MulSign(d, k + 1);
    }
  }

  /** Splitting off the least significant bit of a remainder by `2p`. */
  lemma ModDouble(x: nat, p: nat)
    requires p > 0
    ensures x % (2 * p) == 2 * ((x / 2) % p) + x % 2
    ensures x / (2 * p) == (x / 2) / p
  {
    var t, u := (x / 2) / p, (x / 2) % p;
    assert x / 2 == p * t + u;
    assert x == 2 * (x / 2) + x % 2;
    assert x == (2 * p) * t + (2 * u + x % 2);
    DivModUnique(x, 2 * p, t, 2 * u + x % 2);
  }

  // ---------------------------------------------------------------------
  // Properties of the bit operations

  /** `x & ((1 << k) - 1)` keeps exactly the low `k` bits: it is `x % 2^k`. */
  lemma {:induction false} MaskIsMod(x: nat, k: nat)
    ensures And(x, Pow2(k) - 1) == x % Pow2(k)
  {
    if k == 0 {
    } else if x == 0 {
    } else {
      var m := Pow2(k) - 1;
      assert m / 2 == Pow2(k - 1) - 1 && m % 2 == 1;
      MaskIsMod(x / 2, k - 1);
      ModDouble(x, Pow2(k - 1));
    }
  }

  lemma {:induction false} AndSelf(x: nat)
    ensures And(x, x) == x
  {
    if x != 0 {
      AndSelf(x / 2);
    }
  }

  /**
   For a positive `x`, the test `x & (x - 1) == 0` holds exactly for the
   powers of two.
   */
  lemma {:induction false} PowerOfTwoTest(x: nat)
    requires x > 0
    ensures And(x, x - 1) == 0 <==> IsPow2(x)
  {
    if x == 1 {
    } else if x % 2 == 1 {
      AndSelf(x / 2);
      assert (x - 1) / 2 == x / 2 && (x - 1) % 2 == 0;
      assert And(x, x - 1) == 2 * (x / 2);
    } else {
      assert (x - 1) / 2 == x / 2 - 1 && (x - 1) % 2 == 1;
      assert And(x, x - 1) == 2 * And(x / 2, x / 2 - 1);
      PowerOfTwoTest(x / 2);
    }
  }

  lemma {:induction false} Pow2IsPow2(k: nat)
    ensures IsPow2(Pow2(k))
  {
    if k > 0 {
      Pow2IsPow2(k - 1);
      assert Pow2(k) / 2 == Pow2(k - 1);
    }
  }

  lemma {:induction false} Pow2Monotone(i: nat, j: nat)
    requires i <= j
    ensures Pow2(i) <= Pow2(j)
  {
    if i < j {
      Pow2Monotone(i, j - 1);
    }
  }

  /** `1 << j` is `(1 << i) << (j - i)`. */
  lemma {:induction false} Pow2Split(i: nat, j: nat)
    requires i <= j
    ensures Pow2(j) == Pow2(i) * Pow2(j - i)
  {
    if i < j {
      Pow2Split(i, j - 1);
      assert Pow2(j - i) == 2 * Pow2(j - 1 - i);
    }
  }

  /** Dividing powers of two subtracts the exponents. */
  lemma Pow2Quotient(i: nat, j: nat)
    requires i <= j
    ensures Pow2(j) / Pow2(i) == Pow2(j - i)
  {
    Pow2Split(i, j);
    DivModUnique(Pow2(j), Pow2(i), Pow2(j - i), 0);
  }

  /** `bin` followed by `int(., 2)` gives the number back. */
  lemma {:induction false} BinRoundTrip(n: nat)
    ensures FromBinary(Bin(n)) == n
  {
    if n >= 2 {
      BinRoundTrip(n / 2);
      var s := Bin(n);
      assert s[..|s| - 1] == Bin(n / 2);
    }
  }

  /** `bin(m)` has `bit_length(m)` digits, and `m` lies in `[2^(len-1), 2^len)`. */
  lemma {:induction false} BinLength(m: nat)
    requires m >= 1
    ensures |Bin(m)| == BitLength(m)
    ensures Pow2(BitLength(m) - 1) <= m < Pow2(BitLength(m))
  {
    if m >= 2 {
      BinLength(m / 2);
    }
  }

  /** Reading a leading digit `c` in front of `s` adds `c * 2^|s|`. */
  lemma {:induction false} FromBinaryLeadingDigit(c: char, s: seq<char>)
    ensures FromBinary([c] + s) == DigitValue(c) * Pow2(|s|) + FromBinary(s)
  {
    if s != [] {
      var t := [c] + s;
      assert t[..|t| - 1] == [c] + s[..|s| - 1];
      FromBinaryLeadingDigit(c, s[..|s| - 1]);
      if DigitValue(c) == 0 {
      } else {
        assert DigitValue(c) * Pow2(|s|) == 2 * Pow2(|s| - 1);
      }
    }
  }

  /** `int('0b' + '1' * k, base=2)` is the mask `2^k - 1`. */
  lemma {:induction false} OnesValue(k: nat)
    ensures FromBinary(Ones(k)) == Pow2(k) - 1
  {
    if k > 0 {
      OnesValue(k - 1);
      var s := Ones(k);
      assert s[..|s| - 1] == Ones(k - 1);
    }
  }
}
