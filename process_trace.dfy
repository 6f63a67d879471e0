/**
 Address preprocessing for the load trace: a hexadecimal address string is
 read as a number and split, at log2 of the cache line size, into a tag
 (the high bits) and a block id (the low bits).
 */
module ProcessTrace {
  import opened Results
  import opened BitOps

  // ---------------------------------------------------------------------
  // Reading hexadecimal text, as `int(s, base=16)` does for plain digits

  predicate IsHexDigit(c: char)
  {
    '0' <= c <= '9' || 'a' <= c <= 'f' || 'A' <= c <= 'F'
  }

  function HexDigitValue(c: char): (v: nat)
    requires IsHexDigit(c)
    ensures v < 16
  {
    if '0' <= c <= '9' then (c - '0') as nat
    else if 'a' <= c <= 'f' then (c - 'a') as nat + 10
    else (c - 'A') as nat + 10
  }

  predicate AllHexDigits(s: seq<char>)
  {
    forall i :: 0 <= i < |s| ==> IsHexDigit(s[i])
  }

  /** The base-16 value of a string of hex digits, most significant first. */
  function HexValue(s: seq<char>): nat
    requires AllHexDigits(s)
  {
    if s == [] then 0 else 16 * HexValue(s[..|s| - 1]) + HexDigitValue(s[|s| - 1])
  }

  /** The digits after an optional `0x` or `0X` prefix. */
  function HexBody(s: seq<char>): (body: seq<char>)
    ensures |body| <= |s| && body == s[|s| - |body|..]
  {
    if |s| >= 2 && s[0] == '0' && (s[1] == 'x' || s[1] == 'X') then s[2..] else s
  }

  /**
   `int(address, base=16)`: the value of a non-empty run of hex digits, with
   an optional `0x` prefix; anything else has no value.
   */
  function ParseHex(s: seq<char>): (r: Option<nat>)
    ensures r.Some? <==> |HexBody(s)| > 0 && AllHexDigits(HexBody(s))
  {
    var body := HexBody(s);
    if |body| > 0 && AllHexDigits(body) then Some(HexValue(body)) else None
  }

  // ---------------------------------------------------------------------
  // Writing hexadecimal text, the partner of reading it

  function HexDigit(d: nat): (c: char)
    requires d < 16
    ensures IsHexDigit(c) && HexDigitValue(c) == d
  {
    if d < 10 then ('0' as int + d) as char else ('a' as int + d - 10) as char
  }

  /** Lower-case hex digits of `n` without a prefix, as `format(n, 'x')` writes them. */
  function ToHex(n: nat): (s: seq<char>)
    ensures |s| >= 1 && AllHexDigits(s)
  {
    if n < 16 then [HexDigit(n)] else ToHex(n / 16) + [HexDigit(n % 16)]
  }

  /** Reading back the digits of `n` gives `n`. */
  lemma {:induction false} HexValueOfToHex(n: nat)
    ensures HexValue(ToHex(n)) == n
  {
    if n >= 16 {
      HexValueOfToHex(n / 16);
      var s := ToHex(n);
      assert s[..|s| - 1] == ToHex(n / 16);
    }
  }

  /** Every natural number's hex text parses back to it. */
  lemma HexRoundTrip(n: nat)
    ensures ParseHex(ToHex(n)) == Some(n)
  {
    HexBodyOfDigits(ToHex(n));
    HexValueOfToHex(n);
  }

  /** Hex digits alone are their own body: the second digit is never an `x`. */
  lemma HexBodyOfDigits(digits: seq<char>)
    requires AllHexDigits(digits)
    ensures HexBody(digits) == digits
  {
    if |digits| >= 2 {
      assert IsHexDigit(digits[1]);
    }
  }

  /** A `0x` prefix does not change the value. */
  lemma PrefixIgnored(digits: seq<char>)
    requires |digits| > 0 && AllHexDigits(digits)
    ensures ParseHex("0x" + digits) == ParseHex(digits) == Some(HexValue(digits))
  {
    var s := "0x" + digits;
    assert s[0] == '0' && s[1] == 'x' && s[2..] == digits;
    HexBodyOfDigits(digits);
  }

  // ---------------------------------------------------------------------
  // Splitting an address

  datatype PreprocessError = InvalidCacheLineSize(cacheLineSize: nat) | InvalidAddress

  /** `int(np.log2(x))` for a positive integer `x`: the exponent of the largest power of two not above `x`. */
  function Log2Floor(x: nat): (k: nat)
    requires x >= 1
    ensures k == 0 <==> x == 1
  {
    assert x >= 2 ==> x / 2 >= 1 && BitLength(x / 2) >= 1;
    BitLength(x) - 1
  }

  lemma Log2FloorBounds(x: nat)
    requires x >= 1
    ensures Pow2(Log2Floor(x)) <= x < Pow2(Log2Floor(x) + 1)
  {
    BinLength(x);
  }

  /** On a power of two the logarithm is exact. */
  lemma {:induction false} Log2FloorOfPow2(k: nat)
    ensures Log2Floor(Pow2(k)) == k
  {
    if k > 0 {
      Log2FloorOfPow2(k - 1);
      assert Pow2(k) / 2 == Pow2(k - 1);
    }
  }

  /** The preprocessor keeps the cache line size it was built with. */
  datatype PreprocessAddress = PreprocessAddress(cacheLineSize: nat) {

    /**
     `preprocess`: the number of low bits is `int(log2(cache_line_size))`;
     it must be positive, then the address is read as hex and split into
     `(address >> block_bits, address & mask)` with a mask of `block_bits`
     one-bits. A line size of 0 has no logarithm and fails like a line size
     of 1.
     */
    function Preprocess(address: seq<char>): (r: Result<(nat, nat), PreprocessError>)
      ensures r.Failure? && r.error.InvalidCacheLineSize? <==> cacheLineSize < 2
      ensures r == Failure(InvalidAddress) <==> cacheLineSize >= 2 && ParseHex(address).None?
    {
      if cacheLineSize == 0 then Failure(InvalidCacheLineSize(cacheLineSize))
      else
        var blockBits := Log2Floor(cacheLineSize);
        if blockBits == 0 then Failure(InvalidCacheLineSize(cacheLineSize))
        else
          match ParseHex(address)
          case None => Failure(InvalidAddress)
          case Some(addressInt) =>
            var blockMask := FromBinary(Ones(blockBits));
            Success((addressInt / Pow2(blockBits), And(addressInt, blockMask)))
    }
  }

  /**
   A successful split is the division of the address by `2^block_bits`:
   the block id is the remainder, smaller than the line size, the tag is
   the quotient, and together they give the address back.
   */
  lemma PreprocessSplitsAddress(p: PreprocessAddress, address: seq<char>)
    requires p.Preprocess(address).Success?
    ensures var a := ParseHex(address).value;
      var k := Log2Floor(p.cacheLineSize);
      var split := p.Preprocess(address).value;
      k > 0 && split.1 == a % Pow2(k) && split.0 == a / Pow2(k) &&
      split.1 < p.cacheLineSize && split.0 * Pow2(k) + split.1 == a
  {
    var a := ParseHex(address).value;
    var k := Log2Floor(p.cacheLineSize);
    var d := Pow2(k);
    OnesValue(k);
    MaskIsMod(a, k);
    assert p.Preprocess(address).value == (a / d, a % d);
    Log2FloorBounds(p.cacheLineSize);
    DivModSplit(a, d);
  }

  lemma DivModSplit(a: nat, d: nat)
    requires d > 0
    ensures (a / d) * d + a % d == a && a % d < d
  {
  }

  /** With a line size of `2^k`, `k > 0`, the block id is exactly the low `k` bits. */
  lemma PreprocessPowerOfTwoLine(k: nat, address: seq<char>)
    requires k > 0 && ParseHex(address).Some?
    ensures var r := PreprocessAddress(Pow2(k)).Preprocess(address);
      var a := ParseHex(address).value;
      r == Success((a / Pow2(k), a % Pow2(k)))
  {
    Log2FloorOfPow2(k);
    Pow2Monotone(1, k);
    PreprocessSplitsAddress(PreprocessAddress(Pow2(k)), address);
  }
}
