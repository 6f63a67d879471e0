/**
 The signature hasher: folds an address delta into a bounded signature by
 shifting the current signature left, XOR-ing in the delta's sign-magnitude
 encoding and keeping the low `signatureBits` bits.
 */
module SignatureHashing {
  import opened BitOps

  /**
   The hasher's fields, fixed at construction and only read afterwards.
   `maxBitsPerDelta` is computed from the largest legal delta but is not
   used by the encoding.
   */
  datatype SignatureHash = SignatureHash(signatureBits: nat, nShifts: nat, maxBitsPerDelta: nat)

  /** The hasher built for a largest delta of `maxDeltaVal`. */
  function NewSignatureHash(signatureBits: nat, nShifts: nat, maxDeltaVal: nat): (h: SignatureHash)
    ensures h.signatureBits == signatureBits && h.nShifts == nShifts
    ensures maxDeltaVal >= 1 ==> h.maxBitsPerDelta == BitLength(maxDeltaVal) + 1
    ensures maxDeltaVal == 0 ==> h.maxBitsPerDelta == 2
  {
    var width := |Bin(maxDeltaVal)|;
    assert maxDeltaVal >= 1 ==> width == BitLength(maxDeltaVal) by {
      if maxDeltaVal >= 1 {
        BinLength(maxDeltaVal);
      }
    }
    SignatureHash(signatureBits, nShifts, width + 1)
  }

  function Abs(d: int): nat
  {
    if d < 0 then -d else d
  }

  /**
   Sign-magnitude encoding: the binary digits of `|delta|` with one more
   digit in front, '1' for a negative delta and '0' otherwise, read back as
   a binary number. The sign digit sits right above the magnitude's top
   digit, so the width varies with the magnitude.
   */
  function ToSignMagnitude(delta: int): (r: nat)
    ensures delta >= 0 ==> r == delta
    ensures delta < 0 ==> r == -delta + Pow2(BitLength(-delta))
  {
    var digits := Bin(Abs(delta));
    var sign := if delta < 0 then '1' else '0';
    FromBinaryLeadingDigit(sign, digits);
    BinRoundTrip(Abs(delta));
    assert delta < 0 ==> |digits| == BitLength(-delta) by {
      if delta < 0 {
        BinLength(-delta);
      }
    }
    FromBinary([sign] + digits)
  }

  /** The next signature: `((curr << nShifts) ^ signMag(delta)) & ((1 << signatureBits) - 1)`. */
  function NextSignature(h: SignatureHash, curr: nat, delta: int): (r: nat)
    ensures r < Pow2(h.signatureBits)
    ensures r == Xor(curr * Pow2(h.nShifts), ToSignMagnitude(delta)) % Pow2(h.signatureBits)
  {
    var mixed := Xor(curr * Pow2(h.nShifts), ToSignMagnitude(delta));
    MaskIsMod(mixed, h.signatureBits);
    And(mixed, Pow2(h.signatureBits) - 1)
  }

  /** The encoding is non-negative and fits in `bitlen(|delta|) + 1` bits. */
  lemma SignMagnitudeBound(delta: int)
    ensures ToSignMagnitude(delta) < Pow2(BitLength(Abs(delta)) + 1)
  {
    if delta > 0 {
      BinLength(delta);
    } else if delta < 0 {
      BinLength(-delta);
    }
  }

  /** The encoding is not injective: -1 and 3 share the code 3. */
  lemma SignMagnitudeCollision()
    ensures ToSignMagnitude(-1) == ToSignMagnitude(3) == 3
  {
  }
}
