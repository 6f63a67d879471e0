/**
 Victim selection for the reward tracker. The policy is a value with one
 variant, LRU; a further policy would be a further variant handled by the
 same member functions.
 */
module ReplacementPolicy {

  /** Index of the first minimum, as numpy's `argmin` returns it. */
  function ArgMin(s: seq<int>): (i: nat)
    requires |s| > 0
    ensures i < |s|
    ensures forall j :: 0 <= j < |s| ==> s[i] <= s[j]
    ensures forall j :: 0 <= j < i ==> s[j] > s[i]
  {
    if |s| == 1 then 0
    else
      var k := ArgMin(s[..|s| - 1]);
      if s[|s| - 1] < s[k] then |s| - 1 else k
  }

  datatype Policy = LRU {

    /** The base policy's test for a free slot: some valid bit is not 1 (`np.any(valid_bits != 1)`). */
    function CheckInvalidEntry(validBits: seq<int>): (r: bool)
      ensures r <==> exists j :: 0 <= j < |validBits| && validBits[j] != 1
    {
      if validBits == [] then false
      else validBits[|validBits| - 1] != 1 || CheckInvalidEntry(validBits[..|validBits| - 1])
    }

    /**
     The slot to reuse: the first slot with the smallest valid bit when some
     slot is not valid, otherwise the first slot with the smallest logical
     timestamp.
     */
    function FindVictim(logicalCtrs: seq<int>, validBits: seq<int>): (idx: nat)
      requires |logicalCtrs| == |validBits| > 0
      ensures idx < |validBits|
      ensures CheckInvalidEntry(validBits) ==>
        (forall j :: 0 <= j < |validBits| ==> validBits[idx] <= validBits[j]) &&
        (forall j :: 0 <= j < idx ==> validBits[j] > validBits[idx])
      ensures !CheckInvalidEntry(validBits) ==>
        (forall j :: 0 <= j < |logicalCtrs| ==> logicalCtrs[idx] <= logicalCtrs[j]) &&
        (forall j :: 0 <= j < idx ==> logicalCtrs[j] > logicalCtrs[idx])
    {
      if CheckInvalidEntry(validBits) then ArgMin(validBits) else ArgMin(logicalCtrs)
    }
  }

  /**
   With 0/1 valid bits and a free slot present, the victim is the first
   slot whose bit is 0.
   */
  lemma VictimIsFirstFreeSlot(logicalCtrs: seq<int>, validBits: seq<int>)
    requires |logicalCtrs| == |validBits| > 0
    requires forall j :: 0 <= j < |validBits| ==> validBits[j] == 0 || validBits[j] == 1
    requires exists j :: 0 <= j < |validBits| && validBits[j] == 0
    ensures validBits[LRU.FindVictim(logicalCtrs, validBits)] == 0
    ensures forall j :: 0 <= j < LRU.FindVictim(logicalCtrs, validBits) ==> validBits[j] == 1
  {
  }
}
