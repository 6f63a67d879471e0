/**
 The delta Q-table: one row of Q-values per signature, one column per
 delta a prefetch may use. It picks an offset for a signature
 (epsilon-greedy) and applies the tabular Q-learning update.
 */
module DeltaQ {
  import opened BitOps
  import opened Results
  import opened SignatureHashing

  /** The configuration assertions of the constructor, and the numpy errors that follow them. */
  datatype ConfigError =
    | PageSizeNotPowerOfTwo
    | LineSizeNotPowerOfTwo
    | SignatureBitsTooSmall
    | LineSizeZero          // page_size // 0
    | NegativeDimension     // np.zeros with a column count of -1

  /** The table's derived dimensions and delta bounds. */
  datatype Geometry = Geometry(
    nCacheBlksPerPage: nat,
    nCacheLineOffsets: nat,
    nDeltaQEntries: nat,
    largestDelta: nat,
    leastDelta: int)

  /** One Q-learning sample: the arguments of `update`. */
  datatype Feedback = Feedback(signature: int, delta: int, reward: int)

  /**
   Python's `x & (x - 1) == 0` on an integer of any sign. For a negative
   `x` both operands are negative, so the result is negative and the test
   fails; for 0 it is `0 & -1 == 0`, so 0 passes.
   */
  predicate PassesPowerOfTwoCheck(x: int)
  {
    if x < 0 then false
    else if x == 0 then true
    else And(x, x - 1) == 0
  }

  /**
   The constructor's checks, in the order it makes them, and the dimensions
   it derives: `2^signatureBits` rows, at least one block per page, and one
   column per delta in the symmetric range `[leastDelta, largestDelta]`.
   */
  function ValidateConfig(signatureBits: int, pageSizeBytes: int, cacheLineSizeBytes: int): (r: Result<Geometry, ConfigError>)
    ensures r.Success? ==>
              && signatureBits > 1 && cacheLineSizeBytes > 0
              && r.value.nCacheBlksPerPage == pageSizeBytes / cacheLineSizeBytes >= 1
              && r.value.nDeltaQEntries == Pow2(signatureBits)
              && r.value.nCacheLineOffsets == r.value.largestDelta - r.value.leastDelta + 1
              && r.value.largestDelta == r.value.nCacheBlksPerPage - 1
              && r.value.nCacheLineOffsets == 2 * r.value.nCacheBlksPerPage - 1
              && r.value.leastDelta == -(r.value.largestDelta as int)
  {
    if !PassesPowerOfTwoCheck(pageSizeBytes) then Failure(PageSizeNotPowerOfTwo)
    else if !PassesPowerOfTwoCheck(cacheLineSizeBytes) then Failure(LineSizeNotPowerOfTwo)
    else if signatureBits <= 1 then Failure(SignatureBitsTooSmall)
    else if cacheLineSizeBytes == 0 then Failure(LineSizeZero)
    else
      var blocks := pageSizeBytes / cacheLineSizeBytes;
      if 2 * blocks - 1 < 0 then Failure(NegativeDimension)
      else Success(Geometry(blocks, 2 * blocks - 1, Pow2(signatureBits), blocks - 1, -(blocks - 1)))
  }

  /**
   Construction succeeds exactly for more than one signature bit and
   power-of-two page and line sizes with the line no larger than the page.
   */
  lemma ValidateConfigSucceedsIff(signatureBits: int, pageSizeBytes: int, cacheLineSizeBytes: int)
    ensures ValidateConfig(signatureBits, pageSizeBytes, cacheLineSizeBytes).Success? <==>
      signatureBits > 1 && IsPow2(pageSizeBytes) && IsPow2(cacheLineSizeBytes) &&
      cacheLineSizeBytes <= pageSizeBytes
  {
    if pageSizeBytes > 0 {
      PowerOfTwoTest(pageSizeBytes);
    }
    if cacheLineSizeBytes > 0 {
      PowerOfTwoTest(cacheLineSizeBytes);
      var b := pageSizeBytes / cacheLineSizeBytes;
      assert pageSizeBytes == cacheLineSizeBytes * b + pageSizeBytes % cacheLineSizeBytes;
      MulSign(cacheLineSizeBytes, b);
    }
  }

  /**
   Power-of-two page and line sizes, the line no larger than the page, pass
   the checks, and a page holds `2^(p - l)` lines (4096 / 64 = 64).
   */
  lemma PowerOfTwoSizesValid(signatureBits: int, p: nat, l: nat)
    requires signatureBits > 1 && l <= p
    ensures var r := ValidateConfig(signatureBits, Pow2(p), Pow2(l));
      r.Success? && r.value.nCacheBlksPerPage == Pow2(p - l)
  {
    Pow2IsPow2(p);
    Pow2IsPow2(l);
    Pow2Monotone(l, p);
    ValidateConfigSucceedsIff(signatureBits, Pow2(p), Pow2(l));
    Pow2Quotient(l, p);
  }

  /** The largest Q-value of a row (`np.max`). */
  function SeqMax(xs: seq<real>): real
    requires |xs| > 0
  {
    if |xs| == 1 then xs[0]
    else
      var rest := SeqMax(xs[..|xs| - 1]);
      if xs[|xs| - 1] > rest then xs[|xs| - 1] else rest
  }

  /** `SeqMax` bounds every element of the row and is one of them. */
  lemma {:induction false} SeqMaxIsMaximum(xs: seq<real>)
    requires |xs| > 0
    ensures forall j :: 0 <= j < |xs| ==> xs[j] <= SeqMax(xs)
    ensures exists j :: 0 <= j < |xs| && xs[j] == SeqMax(xs)
  {
    if |xs| > 1 {
      var init := xs[..|xs| - 1];
      SeqMaxIsMaximum(init);
      var j :| 0 <= j < |init| && init[j] == SeqMax(init);
      assert forall k :: 0 <= k < |init| ==> xs[k] == init[k];
      if xs[|xs| - 1] > SeqMax(init) {
        assert xs[|xs| - 1] == SeqMax(xs);
      } else {
        assert xs[j] == SeqMax(xs);
      }
    } else {
      assert xs[0] == SeqMax(xs);
    }
  }

  class DeltaQTable {
    const signatureBits: nat
    const alpha: real
    const gamma: real
    const epsilon: real
    const pageSizeBytes: int
    const cacheLineSizeBytes: int
    const nCacheBlksPerPage: nat
    const nCacheLineOffsets: nat
    const nDeltaQEntries: nat
    const largestDelta: nat
    const leastDelta: int
    const signatureHasher: SignatureHash
    const q: array2<real>

    /** The relations between the fields fixed at construction. */
    predicate Wellformed()
    {
      nCacheBlksPerPage >= 1 &&
      nCacheLineOffsets == 2 * nCacheBlksPerPage - 1 &&
      nDeltaQEntries == Pow2(signatureBits) &&
      largestDelta == nCacheBlksPerPage - 1 &&
      leastDelta == -(largestDelta as int) &&
      signatureHasher.signatureBits == signatureBits &&
      q.Length0 == nDeltaQEntries &&
      q.Length1 == nCacheLineOffsets
    }

    /** A zero-filled table of the validated geometry. */
    constructor (signatureBits: int, signatureShift: nat, alpha: real, gamma: real, epsilon: real,
                 pageSizeBytes: int, cacheLineSizeBytes: int)
      requires ValidateConfig(signatureBits, pageSizeBytes, cacheLineSizeBytes).Success?
      ensures Wellformed() && fresh(q)
      ensures this.signatureBits == signatureBits && this.alpha == alpha && this.gamma == gamma
      ensures this.epsilon == epsilon && this.pageSizeBytes == pageSizeBytes
      ensures this.cacheLineSizeBytes == cacheLineSizeBytes && signatureHasher.nShifts == signatureShift
      ensures var g := ValidateConfig(signatureBits, pageSizeBytes, cacheLineSizeBytes).value;
        nCacheBlksPerPage == g.nCacheBlksPerPage && nCacheLineOffsets == g.nCacheLineOffsets &&
        nDeltaQEntries == g.nDeltaQEntries && largestDelta == g.largestDelta && leastDelta == g.leastDelta
      ensures forall i, j :: 0 <= i < q.Length0 && 0 <= j < q.Length1 ==> q[i, j] == 0.0
    {
      var g := ValidateConfig(signatureBits, pageSizeBytes, cacheLineSizeBytes).value;
      this.signatureBits := signatureBits;
      this.alpha := alpha;
      this.gamma := gamma;
      this.epsilon := epsilon;
      this.pageSizeBytes := pageSizeBytes;
      this.cacheLineSizeBytes := cacheLineSizeBytes;
      nCacheBlksPerPage := g.nCacheBlksPerPage;
      nCacheLineOffsets := g.nCacheLineOffsets;
      nDeltaQEntries := g.nDeltaQEntries;
      q := new real[g.nDeltaQEntries, g.nCacheLineOffsets]((i, j) => 0.0);
      largestDelta := g.largestDelta;
      leastDelta := g.leastDelta;
      signatureHasher := NewSignatureHash(signatureBits, signatureShift, g.largestDelta);
    }

    /** Construction with its failing assertions as an error value. */
    static method Create(signatureBits: int, signatureShift: nat, alpha: real, gamma: real, epsilon: real,
                         pageSizeBytes: int, cacheLineSizeBytes: int) returns (r: Result<DeltaQTable, ConfigError>)
      ensures ValidateConfig(signatureBits, pageSizeBytes, cacheLineSizeBytes).Failure? ==>
        r == Failure(ValidateConfig(signatureBits, pageSizeBytes, cacheLineSizeBytes).error)
      ensures ValidateConfig(signatureBits, pageSizeBytes, cacheLineSizeBytes).Success? ==>
        r.Success? && fresh(r.value) && fresh(r.value.q) && r.value.Wellformed() &&
        forall i, j :: 0 <= i < r.value.q.Length0 && 0 <= j < r.value.q.Length1 ==> r.value.q[i, j] == 0.0
      ensures r.Success? ==>
        && r.value.signatureBits == signatureBits && r.value.alpha == alpha && r.value.gamma == gamma
        && r.value.epsilon == epsilon && r.value.pageSizeBytes == pageSizeBytes
        && r.value.cacheLineSizeBytes == cacheLineSizeBytes && r.value.signatureHasher.nShifts == signatureShift
        && var g := ValidateConfig(signatureBits, pageSizeBytes, cacheLineSizeBytes).value;
           && r.value.nCacheBlksPerPage == g.nCacheBlksPerPage == pageSizeBytes / cacheLineSizeBytes
           && r.value.nCacheLineOffsets == g.nCacheLineOffsets && r.value.nDeltaQEntries == g.nDeltaQEntries
           && r.value.largestDelta == g.largestDelta && r.value.leastDelta == g.leastDelta
    {
      var v := ValidateConfig(signatureBits, pageSizeBytes, cacheLineSizeBytes);
      if v.Failure? {
        return Failure(v.error);
      }
      var t := new DeltaQTable(signatureBits, signatureShift, alpha, gamma, epsilon, pageSizeBytes, cacheLineSizeBytes);
      return Success(t);
    }

    /** The column of a delta. */
    function ColumnIndex(delta: int): (col: int)
      ensures DeltaFromIndex(col) == delta
    {
      delta - leastDelta
    }

    /** The delta of a column. */
    function DeltaFromIndex(col: int): (delta: int)
      ensures Wellformed() && 0 <= col < nCacheLineOffsets ==> leastDelta <= delta <= largestDelta
    {
      col + leastDelta
    }

    /**
     Deltas in `[leastDelta, largestDelta]` and columns in
     `[0, nCacheLineOffsets)` correspond one to one.
     */
    lemma ColumnBijection(col: int, delta: int)
      requires Wellformed()
      ensures ColumnIndex(DeltaFromIndex(col)) == col
      ensures 0 <= col < nCacheLineOffsets <==> leastDelta <= DeltaFromIndex(col) <= largestDelta
      ensures leastDelta <= delta <= largestDelta <==> 0 <= ColumnIndex(delta) < nCacheLineOffsets
    {
    }

    /** The table's contents as a value. */
    ghost function Snapshot(): (qs: seq<seq<real>>)
      reads q
      ensures |qs| == q.Length0
      ensures forall i :: 0 <= i < q.Length0 ==> |qs[i]| == q.Length1
      ensures forall i, j :: 0 <= i < q.Length0 && 0 <= j < q.Length1 ==> qs[i][j] == q[i, j]
    {
      seq(q.Length0, i requires 0 <= i < q.Length0 reads q =>
        seq(q.Length1, j requires 0 <= j < q.Length1 reads q => q[i, j]))
    }

    /** A value with the table's dimensions. */
    predicate Shaped(qs: seq<seq<real>>)
    {
      |qs| == nDeltaQEntries && forall i :: 0 <= i < |qs| ==> |qs[i]| == nCacheLineOffsets
    }

    /** A sample whose signature is a row and whose delta has a column. */
    predicate Fits(f: Feedback)
    {
      0 <= f.signature < nDeltaQEntries && leastDelta <= f.delta <= largestDelta
    }

    /** The signature reached from `signature` by taking `delta`. */
    function NextState(signature: nat, delta: int): (s: nat)
      requires Wellformed()
      ensures s < nDeltaQEntries
    {
      NextSignature(signatureHasher, signature, delta)
    }

    /** The new value of a cell holding `cur`, for a reward and the next row's maximum. */
    function Learned(cur: real, reward: int, nextMax: real): real
    {
      cur + alpha * (reward as real + gamma * nextMax - cur)
    }

    /**
     The Q-learning update of one sample on a table value:
     `Q[s,a] += alpha * (reward + gamma * max(Q[s_next]) - Q[s,a])`.
     */
    function QUpdate(qs: seq<seq<real>>, f: Feedback): (qs': seq<seq<real>>)
      requires Wellformed() && Shaped(qs) && Fits(f)
      ensures Shaped(qs')
    {
      var s := f.signature;
      var a := ColumnIndex(f.delta);
      var sNext := NextState(s, f.delta);
      qs[s := qs[s][a := Learned(qs[s][a], f.reward, SeqMax(qs[sNext]))]]
    }

    /**
     An update writes the one cell `(signature, column(delta))`, with the
     next row's maximum read before the write; every other cell keeps its value.
     */
    lemma QUpdateWritesOneCell(qs: seq<seq<real>>, f: Feedback)
      requires Wellformed() && Shaped(qs) && Fits(f)
      ensures var s, a := f.signature, ColumnIndex(f.delta);
        QUpdate(qs, f)[s][a] ==
          qs[s][a] + alpha * (f.reward as real + gamma * SeqMax(qs[NextState(s, f.delta)]) - qs[s][a])
      ensures forall i, j ::
        0 <= i < |qs| && 0 <= j < nCacheLineOffsets && (i != f.signature || j != ColumnIndex(f.delta))
        ==> QUpdate(qs, f)[i][j] == qs[i][j]
    {
    }

    /** The updates of a sequence of samples, applied in order. */
    function ApplyFeedback(qs: seq<seq<real>>, fs: seq<Feedback>): (qs': seq<seq<real>>)
      requires Wellformed() && Shaped(qs)
      requires forall k :: 0 <= k < |fs| ==> Fits(fs[k])
      ensures Shaped(qs')
    {
      if fs == [] then qs
      else QUpdate(ApplyFeedback(qs, fs[..|fs| - 1]), fs[|fs| - 1])
    }

    lemma ApplyFeedbackSnoc(qs: seq<seq<real>>, fs: seq<Feedback>, f: Feedback)
      requires Wellformed() && Shaped(qs) && Fits(f)
      requires forall k :: 0 <= k < |fs| ==> Fits(fs[k])
      ensures ApplyFeedback(qs, fs + [f]) == QUpdate(ApplyFeedback(qs, fs), f)
    {
      assert (fs + [f])[..|fs|] == fs;
    }

    /** Feeding two batches one after the other is feeding their concatenation. */
    lemma {:induction false} ApplyFeedbackAppend(qs: seq<seq<real>>, fs: seq<Feedback>, gs: seq<Feedback>)
      requires Wellformed() && Shaped(qs)
      requires forall k :: 0 <= k < |fs| ==> Fits(fs[k])
      requires forall k :: 0 <= k < |gs| ==> Fits(gs[k])
      ensures ApplyFeedback(ApplyFeedback(qs, fs), gs) == ApplyFeedback(qs, fs + gs)
      decreases |gs|
    {
      if gs == [] {
        assert fs + gs == fs;
      } else {
        var init, g := gs[..|gs| - 1], gs[|gs| - 1];
        ApplyFeedbackAppend(qs, fs, init);
        assert fs + gs == (fs + init) + [g];
        ApplyFeedbackSnoc(qs, fs + init, g);
      }
    }

    /** numpy's `argmax` of a row: the lowest column holding the row's maximum. */
    method RowArgMax(s: nat) returns (idx: nat)
      requires Wellformed() && s < nDeltaQEntries
      ensures idx < nCacheLineOffsets
      ensures q[s, idx] == SeqMax(Snapshot()[s])
      ensures forall j :: 0 <= j < idx ==> q[s, j] < q[s, idx]
    {
      idx := 0;
      var j := 1;
      while j < q.Length1
        invariant 1 <= j <= q.Length1
        invariant idx < j
        invariant forall k :: 0 <= k < j ==> q[s, k] <= q[s, idx]
        invariant forall k :: 0 <= k < idx ==> q[s, k] < q[s, idx]
      {
        if q[s, j] > q[s, idx] {
          idx := j;
        }
        j := j + 1;
      }
      ghost var row := Snapshot()[s];
      SeqMaxIsMaximum(row);
      assert forall k :: 0 <= k < |row| ==> row[k] <= q[s, idx];
    }

    /**
     Epsilon-greedy choice of an offset for a signature. The uniform draw and
     the column drawn for exploration are parameters, the draw in `[0, 1)`
     as `np.random.uniform()` gives it; a draw below epsilon explores, any
     other draw takes the lowest column of the row's maximum. So an epsilon
     of 0 always exploits and an epsilon of 1 or more always explores.
     */
    method GetNextOffset(deltaSignature: nat, uniformDraw: real, choice: nat)
      returns (deltaIdx: nat, delta: int, actualOffset: int)
      requires Wellformed() && deltaSignature < nDeltaQEntries && choice < nCacheLineOffsets
      requires 0.0 <= uniformDraw < 1.0
      ensures deltaIdx < nCacheLineOffsets
      ensures uniformDraw < epsilon ==> deltaIdx == choice
      ensures epsilon >= 1.0 ==> deltaIdx == choice
      ensures epsilon <= 0.0 ==> q[deltaSignature, deltaIdx] == SeqMax(Snapshot()[deltaSignature])
      ensures !(uniformDraw < epsilon) ==>
        q[deltaSignature, deltaIdx] == SeqMax(Snapshot()[deltaSignature]) &&
        forall j :: 0 <= j < deltaIdx ==> q[deltaSignature, j] < q[deltaSignature, deltaIdx]
      ensures ColumnIndex(delta) == deltaIdx && leastDelta <= delta <= largestDelta
      ensures actualOffset == delta * cacheLineSizeBytes
    {
      if uniformDraw < epsilon {
        deltaIdx := choice;
      } else {
        deltaIdx := RowArgMax(deltaSignature);
      }
      delta := DeltaFromIndex(deltaIdx);
      actualOffset := delta * cacheLineSizeBytes;
    }

    /** The Q-learning update of the cell `(signature, column(delta))`, in place. */
    method Update(signature: int, delta: int, reward: int)
      requires Wellformed() && Fits(Feedback(signature, delta, reward))
      modifies q
      ensures Snapshot() == QUpdate(old(Snapshot()), Feedback(signature, delta, reward))
    {
      ghost var before := Snapshot();
      var sCurr := signature;
      var aCurr := ColumnIndex(delta);
      var sNext := NextState(sCurr, delta);
      var aNext := RowArgMax(sNext);
      var v := Learned(q[sCurr, aCurr], reward, q[sNext, aNext]);
      assert q[sNext, aNext] == SeqMax(before[sNext]) && q[sCurr, aCurr] == before[sCurr][aCurr];
      q[sCurr, aCurr] := v;
      ghost var after := Snapshot();
      ghost var f := Feedback(signature, delta, reward);
      ghost var expected := QUpdate(before, f);
      QUpdateWritesOneCell(before, f);
      forall i | 0 <= i < |after|
        ensures after[i] == expected[i]
      {
        forall j | 0 <= j < q.Length1
          ensures after[i][j] == expected[i][j]
        {
          if i == sCurr && j == aCurr {
            assert after[i][j] == v;
          } else {
            assert after[i][j] == before[i][j];
          }
        }
      }
    }
  }
}
