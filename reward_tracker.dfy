/**
 The reward-tracking table: a fixed number of rows, each recording a
 prefetch that was issued (address, delta, signature) with the reward it
 has earned so far, its age in steps, its LRU timestamp and a valid bit.
 Rows are rewarded on later accesses and, once their age reaches the
 epoch bound or they are evicted, their (signature, delta, reward) is
 fed to the delta Q-table.
 */
module RewardTracker {
  import opened DeltaQ
  import ReplacementPolicy

  const REWARD_HIT: int := 16
  const REWARD_PSEUDO_HIT: int := 8
  const REWARD_MISS: int := -1

  /** One row of the table: the seven integer columns. */
  datatype Row = Row(
    prefetchedAddress: int,
    delta: int,
    deltaSignature: int,
    reward: int,
    step: int,
    timestamp: int,
    valid: int)

  /** A row of the freshly created (zero-filled) table. */
  const EmptyRow: Row := Row(0, 0, 0, 0, 0, 0, 0)

  /** The constructor's parameters. */
  datatype TrackerConfig = TrackerConfig(
    nEntries: nat,
    stepsPerEntry: nat,
    rewardHit: int,
    rewardSemiHit: int,
    rewardMiss: int)

  /** What `_lookup` returns: whether the address was found, and the two row masks. */
  datatype LookupResult = LookupResult(found: bool, addressMatches: seq<bool>, exactMatches: seq<bool>)

  /** The abstract effect of `insert`: new rows and clock, the samples fed to the Q-table, and whether the assertion held. */
  datatype Transition = Transition(rows: seq<Row>, clock: int, flushes: seq<Feedback>, ok: bool)

  datatype InsertOutcome = Inserted | MultipleMatches

  /** The (signature, delta, reward) a row contributes to the Q-table. */
  function FeedbackOf(r: Row): Feedback
  {
    Feedback(r.deltaSignature, r.delta, r.reward)
  }

  /** A row's signature and delta index the Q-table, and its valid bit is 0 or 1. */
  predicate RowFits(qt: DeltaQTable, r: Row)
  {
    qt.Fits(FeedbackOf(r)) && (r.valid == 0 || r.valid == 1)
  }

  predicate RowsFit(qt: DeltaQTable, rows: seq<Row>)
  {
    forall i :: 0 <= i < |rows| ==> RowFits(qt, rows[i])
  }

  /** No two valid rows record the same (address, signature) pair. */
  predicate UniquePairs(rows: seq<Row>)
  {
    forall i, j :: 0 <= i < j < |rows| && rows[i].valid > 0 && rows[j].valid > 0 ==>
      rows[i].prefetchedAddress != rows[j].prefetchedAddress || rows[i].deltaSignature != rows[j].deltaSignature
  }

  // ---------------------------------------------------------------------
  // Masks

  /** `mask.sum()` */
  function Count(mask: seq<bool>): nat
  {
    if mask == [] then 0 else Count(mask[..|mask| - 1]) + (if mask[|mask| - 1] then 1 else 0)
  }

  lemma {:induction false} CountPositive(mask: seq<bool>)
    ensures Count(mask) > 0 <==> exists i :: 0 <= i < |mask| && mask[i]
  {
    if mask != [] {
      CountPositive(mask[..|mask| - 1]);
      if Count(mask[..|mask| - 1]) > 0 {
        var i :| 0 <= i < |mask| - 1 && mask[..|mask| - 1][i];
        assert mask[i];
      }
    }
  }

  lemma {:induction false} CountAtMostOne(mask: seq<bool>)
    requires forall i, j :: 0 <= i < |mask| && 0 <= j < |mask| && mask[i] && mask[j] ==> i == j
    ensures Count(mask) <= 1
  {
    if mask != [] {
      var init := mask[..|mask| - 1];
      CountAtMostOne(init);
      if mask[|mask| - 1] {
        assert forall i :: 0 <= i < |init| ==> !init[i];
        CountPositive(init);
      }
    }
  }

  lemma {:induction false} CountSingle(mask: seq<bool>, v: nat)
    requires v < |mask| && mask[v]
    requires forall j :: 0 <= j < |mask| && j != v ==> !mask[j]
    ensures Count(mask) == 1
  {
    var init := mask[..|mask| - 1];
    if v == |mask| - 1 {
      CountPositive(init);
    } else {
      CountSingle(init, v);
    }
  }

  /**
   `_lookup`: the valid rows whose address is `loadAddr`, those of them whose
   signature is also `deltaSignature`, and whether the first set is non-empty.
   */
  function Lookup(rows: seq<Row>, loadAddr: int, deltaSignature: int): (lk: LookupResult)
    ensures |lk.addressMatches| == |lk.exactMatches| == |rows|
    ensures forall i :: 0 <= i < |rows| ==>
      (lk.addressMatches[i] <==> rows[i].valid > 0 && rows[i].prefetchedAddress == loadAddr)
    ensures forall i :: 0 <= i < |rows| ==>
      (lk.exactMatches[i] <==> lk.addressMatches[i] && rows[i].deltaSignature == deltaSignature)
    ensures lk.found <==> exists i :: 0 <= i < |rows| && rows[i].valid > 0 && rows[i].prefetchedAddress == loadAddr
  {
    var entryMatches := seq(|rows|, i requires 0 <= i < |rows| =>
      rows[i].prefetchedAddress == loadAddr && rows[i].valid > 0);
    var exactMatches := seq(|rows|, i requires 0 <= i < |rows| =>
      entryMatches[i] && rows[i].deltaSignature == deltaSignature);
    CountPositive(entryMatches);
    LookupResult(Count(entryMatches) > 0, entryMatches, exactMatches)
  }

  // ---------------------------------------------------------------------
  // Reward distribution, one row at a time

  /** Every valid row is charged the miss reward. */
  function Penalize(cfg: TrackerConfig, r: Row): Row
  {
    if r.valid > 0 then r.(reward := r.reward + cfg.rewardMiss) else r
  }

  /** Rows matching the address have the charge taken back. */
  function CancelPenalty(cfg: TrackerConfig, r: Row, matched: bool): Row
  {
    if matched then r.(reward := r.reward - cfg.rewardMiss) else r
  }

  /** `_update_existing` on one row: timestamp refreshed, hit reward added. */
  function Refresh(cfg: TrackerConfig, r: Row, hit: bool, clock: int): Row
  {
    if hit then r.(timestamp := clock, reward := r.reward + cfg.rewardHit) else r
  }

  /** The pseudo-hit reward, for rows matching the address under another signature. */
  function SemiHit(cfg: TrackerConfig, r: Row, semi: bool): Row
  {
    if semi then r.(reward := r.reward + cfg.rewardSemiHit) else r
  }

  /** `_issue_rewards` on one row, its passes composed in the source's order. */
  function RewardRow(cfg: TrackerConfig, r: Row, found: bool, inAddress: bool, inExact: bool,
                     anyExact: bool, clock: int): Row
  {
    var r2 := CancelPenalty(cfg, Penalize(cfg, r), inAddress);
    if found then SemiHit(cfg, Refresh(cfg, r2, anyExact && inExact, clock), inAddress != inExact) else r2
  }

  /** `_issue_rewards` on the whole table. */
  function Rewarded(cfg: TrackerConfig, rows: seq<Row>, lk: LookupResult, clock: int): (out: seq<Row>)
    requires |lk.addressMatches| == |lk.exactMatches| == |rows|
    ensures |out| == |rows|
  {
    seq(|rows|, i requires 0 <= i < |rows| =>
      RewardRow(cfg, rows[i], lk.found, lk.addressMatches[i], lk.exactMatches[i], Count(lk.exactMatches) > 0, clock))
  }

  /** Rewarding touches only the reward and timestamp columns. */
  lemma RewardedKeepsKeys(cfg: TrackerConfig, rows: seq<Row>, lk: LookupResult, clock: int)
    requires |lk.addressMatches| == |lk.exactMatches| == |rows|
    ensures forall i :: 0 <= i < |rows| ==>
      var r, r' := rows[i], Rewarded(cfg, rows, lk, clock)[i];
      r'.prefetchedAddress == r.prefetchedAddress && r'.delta == r.delta &&
      r'.deltaSignature == r.deltaSignature && r'.step == r.step && r'.valid == r.valid
  {
  }

  /**
   The net effect of rewarding after a lookup: invalid rows are untouched,
   valid rows with another address pay the miss reward, exact matches earn
   the hit reward and a fresh timestamp, and address-only matches earn the
   pseudo-hit reward with their timestamp kept.
   */
  lemma {:induction false} RewardsAfterLookup(cfg: TrackerConfig, rows: seq<Row>, loadAddr: int, deltaSignature: int, clock: int)
    ensures var out := Rewarded(cfg, rows, Lookup(rows, loadAddr, deltaSignature), clock);
      forall i :: 0 <= i < |rows| ==>
        (rows[i].valid <= 0 ==> out[i] == rows[i]) &&
        (rows[i].valid > 0 && rows[i].prefetchedAddress != loadAddr ==>
          out[i] == rows[i].(reward := rows[i].reward + cfg.rewardMiss)) &&
        (rows[i].valid > 0 && rows[i].prefetchedAddress == loadAddr && rows[i].deltaSignature == deltaSignature ==>
          out[i] == rows[i].(timestamp := clock, reward := rows[i].reward + cfg.rewardHit)) &&
        (rows[i].valid > 0 && rows[i].prefetchedAddress == loadAddr && rows[i].deltaSignature != deltaSignature ==>
          out[i] == rows[i].(reward := rows[i].reward + cfg.rewardSemiHit))
  {
    var lk := Lookup(rows, loadAddr, deltaSignature);
    CountPositive(lk.exactMatches);
    forall i | 0 <= i < |rows|
      ensures lk.exactMatches[i] ==> Count(lk.exactMatches) > 0
    {
    }
  }

  // ---------------------------------------------------------------------
  // Expiry and ageing

  /** A valid row whose age has reached the epoch bound. */
  predicate Expired(cfg: TrackerConfig, r: Row)
  {
    r.valid > 0 && r.step >= cfg.stepsPerEntry
  }

  function ExpireRow(cfg: TrackerConfig, r: Row): Row
  {
    if Expired(cfg, r) then r.(valid := 0) else r
  }

  /** `_invalidate_entries` on the table: only the valid bit of expired rows changes. */
  function ExpireAll(cfg: TrackerConfig, rows: seq<Row>): (out: seq<Row>)
    ensures |out| == |rows|
  {
    seq(|rows|, i requires 0 <= i < |rows| => ExpireRow(cfg, rows[i]))
  }

  /** `_increment_steps`: every row ages, valid or not. */
  function AgeAll(rows: seq<Row>): (out: seq<Row>)
    ensures |out| == |rows|
  {
    seq(|rows|, i requires 0 <= i < |rows| => rows[i].(step := rows[i].step + 1))
  }

  /** Indices of the expired rows among the first `n`, in row order. */
  function ExpiredIndices(cfg: TrackerConfig, rows: seq<Row>, n: nat): seq<nat>
    requires n <= |rows|
  {
    if n == 0 then []
    else ExpiredIndices(cfg, rows, n - 1) + (if Expired(cfg, rows[n - 1]) then [n - 1] else [])
  }

  /** The samples fed to the Q-table for the expired rows among the first `n`. */
  function ExpiredFeedback(cfg: TrackerConfig, rows: seq<Row>, n: nat): seq<Feedback>
    requires n <= |rows|
  {
    if n == 0 then []
    else ExpiredFeedback(cfg, rows, n - 1) + (if Expired(cfg, rows[n - 1]) then [FeedbackOf(rows[n - 1])] else [])
  }

  /**
   Expiry feeds each expired row's (signature, delta, reward) to the Q-table
   exactly once, in row order, and nothing else.
   */
  lemma {:induction false} ExpiredFeedbackInRowOrder(cfg: TrackerConfig, rows: seq<Row>, n: nat)
    requires n <= |rows|
    ensures var idx, fs := ExpiredIndices(cfg, rows, n), ExpiredFeedback(cfg, rows, n);
      |fs| == |idx| &&
      (forall k :: 0 <= k < |idx| ==> idx[k] < n && Expired(cfg, rows[idx[k]]) && fs[k] == FeedbackOf(rows[idx[k]])) &&
      (forall k, l :: 0 <= k < l < |idx| ==> idx[k] < idx[l]) &&
      (forall i :: 0 <= i < n && Expired(cfg, rows[i]) ==> i in idx)
  {
    if n > 0 {
      ExpiredFeedbackInRowOrder(cfg, rows, n - 1);
    }
  }

  /** Every sample indexes the Q-table. */
  predicate FeedbackFits(qt: DeltaQTable, fs: seq<Feedback>)
  {
    forall k :: 0 <= k < |fs| ==> qt.Fits(fs[k])
  }

  lemma {:induction false} ExpiredFeedbackFits(qt: DeltaQTable, cfg: TrackerConfig, rows: seq<Row>, n: nat)
    requires n <= |rows| && RowsFit(qt, rows)
    ensures FeedbackFits(qt, ExpiredFeedback(cfg, rows, n))
  {
    if n > 0 {
      ExpiredFeedbackFits(qt, cfg, rows, n - 1);
      assert RowFits(qt, rows[n - 1]);
    }
  }

  /**
   The Q-table after the expired rows among the first `n` have been fed to
   it one by one, in row order.
   */
  function Flushed(qt: DeltaQTable, cfg: TrackerConfig, qs: seq<seq<real>>, rows: seq<Row>, n: nat): (qs': seq<seq<real>>)
    requires qt.Wellformed() && qt.Shaped(qs) && n <= |rows| && RowsFit(qt, rows)
    ensures qt.Shaped(qs')
  {
    if n == 0 then qs
    else
      var before := Flushed(qt, cfg, qs, rows, n - 1);
      if Expired(cfg, rows[n - 1]) then qt.QUpdate(before, FeedbackOf(rows[n - 1])) else before
  }

  /** Flushing row by row applies exactly the expired rows' samples, in row order. */
  lemma {:induction false} FlushedIsApplyFeedback(qt: DeltaQTable, cfg: TrackerConfig, qs: seq<seq<real>>, rows: seq<Row>, n: nat)
    requires qt.Wellformed() && qt.Shaped(qs) && n <= |rows| && RowsFit(qt, rows)
    ensures FeedbackFits(qt, ExpiredFeedback(cfg, rows, n)) &&
            Flushed(qt, cfg, qs, rows, n) == qt.ApplyFeedback(qs, ExpiredFeedback(cfg, rows, n))
  {
    ExpiredFeedbackFits(qt, cfg, rows, n);
    if n > 0 {
      FlushedIsApplyFeedback(qt, cfg, qs, rows, n - 1);
      var done := ExpiredFeedback(cfg, rows, n - 1);
      ExpiredFeedbackFits(qt, cfg, rows, n - 1);
      var r := rows[n - 1];
      if Expired(cfg, r) {
        assert RowFits(qt, r);
        assert ExpiredFeedback(cfg, rows, n) == done + [FeedbackOf(r)];
        qt.ApplyFeedbackSnoc(qs, done, FeedbackOf(r));
        assert Flushed(qt, cfg, qs, rows, n) == qt.QUpdate(Flushed(qt, cfg, qs, rows, n - 1), FeedbackOf(r));
      } else {
        assert ExpiredFeedback(cfg, rows, n) == done;
      }
    }
  }

  /**
   Expiry invalidates exactly the valid rows whose age reached the epoch
   bound; other rows keep their valid bit, and no other column changes.
   */
  lemma ExpiryClearsOnlyValidBits(cfg: TrackerConfig, rows: seq<Row>)
    ensures forall i :: 0 <= i < |rows| ==>
      ExpireAll(cfg, rows)[i] == rows[i].(valid := if rows[i].valid > 0 && rows[i].step >= cfg.stepsPerEntry then 0 else rows[i].valid)
  {
  }

  // ---------------------------------------------------------------------
  // insert and check_n_give_reward as transitions on values

  function Timestamps(rows: seq<Row>): (ts: seq<int>)
    ensures |ts| == |rows|
  {
    seq(|rows|, i requires 0 <= i < |rows| => rows[i].timestamp)
  }

  function ValidBits(rows: seq<Row>): (vb: seq<int>)
    ensures |vb| == |rows|
  {
    seq(|rows|, i requires 0 <= i < |rows| => rows[i].valid)
  }

  /** The row written for a new prefetch. */
  function NewEntry(cfg: TrackerConfig, prefAddr: int, delta: int, deltaSignature: int, clock: int): Row
  {
    Row(prefAddr, delta, deltaSignature, cfg.rewardHit, 0, clock, 1)
  }

  /** The table after expiry and ageing, where `insert` does its lookup. */
  function Prepared(cfg: TrackerConfig, rows: seq<Row>): (mid: seq<Row>)
    ensures |mid| == |rows|
  {
    AgeAll(ExpireAll(cfg, rows))
  }

  /**
   The part of `insert` after expiry and ageing, on the aged table `mid`:
   look up, fail when more than one exact match, pick the victim before
   rewarding, reward, and when there was no exact match feed the victim's
   (rewarded) contents to the Q-table and overwrite it; the clock then
   advances.
   */
  function PlaceStep(cfg: TrackerConfig, policy: ReplacementPolicy.Policy, mid: seq<Row>, clock: int,
                     prefAddr: int, delta: int, deltaSignature: int): (t: Transition)
    requires |mid| > 0
    ensures |t.rows| == |mid|
  {
    var lk := Lookup(mid, prefAddr, deltaSignature);
    var nExact := Count(lk.exactMatches);
    if nExact > 1 then Transition(mid, clock, [], false)
    else
      var victim := policy.FindVictim(Timestamps(mid), ValidBits(mid));
      var rewarded := Rewarded(cfg, mid, lk, clock);
      if nExact == 0 then
        Transition(rewarded[victim := NewEntry(cfg, prefAddr, delta, deltaSignature, clock)], clock + 1,
                   [FeedbackOf(rewarded[victim])], true)
      else
        Transition(rewarded, clock + 1, [], true)
  }

  /** `insert`: expire (feeding expired rows to the Q-table), age, then place the new prefetch. */
  function InsertStep(cfg: TrackerConfig, policy: ReplacementPolicy.Policy, rows: seq<Row>, clock: int,
                      prefAddr: int, delta: int, deltaSignature: int): (t: Transition)
    requires |rows| > 0
    ensures |t.rows| == |rows|
  {
    var p := PlaceStep(cfg, policy, Prepared(cfg, rows), clock, prefAddr, delta, deltaSignature);
    Transition(p.rows, p.clock, ExpiredFeedback(cfg, rows, |rows|) + p.flushes, p.ok)
  }

  /** `check_n_give_reward`: reward only when some valid row has the address; never insert. */
  function CheckStep(cfg: TrackerConfig, rows: seq<Row>, clock: int, loadAddr: int, deltaSignature: int): (out: seq<Row>)
    ensures |out| == |rows|
  {
    var lk := Lookup(rows, loadAddr, deltaSignature);
    if !lk.found then rows else Rewarded(cfg, rows, lk, clock)
  }

  /** Placing keeps rows in range, and the victim sample it feeds to the Q-table indexes it. */
  lemma PlaceStepFits(qt: DeltaQTable, cfg: TrackerConfig, policy: ReplacementPolicy.Policy, mid: seq<Row>,
                      clock: int, prefAddr: int, delta: int, deltaSignature: int)
    requires |mid| > 0 && RowsFit(qt, mid) && qt.Fits(Feedback(deltaSignature, delta, 0))
    ensures var p := PlaceStep(cfg, policy, mid, clock, prefAddr, delta, deltaSignature);
      RowsFit(qt, p.rows) && FeedbackFits(qt, p.flushes)
  {
    var lk := Lookup(mid, prefAddr, deltaSignature);
    RewardedKeepsKeys(cfg, mid, lk, clock);
  }

  /** Rows in range stay in range, and every sample `insert` feeds to the Q-table indexes it. */
  lemma InsertStepFits(qt: DeltaQTable, cfg: TrackerConfig, policy: ReplacementPolicy.Policy, rows: seq<Row>,
                       clock: int, prefAddr: int, delta: int, deltaSignature: int)
    requires |rows| > 0 && RowsFit(qt, rows) && qt.Fits(Feedback(deltaSignature, delta, 0))
    ensures var t := InsertStep(cfg, policy, rows, clock, prefAddr, delta, deltaSignature);
      RowsFit(qt, t.rows) && FeedbackFits(qt, t.flushes)
  {
    var mid := Prepared(cfg, rows);
    ExpiredFeedbackFits(qt, cfg, rows, |rows|);
    assert RowsFit(qt, mid);
    PlaceStepFits(qt, cfg, policy, mid, clock, prefAddr, delta, deltaSignature);
  }

  lemma PreparedKeepsPairsUnique(cfg: TrackerConfig, rows: seq<Row>)
    requires UniquePairs(rows)
    ensures UniquePairs(Prepared(cfg, rows))
  {
  }

  /** Rewarding after a lookup changes neither that lookup's exact matches nor pair uniqueness. */
  lemma RewardedKeepsExactMatches(cfg: TrackerConfig, rows: seq<Row>, loadAddr: int, deltaSignature: int, clock: int)
    ensures var lk := Lookup(rows, loadAddr, deltaSignature);
      var out := Rewarded(cfg, rows, lk, clock);
      Lookup(out, loadAddr, deltaSignature).exactMatches == lk.exactMatches &&
      (UniquePairs(rows) ==> UniquePairs(out))
  {
    var lk := Lookup(rows, loadAddr, deltaSignature);
    RewardedKeepsKeys(cfg, rows, lk, clock);
    var out := Rewarded(cfg, rows, lk, clock);
    assert forall i :: 0 <= i < |rows| ==> Lookup(out, loadAddr, deltaSignature).exactMatches[i] == lk.exactMatches[i];
  }

  /** Writing a valid row for a pair no valid row holds leaves exactly one row with that pair. */
  lemma {:induction false} OverwriteWithNewPair(rows: seq<Row>, v: nat, r: Row, loadAddr: int, deltaSignature: int)
    requires v < |rows|
    requires r.valid > 0 && r.prefetchedAddress == loadAddr && r.deltaSignature == deltaSignature
    requires forall j :: 0 <= j < |rows| ==> !Lookup(rows, loadAddr, deltaSignature).exactMatches[j]
    ensures UniquePairs(rows) ==> UniquePairs(rows[v := r])
    ensures Count(Lookup(rows[v := r], loadAddr, deltaSignature).exactMatches) == 1
  {
    var before := Lookup(rows, loadAddr, deltaSignature).exactMatches;
    var after := Lookup(rows[v := r], loadAddr, deltaSignature).exactMatches;
    forall j | 0 <= j < |rows| && j != v
      ensures !after[j]
    {
      assert rows[v := r][j] == rows[j];
      assert !before[j];
    }
    CountSingle(after, v);
  }

  /**
   With no duplicate (address, signature) among valid rows, `insert`'s
   assertion holds, afterwards exactly one valid row records
   `(prefAddr, deltaSignature)`, and pairs stay unique.
   */
  lemma {:induction false} InsertKeepsPairsUnique(cfg: TrackerConfig, policy: ReplacementPolicy.Policy, rows: seq<Row>,
                                                  clock: int, prefAddr: int, delta: int, deltaSignature: int)
    requires |rows| > 0 && UniquePairs(rows)
    ensures var t := InsertStep(cfg, policy, rows, clock, prefAddr, delta, deltaSignature);
      t.ok && Count(Lookup(t.rows, prefAddr, deltaSignature).exactMatches) == 1 && UniquePairs(t.rows)
  {
    var t := InsertStep(cfg, policy, rows, clock, prefAddr, delta, deltaSignature);
    var mid := Prepared(cfg, rows);
    PreparedKeepsPairsUnique(cfg, rows);
    var lk := Lookup(mid, prefAddr, deltaSignature);
    CountAtMostOne(lk.exactMatches);
    RewardedKeepsExactMatches(cfg, mid, prefAddr, deltaSignature, clock);
    var rewarded := Rewarded(cfg, mid, lk, clock);
    CountPositive(lk.exactMatches);
    if Count(lk.exactMatches) == 0 {
      var v := policy.FindVictim(Timestamps(mid), ValidBits(mid));
      assert t.rows == rewarded[v := NewEntry(cfg, prefAddr, delta, deltaSignature, clock)];
      OverwriteWithNewPair(rewarded, v, NewEntry(cfg, prefAddr, delta, deltaSignature, clock), prefAddr, deltaSignature);
    } else {
      assert t.rows == rewarded;
    }
  }

  /**
   Whenever `insert`'s assertion holds, pairs unique or not, exactly one
   valid row records `(prefAddr, deltaSignature)` afterwards: the one that
   matched, or the victim overwritten with the new entry.
   */
  lemma {:induction false} InsertRecordsPair(cfg: TrackerConfig, policy: ReplacementPolicy.Policy, rows: seq<Row>,
                                             clock: int, prefAddr: int, delta: int, deltaSignature: int)
    requires |rows| > 0
    ensures var t := InsertStep(cfg, policy, rows, clock, prefAddr, delta, deltaSignature);
      t.ok ==> Count(Lookup(t.rows, prefAddr, deltaSignature).exactMatches) == 1
  {
    var t := InsertStep(cfg, policy, rows, clock, prefAddr, delta, deltaSignature);
    var mid := Prepared(cfg, rows);
    var lk := Lookup(mid, prefAddr, deltaSignature);
    RewardedKeepsExactMatches(cfg, mid, prefAddr, deltaSignature, clock);
    var rewarded := Rewarded(cfg, mid, lk, clock);
    CountPositive(lk.exactMatches);
    if Count(lk.exactMatches) == 0 {
      var v := policy.FindVictim(Timestamps(mid), ValidBits(mid));
      assert t.rows == rewarded[v := NewEntry(cfg, prefAddr, delta, deltaSignature, clock)];
      OverwriteWithNewPair(rewarded, v, NewEntry(cfg, prefAddr, delta, deltaSignature, clock), prefAddr, deltaSignature);
    } else if Count(lk.exactMatches) == 1 {
      assert t.rows == rewarded;
    }
  }

  /**
   After `insert`, whatever its outcome, every valid row's age is at most
   the epoch bound.
   */
  lemma InsertBoundsAge(cfg: TrackerConfig, policy: ReplacementPolicy.Policy, rows: seq<Row>, clock: int,
                        prefAddr: int, delta: int, deltaSignature: int)
    requires |rows| > 0
    ensures var t := InsertStep(cfg, policy, rows, clock, prefAddr, delta, deltaSignature);
      forall i :: 0 <= i < |t.rows| && t.rows[i].valid > 0 ==> t.rows[i].step <= cfg.stepsPerEntry
  {
    var mid := Prepared(cfg, rows);
    var lk := Lookup(mid, prefAddr, deltaSignature);
    RewardedKeepsKeys(cfg, mid, lk, clock);
  }

  /**
   Every row that `insert` does not overwrite is one step older, keeps its
   address, delta and signature, and loses its valid bit exactly when it
   had expired.
   */
  lemma InsertAgesEveryRow(cfg: TrackerConfig, policy: ReplacementPolicy.Policy, rows: seq<Row>, clock: int,
                           prefAddr: int, delta: int, deltaSignature: int, i: nat)
    requires i < |rows|
    requires var mid := Prepared(cfg, rows);
      Count(Lookup(mid, prefAddr, deltaSignature).exactMatches) > 0 || i != policy.FindVictim(Timestamps(mid), ValidBits(mid))
    ensures var t := InsertStep(cfg, policy, rows, clock, prefAddr, delta, deltaSignature);
      t.rows[i].prefetchedAddress == rows[i].prefetchedAddress && t.rows[i].delta == rows[i].delta &&
      t.rows[i].deltaSignature == rows[i].deltaSignature &&
      t.rows[i].step == rows[i].step + 1 &&
      t.rows[i].valid == (if Expired(cfg, rows[i]) then 0 else rows[i].valid)
  {
    var mid := Prepared(cfg, rows);
    var lk := Lookup(mid, prefAddr, deltaSignature);
    RewardedKeepsKeys(cfg, mid, lk, clock);
  }

  /**
   With no exact match, `insert` overwrites the victim the policy chooses
   from the aged table's timestamps and valid bits (before rewards). The
   victim's rewarded contents are fed to the Q-table after the expired
   rows', whether or not the slot was valid; every other row is as
   rewarded, and the clock advances by one.
   */
  lemma InsertOverwritesVictim(cfg: TrackerConfig, policy: ReplacementPolicy.Policy, rows: seq<Row>, clock: int,
                               prefAddr: int, delta: int, deltaSignature: int)
    requires |rows| > 0
    requires Count(Lookup(Prepared(cfg, rows), prefAddr, deltaSignature).exactMatches) == 0
    ensures var t := InsertStep(cfg, policy, rows, clock, prefAddr, delta, deltaSignature);
      var mid := Prepared(cfg, rows);
      var v := policy.FindVictim(Timestamps(mid), ValidBits(mid));
      var rewarded := Rewarded(cfg, mid, Lookup(mid, prefAddr, deltaSignature), clock);
      t.ok && t.clock == clock + 1 &&
      t.rows[v] == NewEntry(cfg, prefAddr, delta, deltaSignature, clock) &&
      (forall j :: 0 <= j < |rows| && j != v ==> t.rows[j] == rewarded[j]) &&
      t.flushes == ExpiredFeedback(cfg, rows, |rows|) + [FeedbackOf(rewarded[v])]
  {
  }

  /**
   The victim is fed to the Q-table even when its slot is not valid: a row
   that expires during this `insert` and is then chosen as the victim has
   its (signature, delta, reward) fed twice, once by the expiry and once
   by the replacement.
   */
  lemma {:induction false} InsertRefeedsExpiredVictim(cfg: TrackerConfig, policy: ReplacementPolicy.Policy, rows: seq<Row>,
                                                      clock: int, prefAddr: int, delta: int, deltaSignature: int)
    requires |rows| > 0
    requires var mid := Prepared(cfg, rows);
      Count(Lookup(mid, prefAddr, deltaSignature).exactMatches) == 0 &&
      Expired(cfg, rows[policy.FindVictim(Timestamps(mid), ValidBits(mid))])
    ensures var t := InsertStep(cfg, policy, rows, clock, prefAddr, delta, deltaSignature);
      var mid := Prepared(cfg, rows);
      var f := FeedbackOf(rows[policy.FindVictim(Timestamps(mid), ValidBits(mid))]);
      var expired := ExpiredFeedback(cfg, rows, |rows|);
      t.flushes == expired + [f] && exists k :: 0 <= k < |expired| && expired[k] == f
  {
    var mid := Prepared(cfg, rows);
    var v := policy.FindVictim(Timestamps(mid), ValidBits(mid));
    var lk := Lookup(mid, prefAddr, deltaSignature);
    var rewarded := Rewarded(cfg, mid, lk, clock);
    assert mid[v].valid == 0;
    assert rewarded[v] == mid[v];
    ExpiredFeedbackInRowOrder(cfg, rows, |rows|);
    var idx := ExpiredIndices(cfg, rows, |rows|);
    assert v in idx;
    var k :| 0 <= k < |idx| && idx[k] == v;
  }

  /**
   On a table whose valid bits are 0 or 1, the LRU victim is the first
   invalid row if there is one, and otherwise the first row with the
   smallest timestamp.
   */
  lemma LruVictimOfTable(rows: seq<Row>)
    requires |rows| > 0
    requires forall i :: 0 <= i < |rows| ==> rows[i].valid == 0 || rows[i].valid == 1
    ensures var v := ReplacementPolicy.Policy.LRU.FindVictim(Timestamps(rows), ValidBits(rows));
      ((exists j :: 0 <= j < |rows| && rows[j].valid == 0) ==>
        rows[v].valid == 0 && forall j :: 0 <= j < v ==> rows[j].valid == 1) &&
      ((forall j :: 0 <= j < |rows| ==> rows[j].valid == 1) ==>
        (forall j :: 0 <= j < |rows| ==> rows[v].timestamp <= rows[j].timestamp) &&
        (forall j :: 0 <= j < v ==> rows[j].timestamp > rows[v].timestamp))
  {
    var ts, vb := Timestamps(rows), ValidBits(rows);
    assert forall j :: 0 <= j < |rows| ==> vb[j] == rows[j].valid && ts[j] == rows[j].timestamp;
    if exists j :: 0 <= j < |rows| && rows[j].valid == 0 {
      var j :| 0 <= j < |rows| && rows[j].valid == 0;
      assert vb[j] == 0;
      ReplacementPolicy.VictimIsFirstFreeSlot(ts, vb);
    } else {
      assert forall j :: 0 <= j < |vb| ==> vb[j] == 1;
      assert !ReplacementPolicy.Policy.LRU.CheckInvalidEntry(vb);
    }
  }

  /** The zero-filled table the constructor creates has no valid row, hence no duplicate pair. */
  lemma EmptyTableHasUniquePairs(n: nat)
    ensures UniquePairs(seq(n, i => EmptyRow))
  {
  }

  /**
   `check_n_give_reward` keeps pairs unique, so together with
   `EmptyTableHasUniquePairs` and `InsertKeepsPairsUnique`, no table built by
   the constructor ever fails `insert`'s assertion.
   */
  lemma CheckKeepsPairsUnique(cfg: TrackerConfig, rows: seq<Row>, clock: int, loadAddr: int, deltaSignature: int)
    requires UniquePairs(rows)
    ensures UniquePairs(CheckStep(cfg, rows, clock, loadAddr, deltaSignature))
  {
    RewardedKeepsExactMatches(cfg, rows, loadAddr, deltaSignature, clock);
  }

  /** `check_n_give_reward` leaves the table as it is when no valid row has the address. */
  lemma CheckWithoutMatchIsNoOp(cfg: TrackerConfig, rows: seq<Row>, clock: int, loadAddr: int, deltaSignature: int)
    requires forall i :: 0 <= i < |rows| ==> rows[i].valid <= 0 || rows[i].prefetchedAddress != loadAddr
    ensures CheckStep(cfg, rows, clock, loadAddr, deltaSignature) == rows
  {
  }

  /**
   `check_n_give_reward` never changes the address, delta, signature, step
   or valid columns, and when the address is found it rewards as
   `_issue_rewards` does.
   */
  lemma CheckKeepsKeys(cfg: TrackerConfig, rows: seq<Row>, clock: int, loadAddr: int, deltaSignature: int)
    ensures var out := CheckStep(cfg, rows, clock, loadAddr, deltaSignature);
      forall i :: 0 <= i < |rows| ==>
        out[i].prefetchedAddress == rows[i].prefetchedAddress && out[i].delta == rows[i].delta &&
        out[i].deltaSignature == rows[i].deltaSignature && out[i].step == rows[i].step &&
        out[i].valid == rows[i].valid
  {
    var lk := Lookup(rows, loadAddr, deltaSignature);
    RewardedKeepsKeys(cfg, rows, lk, clock);
  }

  // ---------------------------------------------------------------------
  // The table itself

  class RewardTrackerTable {
    const cfg: TrackerConfig
    const deltaQTable: DeltaQTable
    const replacementPolicy: ReplacementPolicy.Policy
    const rewardTable: array<Row>
    var logicalClock: int

    ghost predicate Valid()
      reads this, rewardTable
    {
      rewardTable.Length == cfg.nEntries && cfg.nEntries > 0 &&
      deltaQTable.Wellformed() &&
      RowsFit(deltaQTable, rewardTable[..])
    }

    /** A zero-filled table of `nEntries` rows with the LRU policy and the clock at 0. */
    constructor (nEntries: nat, stepsPerEntry: nat, deltaQTable: DeltaQTable,
                 hitReward: int := REWARD_HIT, semiHitReward: int := REWARD_PSEUDO_HIT,
                 missReward: int := REWARD_MISS)
      requires nEntries > 0 && deltaQTable.Wellformed()
      ensures Valid() && fresh(rewardTable)
      ensures cfg == TrackerConfig(nEntries, stepsPerEntry, hitReward, semiHitReward, missReward)
      ensures this.deltaQTable == deltaQTable && replacementPolicy == ReplacementPolicy.Policy.LRU
      ensures rewardTable[..] == seq(nEntries, i => EmptyRow)
      ensures logicalClock == 0
    {
      cfg := TrackerConfig(nEntries, stepsPerEntry, hitReward, semiHitReward, missReward);
      this.deltaQTable := deltaQTable;
      replacementPolicy := ReplacementPolicy.Policy.LRU;
      rewardTable := new Row[nEntries](i => EmptyRow);
      logicalClock := 0;
    }

    /** `_increment_ticks` */
    method IncrementTicks()
      modifies this`logicalClock
      ensures logicalClock == old(logicalClock) + 1
    {
      logicalClock := logicalClock + 1;
    }

    /** `_increment_steps` */
    method IncrementSteps()
      modifies rewardTable
      ensures rewardTable[..] == AgeAll(old(rewardTable[..]))
    {
      var i := 0;
      while i < rewardTable.Length
        invariant 0 <= i <= rewardTable.Length
        invariant forall k :: 0 <= k < i ==> rewardTable[k] == old(rewardTable[k]).(step := old(rewardTable[k]).step + 1)
        invariant forall k :: i <= k < rewardTable.Length ==> rewardTable[k] == old(rewardTable[k])
      {
        rewardTable[i] := rewardTable[i].(step := rewardTable[i].step + 1);
        i := i + 1;
      }
    }

    /** `_update_existing`: refresh the timestamp and add the hit reward on the masked rows. */
    method UpdateExisting(idxMask: seq<bool>)
      requires |idxMask| == rewardTable.Length
      modifies rewardTable
      ensures forall k :: 0 <= k < rewardTable.Length ==>
        rewardTable[k] == Refresh(cfg, old(rewardTable[k]), idxMask[k], logicalClock)
    {
      var i := 0;
      while i < rewardTable.Length
        invariant 0 <= i <= rewardTable.Length
        invariant forall k :: 0 <= k < i ==> rewardTable[k] == Refresh(cfg, old(rewardTable[k]), idxMask[k], logicalClock)
        invariant forall k :: i <= k < rewardTable.Length ==> rewardTable[k] == old(rewardTable[k])
      {
        if idxMask[i] {
          rewardTable[i] := rewardTable[i].(timestamp := logicalClock, reward := rewardTable[i].reward + cfg.rewardHit);
        }
        i := i + 1;
      }
    }

    /** The first half of `_invalidate_entries`: feed every expired row to the Q-table, in row order. */
    method FlushExpired()
      requires Valid()
      modifies deltaQTable.q
      ensures deltaQTable.Snapshot() == Flushed(deltaQTable, cfg, old(deltaQTable.Snapshot()), rewardTable[..], rewardTable.Length)
    {
      ghost var q0 := deltaQTable.Snapshot();
      var i := 0;
      while i < rewardTable.Length
        invariant 0 <= i <= rewardTable.Length
        invariant deltaQTable.Snapshot() == Flushed(deltaQTable, cfg, q0, rewardTable[..], i)
      {
        var entry := rewardTable[i];
        assert RowFits(deltaQTable, entry);
        if entry.valid > 0 && entry.step >= cfg.stepsPerEntry {
          deltaQTable.Update(entry.deltaSignature, entry.delta, entry.reward);
        }
        i := i + 1;
      }
    }

    /**
     `_invalidate_entries`: feed every expired row to the Q-table in row
     order, then clear the valid bits of those rows.
     */
    method InvalidateEntries()
      requires Valid()
      modifies rewardTable, deltaQTable.q
      ensures Valid()
      ensures rewardTable[..] == ExpireAll(cfg, old(rewardTable[..]))
      ensures FeedbackFits(deltaQTable, ExpiredFeedback(cfg, old(rewardTable[..]), rewardTable.Length)) &&
              deltaQTable.Snapshot() ==
                deltaQTable.ApplyFeedback(old(deltaQTable.Snapshot()), ExpiredFeedback(cfg, old(rewardTable[..]), rewardTable.Length))
    {
      FlushExpired();
      FlushedIsApplyFeedback(deltaQTable, cfg, old(deltaQTable.Snapshot()), old(rewardTable[..]), rewardTable.Length);
      ClearExpired();
    }

    /** The second half of `_invalidate_entries`: clear the valid bit of every expired row. */
    method ClearExpired()
      modifies rewardTable
      ensures forall k :: 0 <= k < rewardTable.Length ==> rewardTable[k] == ExpireRow(cfg, old(rewardTable[k]))
    {
      var i := 0;
      while i < rewardTable.Length
        invariant 0 <= i <= rewardTable.Length
        invariant forall k :: 0 <= k < i ==> rewardTable[k] == ExpireRow(cfg, old(rewardTable[k]))
        invariant forall k :: i <= k < rewardTable.Length ==> rewardTable[k] == old(rewardTable[k])
      {
        if rewardTable[i].valid > 0 && rewardTable[i].step >= cfg.stepsPerEntry {
          rewardTable[i] := rewardTable[i].(valid := 0);
        }
        i := i + 1;
      }
    }

    /** The first pass of `_issue_rewards`: every valid row is charged the miss reward. */
    method PenalizeValid()
      modifies rewardTable
      ensures forall k :: 0 <= k < rewardTable.Length ==> rewardTable[k] == Penalize(cfg, old(rewardTable[k]))
    {
      var i := 0;
      while i < rewardTable.Length
        invariant 0 <= i <= rewardTable.Length
        invariant forall k :: 0 <= k < i ==> rewardTable[k] == Penalize(cfg, old(rewardTable[k]))
        invariant forall k :: i <= k < rewardTable.Length ==> rewardTable[k] == old(rewardTable[k])
      {
        if rewardTable[i].valid > 0 {
          rewardTable[i] := rewardTable[i].(reward := rewardTable[i].reward + cfg.rewardMiss);
        }
        i := i + 1;
      }
    }

    /** The second pass of `_issue_rewards`: the charge is taken back on the masked rows. */
    method CancelPenalties(mask: seq<bool>)
      requires |mask| == rewardTable.Length
      modifies rewardTable
      ensures forall k :: 0 <= k < rewardTable.Length ==> rewardTable[k] == CancelPenalty(cfg, old(rewardTable[k]), mask[k])
    {
      var i := 0;
      while i < rewardTable.Length
        invariant 0 <= i <= rewardTable.Length
        invariant forall k :: 0 <= k < i ==> rewardTable[k] == CancelPenalty(cfg, old(rewardTable[k]), mask[k])
        invariant forall k :: i <= k < rewardTable.Length ==> rewardTable[k] == old(rewardTable[k])
      {
        if mask[i] {
          rewardTable[i] := rewardTable[i].(reward := rewardTable[i].reward - cfg.rewardMiss);
        }
        i := i + 1;
      }
    }

    /** The last pass of `_issue_rewards`: the pseudo-hit reward on the masked rows. */
    method CreditSemiHits(mask: seq<bool>)
      requires |mask| == rewardTable.Length
      modifies rewardTable
      ensures forall k :: 0 <= k < rewardTable.Length ==> rewardTable[k] == SemiHit(cfg, old(rewardTable[k]), mask[k])
    {
      var i := 0;
      while i < rewardTable.Length
        invariant 0 <= i <= rewardTable.Length
        invariant forall k :: 0 <= k < i ==> rewardTable[k] == SemiHit(cfg, old(rewardTable[k]), mask[k])
        invariant forall k :: i <= k < rewardTable.Length ==> rewardTable[k] == old(rewardTable[k])
      {
        if mask[i] {
          rewardTable[i] := rewardTable[i].(reward := rewardTable[i].reward + cfg.rewardSemiHit);
        }
        i := i + 1;
      }
    }

    /** `_issue_rewards`: penalty, cancellation, then hit and pseudo-hit credit when found. */
    method IssueRewards(entryFound: bool, allMatches: seq<bool>, allWithDeltaSigMatches: seq<bool>)
      requires Valid() && |allMatches| == |allWithDeltaSigMatches| == rewardTable.Length
      modifies rewardTable
      ensures Valid()
      ensures rewardTable[..] ==
        Rewarded(cfg, old(rewardTable[..]), LookupResult(entryFound, allMatches, allWithDeltaSigMatches), logicalClock)
    {
      ghost var rows0 := rewardTable[..];
      PenalizeValid();
      CancelPenalties(allMatches);
      var semiMatches := seq(rewardTable.Length, k requires 0 <= k < rewardTable.Length =>
        allMatches[k] != allWithDeltaSigMatches[k]);
      var anyExact := Count(allWithDeltaSigMatches) > 0;
      if entryFound {
        ghost var rows2 := rewardTable[..];
        if anyExact {
          UpdateExisting(allWithDeltaSigMatches);
        }
        assert forall k :: 0 <= k < rewardTable.Length ==>
          rewardTable[k] == Refresh(cfg, rows2[k], anyExact && allWithDeltaSigMatches[k], logicalClock);
        CreditSemiHits(semiMatches);
      }
      assert forall k :: 0 <= k < rewardTable.Length ==>
        rewardTable[k] == RewardRow(cfg, rows0[k], entryFound, allMatches[k], allWithDeltaSigMatches[k], anyExact, logicalClock);
      RewardedKeepsKeys(cfg, rows0, LookupResult(entryFound, allMatches, allWithDeltaSigMatches), logicalClock);
    }

    /** `check_n_give_reward` */
    method CheckNGiveReward(loadAddr: int, deltaSignature: int)
      requires Valid()
      modifies rewardTable
      ensures Valid()
      ensures rewardTable[..] == CheckStep(cfg, old(rewardTable[..]), logicalClock, loadAddr, deltaSignature)
    {
      var lk := Lookup(rewardTable[..], loadAddr, deltaSignature);
      if !lk.found {
        return;
      }
      IssueRewards(lk.found, lk.addressMatches, lk.exactMatches);
    }

    /**
     The replacement step of `insert`: the victim row's (signature, delta,
     reward) goes to the Q-table, then the row is overwritten by the new
     prefetch with the hit reward, age 0 and the current clock.
     */
    method ReplaceVictim(victimEntryIdx: nat, prefAddr: int, delta: int, deltaSignature: int)
      requires Valid() && victimEntryIdx < rewardTable.Length && deltaQTable.Fits(Feedback(deltaSignature, delta, 0))
      modifies rewardTable, deltaQTable.q
      ensures Valid()
      ensures rewardTable[..] ==
        old(rewardTable[..])[victimEntryIdx := NewEntry(cfg, prefAddr, delta, deltaSignature, logicalClock)]
      ensures deltaQTable.Fits(FeedbackOf(old(rewardTable[victimEntryIdx]))) &&
              deltaQTable.Snapshot() ==
                deltaQTable.QUpdate(old(deltaQTable.Snapshot()), FeedbackOf(old(rewardTable[victimEntryIdx])))
    {
      var victim := rewardTable[victimEntryIdx];
      assert RowFits(deltaQTable, victim);
      deltaQTable.Update(victim.deltaSignature, victim.delta, victim.reward);
      rewardTable[victimEntryIdx] := Row(prefAddr, delta, deltaSignature, cfg.rewardHit, 0, logicalClock, 1);
    }

    /** `insert`, from the aged table on: the lookup, the assertion, rewards and replacement, the tick. */
    method PlaceEntry(prefAddr: int, delta: int, deltaSignature: int) returns (outcome: InsertOutcome)
      requires Valid() && deltaQTable.Fits(Feedback(deltaSignature, delta, 0))
      modifies this`logicalClock, rewardTable, deltaQTable.q
      ensures Valid()
      ensures var p := PlaceStep(cfg, replacementPolicy, old(rewardTable[..]), old(logicalClock), prefAddr, delta, deltaSignature);
        rewardTable[..] == p.rows && logicalClock == p.clock &&
        (outcome == Inserted <==> p.ok) &&
        FeedbackFits(deltaQTable, p.flushes) &&
        deltaQTable.Snapshot() == deltaQTable.ApplyFeedback(old(deltaQTable.Snapshot()), p.flushes)
    {
      ghost var mid, clock0 := rewardTable[..], logicalClock;
      ghost var q0 := deltaQTable.Snapshot();
      ghost var p := PlaceStep(cfg, replacementPolicy, mid, clock0, prefAddr, delta, deltaSignature);
      PlaceStepFits(deltaQTable, cfg, replacementPolicy, mid, clock0, prefAddr, delta, deltaSignature);

      var lk := Lookup(rewardTable[..], prefAddr, deltaSignature);
      var nExact := Count(lk.exactMatches);
      if nExact > 1 {
        assert p == Transition(mid, clock0, [], false);
        return MultipleMatches;
      }

      var victimEntryIdx := replacementPolicy.FindVictim(Timestamps(rewardTable[..]), ValidBits(rewardTable[..]));
      IssueRewards(lk.found, lk.addressMatches, lk.exactMatches);
      ghost var rewarded := rewardTable[..];

      if nExact == 0 {
        ReplaceVictim(victimEntryIdx, prefAddr, delta, deltaSignature);
        assert p == Transition(rewarded[victimEntryIdx := NewEntry(cfg, prefAddr, delta, deltaSignature, clock0)],
                               clock0 + 1, [FeedbackOf(rewarded[victimEntryIdx])], true);
      } else {
        assert p == Transition(rewarded, clock0 + 1, [], true);
      }

      IncrementTicks();
      outcome := Inserted;
    }

    /** `insert` */
    method Insert(prefAddr: int, delta: int, deltaSignature: int) returns (outcome: InsertOutcome)
      requires Valid() && deltaQTable.Fits(Feedback(deltaSignature, delta, 0))
      modifies this`logicalClock, rewardTable, deltaQTable.q
      ensures Valid()
      ensures var t := InsertStep(cfg, replacementPolicy, old(rewardTable[..]), old(logicalClock), prefAddr, delta, deltaSignature);
        rewardTable[..] == t.rows && logicalClock == t.clock &&
        (outcome == Inserted <==> t.ok) &&
        FeedbackFits(deltaQTable, t.flushes) &&
        deltaQTable.Snapshot() == deltaQTable.ApplyFeedback(old(deltaQTable.Snapshot()), t.flushes)
    {
      ghost var rows0, clock0 := rewardTable[..], logicalClock;
      ghost var q0 := deltaQTable.Snapshot();
      InsertStepFits(deltaQTable, cfg, replacementPolicy, rows0, clock0, prefAddr, delta, deltaSignature);
      ghost var expired := ExpiredFeedback(cfg, rows0, |rows0|);

      InvalidateEntries();
      IncrementSteps();
      ghost var mid := rewardTable[..];
      assert mid == Prepared(cfg, rows0);
      ghost var p := PlaceStep(cfg, replacementPolicy, mid, clock0, prefAddr, delta, deltaSignature);
      ghost var t := InsertStep(cfg, replacementPolicy, rows0, clock0, prefAddr, delta, deltaSignature);
      assert t == Transition(p.rows, p.clock, expired + p.flushes, p.ok);

      outcome := PlaceEntry(prefAddr, delta, deltaSignature);
      deltaQTable.ApplyFeedbackAppend(q0, expired, p.flushes);
    }
  }
}
