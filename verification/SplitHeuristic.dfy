/**
 How many splits a launch uses (pod_attn/pod_attn/fused_api_setup.h): the smallest count that
 comes close to the best occupancy. Efficiencies are exact; dividing nothing by nothing is NaN.
 */
module SplitHeuristic {
  import opened IntMath
  import opened Floats
  import opened MaskSchedule

  /** The lambda `is_split_eligible`. */
  predicate Eligible(blocks: nat, splits: nat)
    requires splits > 0
  {
    splits == 1 || CeilNat(blocks, splits) != CeilNat(blocks, splits - 1)
  }

  /** `CeilNat(a, b)` chunks of `b` are the fewest that hold `a`. */
  lemma CeilNatLeast(a: nat, b: nat, q: nat)
    requires b > 0
    ensures a <= q * b <==> CeilNat(a, b) <= q
  {
    var c := CeilNat(a, b);
    QuotientBounds(a + b - 1, b);
    DistributeAdd(c, 1, b);
    if c <= q {
      MulMono(c, q, b);
    } else {
      MulMono(q + 1, c, b);
      DistributeAdd(q, 1, b);
    }
  }

  /** A split count is eligible exactly when cutting the blocks into that many chunks leaves none empty. */
  lemma EligibleMeansNoEmptySplit(blocks: nat, splits: nat)
    requires splits > 0 && blocks > 0
    ensures Eligible(blocks, splits) <==> (splits - 1) * CeilNat(blocks, splits) < blocks
  {
    if splits > 1 {
      var c, d := CeilNat(blocks, splits), CeilNat(blocks, splits - 1);
      CeilNatLeast(blocks, splits - 1, c);
      CeilNatLeast(blocks, splits - 1, d);
      CeilNatLeast(blocks, splits, d);
      DistributeAdd(splits - 1, 1, d);
      assert d * splits == d * (splits - 1) + d;
    }
  }

  /** So an eligible count gives every split of a full-length sequence at least one block. */
  lemma EligibleSplitsHaveBlocks(c: Config, seqlenK: nat, splits: nat, i: nat)
    requires c.N > 0 && seqlenK > 0 && i < splits
    requires Eligible(CeilNat(seqlenK, c.N), splits)
    ensures i * c.BlocksPerSplit(seqlenK, splits) < CeilNat(seqlenK, c.N)
  {
    var blocks := CeilNat(seqlenK, c.N);
    CeilNatLeast(seqlenK, c.N, 0);
    EligibleMeansNoEmptySplit(blocks, splits);
    assert c.BlocksPerSplit(seqlenK, splits) == CeilNat(blocks, splits);
    MulMono(i, splits - 1, CeilNat(blocks, splits));
  }

  /** `n_waves / ceil(n_waves)`. */
  function Efficiency(work: nat, sms: nat, splits: nat): F
    requires sms > 0
  {
    var waves := (work * splits) as real / sms as real;
    var whole := if waves.Floor as real == waves then waves else waves.Floor as real + 1.0;
    if whole == 0.0 then NaN else Fin(waves / whole)
  }

  /** The value of an efficiency; zero when there is no work. */
  function Eff(work: nat, sms: nat, splits: nat): real
    requires sms > 0
  {
    var e := Efficiency(work, sms, splits);
    if e.Fin? then e.r else 0.0
  }

  lemma QuotientAtMostOne(a: real, b: real)
    requires 0.0 < a <= b
    ensures 0.0 < a / b <= 1.0
  {
  }

  lemma EfficiencyOfWork(work: nat, sms: nat, splits: nat)
    requires sms > 0 && splits > 0
    ensures work > 0 ==>
      Efficiency(work, sms, splits) == Fin(Eff(work, sms, splits)) && 0.0 < Eff(work, sms, splits) <= 1.0
    ensures work == 0 ==> Efficiency(work, sms, splits) == NaN
  {
    var waves := (work * splits) as real / sms as real;
    if work > 0 {
      MulMono(1, work, splits);
      assert waves > 0.0;
      var whole := if waves.Floor as real == waves then waves else waves.Floor as real + 1.0;
      assert waves <= whole;
      QuotientAtMostOne(waves, whole);
    }
  }

  /** `a` is within 85% of the efficiency of `t`. */
  predicate Close(work: nat, sms: nat, a: nat, t: nat)
    requires sms > 0
  {
    Eff(work, sms, a) >= 0.85 * Eff(work, sms, t)
  }

  predicate Candidate(blocks: nat, top: int, s: nat) {
    0 < s <= top && Eligible(blocks, s)
  }

  /** `s` is within 85% of every candidate. */
  ghost predicate GoodEnough(work: nat, sms: nat, blocks: nat, top: int, s: nat)
    requires sms > 0
  {
    forall t :: Candidate(blocks, top, t) ==> Close(work, sms, s, t)
  }

  /** The largest efficiency of the first `n` candidates, or zero. */
  ghost predicate IsBest(work: nat, sms: nat, blocks: nat, n: int, best: real)
    requires sms > 0
  {
    && best >= 0.0
    && (forall t :: Candidate(blocks, n, t) ==> Eff(work, sms, t) <= best)
    && (best > 0.0 ==> exists t :: Candidate(blocks, n, t) && Eff(work, sms, t) == best)
  }

  lemma BestNext(work: nat, sms: nat, blocks: nat, s: nat, before: real, best: real)
    requires sms > 0 && s > 0 && IsBest(work, sms, blocks, s - 1, before)
    requires best == if Eligible(blocks, s) && Eff(work, sms, s) > before then Eff(work, sms, s) else before
    ensures IsBest(work, sms, blocks, s, best)
  {
    if best == before && best > 0.0 {
      var t :| Candidate(blocks, s - 1, t) && Eff(work, sms, t) == before;
      assert Candidate(blocks, s, t);
    } else if best > 0.0 {
      assert Candidate(blocks, s, s);
    }
    forall t | Candidate(blocks, s, t)
      ensures Eff(work, sms, t) <= best
    {
      assert t != s ==> Candidate(blocks, s - 1, t);
    }
  }

  /** The first loop: the efficiency of every eligible count, and the largest. */
  method FillEfficiencies(work: nat, sms: nat, blocks: nat, top: int) returns (efficiency: seq<F>, best: real)
    requires sms > 0 && top >= 0
    ensures |efficiency| == top && IsBest(work, sms, blocks, top, best)
    ensures forall s :: Candidate(blocks, top, s) ==> efficiency[s - 1] == Efficiency(work, sms, s)
  {
    efficiency, best := [], 0.0;
    var s: nat := 1;
    while s <= top
      invariant 1 <= s <= top + 1 && |efficiency| == s - 1 && IsBest(work, sms, blocks, s - 1, best)
      invariant forall t :: Candidate(blocks, s - 1, t) ==> efficiency[t - 1] == Efficiency(work, sms, t)
    {
      ghost var before := best;
      if !Eligible(blocks, s) {
        efficiency := efficiency + [Fin(0.0)];
      } else {
        EfficiencyOfWork(work, sms, s);
        var e := Efficiency(work, sms, s);
        if e.Fin? && e.r > best {
          best := e.r;
        }
        efficiency := efficiency + [e];
      }
      BestNext(work, sms, blocks, s, before, best);
      s := s + 1;
    }
  }

  lemma ChosenIsSmallest(work: nat, sms: nat, blocks: nat, top: int, best: real, s: nat)
    requires sms > 0 && work > 0 && IsBest(work, sms, blocks, top, best) && Candidate(blocks, top, s)
    requires Eff(work, sms, s) >= 0.85 * best
    requires forall t: nat :: t < s && Candidate(blocks, top, t) ==> Eff(work, sms, t) < 0.85 * best
    ensures GoodEnough(work, sms, blocks, top, s)
    ensures forall t: nat :: t < s && Candidate(blocks, top, t) ==> !GoodEnough(work, sms, blocks, top, t)
  {
    EfficiencyOfWork(work, sms, s);
    forall t: nat | t < s && Candidate(blocks, top, t)
      ensures !GoodEnough(work, sms, blocks, top, t)
    {
      var u :| Candidate(blocks, top, u) && Eff(work, sms, u) == best;
      assert !Close(work, sms, t, u);
    }
  }

  lemma BestIsReached(work: nat, sms: nat, blocks: nat, top: int, best: real) returns (t: nat)
    requires sms > 0 && work > 0 && top >= 1 && IsBest(work, sms, blocks, top, best)
    ensures Candidate(blocks, top, t) && Eff(work, sms, t) == best > 0.0
  {
    EfficiencyOfWork(work, sms, 1);
    assert Candidate(blocks, top, 1);
    t :| Candidate(blocks, top, t) && Eff(work, sms, t) == best;
  }

  /**
   One split if the work almost fills the SMs already, or if there is no work or no room to split;
   otherwise the smallest eligible count within 85% of the best efficiency of any eligible count.
   */
  method NumSplits(work: nat, sms: nat, blocks: nat, maxSplits: nat) returns (splits: nat)
    ensures 5 * work >= 4 * sms ==> splits == 1
    ensures 5 * work < 4 * sms ==>
              var top := Min(maxSplits, Min(sms, blocks));
              if work == 0 || top < 1 then splits == 1
              else Candidate(blocks, top, splits) && GoodEnough(work, sms, blocks, top, splits)
                   && forall s: nat :: s < splits && Candidate(blocks, top, s) ==>
                     !GoodEnough(work, sms, blocks, top, s)
  {
    if 5 * work >= 4 * sms {
      return 1;
    }
    var top := Min(maxSplits, Min(sms, blocks));
    var efficiency, best := FillEfficiencies(work, sms, blocks, top);
    var s: nat := 1;
    while s <= top
      invariant 1 <= s <= top + 1
      invariant work > 0 ==> forall t: nat :: t < s && Candidate(blocks, top, t) ==> Eff(work, sms, t) < 0.85 * best
    {
      if Eligible(blocks, s) {
        EfficiencyOfWork(work, sms, s);
        var e := efficiency[s - 1];
        if e.Fin? && e.r >= 0.85 * best {
          ChosenIsSmallest(work, sms, blocks, top, best, s);
          return s;
        }
      }
      s := s + 1;
    }
    if work > 0 && top >= 1 {
      ghost var _ := BestIsReached(work, sms, blocks, top, best);
      assert false;
    }
    return 1;
  }
}
