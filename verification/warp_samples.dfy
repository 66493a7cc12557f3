/** `av1_selectSamples`: the warped-motion sample filter. Samples whose
    projected position disagrees with the block's MV by more than a
    size-dependent threshold are dropped, and the survivors are compacted to
    the front by moving samples from the back into the holes. */
module WarpSamples {
  import opened IntMath
  import opened MvProjection

  /** `LEAST_SQUARES_SAMPLES_MAX`. */
  const MaxSamples := 8

  /** A neighbour's centre in the current frame (`pts`) and the matching
      position in the reference frame (`pts_inref`), in 1/8 pel. */
  datatype Sample = Sample(x: int, y: int, refX: int, refY: int)

  /** The threshold: the block's larger side, clamped to [16, 112]. */
  function Threshold(bw: int, bh: int): (t: int)
    ensures 16 <= t <= 112
    ensures 16 <= Max(bw, bh) <= 112 ==> t == Max(bw, bh)
  {
    Clamp(Max(bw, bh), 16, 112)
  }

  /** How far the sample's motion is from the block MV (L1 distance). */
  function Mvd(s: Sample, mv: Mv): nat
  {
    Abs(s.refX - s.x - mv.col) + Abs(s.refY - s.y - mv.row)
  }

  predicate Kept(s: Sample, mv: Mv, thresh: int)
  {
    Mvd(s, mv) <= thresh
  }

  /** Reference definition: the kept samples of the first `hi`, in order. */
  function KeptPrefix(samples: seq<Sample>, mv: Mv, thresh: int, hi: int): (ks: seq<Sample>)
    requires 0 <= hi <= |samples|
    ensures |ks| <= hi
    ensures forall k :: 0 <= k < |ks| ==> Kept(ks[k], mv, thresh)
  {
    if hi == 0 then []
    else KeptPrefix(samples, mv, thresh, hi - 1)
         + (if Kept(samples[hi - 1], mv, thresh) then [samples[hi - 1]] else [])
  }

  function KeptSamples(samples: seq<Sample>, mv: Mv, thresh: int): seq<Sample>
  {
    KeptPrefix(samples, mv, thresh, |samples|)
  }

  /** The number of slots in [0, hi) not marked -1. */
  ghost function CountLive(mvd: seq<int>, hi: int): int
    requires 0 <= hi <= |mvd|
  {
    if hi == 0 then 0 else CountLive(mvd, hi - 1) + (if mvd[hi - 1] != -1 then 1 else 0)
  }

  /** The samples in the slots of [0, hi) not marked -1. */
  ghost function LiveSamples(pts: seq<Sample>, mvd: seq<int>, hi: int): multiset<Sample>
    requires 0 <= hi <= |mvd| == |pts|
  {
    if hi == 0 then multiset{}
    else LiveSamples(pts, mvd, hi - 1) + (if mvd[hi - 1] != -1 then multiset{pts[hi - 1]} else multiset{})
  }

  lemma {:induction false} CountLiveBounds(mvd: seq<int>, hi: int)
    requires 0 <= hi <= |mvd|
    ensures 0 <= CountLive(mvd, hi) <= hi
    ensures (forall p :: 0 <= p < hi ==> mvd[p] != -1) ==> CountLive(mvd, hi) == hi
    ensures CountLive(mvd, hi) == hi ==> forall p :: 0 <= p < hi ==> mvd[p] != -1
  {
    if hi > 0 {
      CountLiveBounds(mvd, hi - 1);
    }
  }

  lemma {:induction false} AllLiveSamples(pts: seq<Sample>, mvd: seq<int>, hi: int)
    requires 0 <= hi <= |mvd| == |pts|
    requires forall p :: 0 <= p < hi ==> mvd[p] != -1
    ensures LiveSamples(pts, mvd, hi) == multiset(pts[..hi])
  {
    if hi > 0 {
      AllLiveSamples(pts, mvd, hi - 1);
      assert pts[..hi] == pts[..hi - 1] + [pts[hi - 1]];
    }
  }

  /** Overwriting slot p changes the live count of a range holding p by
      that slot's change, and leaves other ranges alone. */
  lemma {:induction false} CountLiveUpdate(mvd: seq<int>, p: int, v: int, hi: int)
    requires 0 <= p < |mvd| && 0 <= hi <= |mvd|
    ensures CountLive(mvd[p := v], hi)
            == CountLive(mvd, hi) + (if p < hi then (if v != -1 then 1 else 0) - (if mvd[p] != -1 then 1 else 0) else 0)
  {
    if hi > 0 {
      CountLiveUpdate(mvd, p, v, hi - 1);
    }
  }

  /** Overwriting slot p with a live sample s, where it held a hole, adds s
      to the live samples of every range holding p. */
  lemma {:induction false} LiveSamplesFill(pts: seq<Sample>, mvd: seq<int>, p: int, s: Sample, v: int, hi: int)
    requires 0 <= p < |mvd| == |pts| && 0 <= hi <= |mvd|
    requires mvd[p] == -1 && v != -1
    ensures LiveSamples(pts[p := s], mvd[p := v], hi)
            == LiveSamples(pts, mvd, hi) + (if p < hi then multiset{s} else multiset{})
  {
    if hi > 0 {
      var pts', mvd' := pts[p := s], mvd[p := v];
      LiveSamplesFill(pts, mvd, p, s, v, hi - 1);
      var before := LiveSamples(pts, mvd, hi - 1);
      if p == hi - 1 {
        assert LiveSamples(pts', mvd', hi - 1) == before;
        assert LiveSamples(pts, mvd, hi) == before;
        assert LiveSamples(pts', mvd', hi) == before + multiset{s};
      } else {
        var tail := if mvd[hi - 1] != -1 then multiset{pts[hi - 1]} else multiset{};
        assert mvd'[hi - 1] == mvd[hi - 1] && pts'[hi - 1] == pts[hi - 1];
        assert LiveSamples(pts', mvd', hi) == LiveSamples(pts', mvd', hi - 1) + tail;
        assert LiveSamples(pts, mvd, hi) == before + tail;
      }
    }
  }

  /** The state of the compaction loop: every slot before i is live, the
      slots up to j hold exactly the kept samples, and `holes` -1 marks
      remain in the whole array. */
  ghost predicate CompactInvariant(pts: seq<Sample>, mvd: seq<int>, l: int, ret: int, i: int, j: int,
                                   holes: int, kept: multiset<Sample>)
  {
    |pts| == |mvd| == l && 1 <= ret <= l && 0 <= i <= l && -1 <= j < l
    && (forall p :: 0 <= p < i ==> mvd[p] != -1)
    && CountLive(mvd, j + 1) == ret
    && LiveSamples(pts, mvd, j + 1) == kept
    && l - CountLive(mvd, l) == holes
  }

  lemma CompactStep(pts: seq<Sample>, mvd: seq<int>, l: int, ret: int, i: int, j: int,
                    holes: int, kept: multiset<Sample>)
    requires CompactInvariant(pts, mvd, l, ret, i, j, holes, kept)
    requires 0 <= i < j && mvd[i] == -1 && mvd[j] != -1
    ensures CompactInvariant(pts[i := pts[j]], mvd[i := mvd[j]], l, ret, i + 1, j - 1, holes - 1, kept)
  {
    var mvd' := mvd[i := mvd[j]];
    var pts' := pts[i := pts[j]];
    CountLiveUpdate(mvd, i, mvd[j], j + 1);
    CountLiveUpdate(mvd, i, mvd[j], l);
    assert CountLive(mvd', j + 1) == CountLive(mvd', j) + 1;
    LiveSamplesFill(pts, mvd, i, pts[j], mvd[j], j + 1);
    assert LiveSamples(pts', mvd', j + 1) == LiveSamples(pts', mvd', j) + multiset{pts[j]};
    assert LiveSamples(pts', mvd', j) + multiset{pts[j]} == kept + multiset{pts[j]};
    forall x ensures LiveSamples(pts', mvd', j)[x] == kept[x] {
      assert (LiveSamples(pts', mvd', j) + multiset{pts[j]})[x] == (kept + multiset{pts[j]})[x];
    }
    assert LiveSamples(pts', mvd', j) == kept;
  }

  /** Once no hole is left, or i has passed j, the first `ret` slots are
      live and hold the kept samples. */
  lemma CompactDone(pts: seq<Sample>, mvd: seq<int>, l: int, ret: int, i: int, j: int,
                    holes: int, kept: multiset<Sample>)
    requires CompactInvariant(pts, mvd, l, ret, i, j, holes, kept)
    requires holes == 0 || i > j
    ensures ret == j + 1 && multiset(pts[..ret]) == kept
  {
    if holes == 0 {
      CountLiveBounds(mvd, l);
    }
    assert forall p :: 0 <= p < j + 1 ==> mvd[p] != -1;
    CountLiveBounds(mvd, j + 1);
    AllLiveSamples(pts, mvd, j + 1);
  }

  /** The marks of the first loop: the distance of each sample, -1 for a
      dropped one. */
  function Marks(samples: seq<Sample>, mv: Mv, thresh: int): (mvd: seq<int>)
    ensures |mvd| == |samples|
    ensures forall p :: 0 <= p < |samples| ==> (mvd[p] != -1 <==> Kept(samples[p], mv, thresh))
  {
    seq(|samples|, p requires 0 <= p < |samples| => if Mvd(samples[p], mv) > thresh then -1 else Mvd(samples[p], mv))
  }

  /** The live slots of the marks are exactly the kept samples. */
  lemma {:induction false} MarksMatchKept(samples: seq<Sample>, mv: Mv, thresh: int, hi: int)
    requires 0 <= hi <= |samples|
    ensures CountLive(Marks(samples, mv, thresh), hi) == |KeptPrefix(samples, mv, thresh, hi)|
    ensures LiveSamples(samples, Marks(samples, mv, thresh), hi) == multiset(KeptPrefix(samples, mv, thresh, hi))
  {
    if hi > 0 {
      MarksMatchKept(samples, mv, thresh, hi - 1);
    }
  }

  /** The compaction loop of `av1_selectSamples`: holes (-1 marks) are
      filled from the front with live samples taken from the back until all
      `l - ret` holes are filled or the two scans meet. */
  method Compact(pts: seq<Sample>, mvd: seq<int>, ret: int) returns (out: seq<Sample>)
    requires |pts| == |mvd| && 1 <= ret && CountLive(mvd, |mvd|) == ret
    ensures |out| == |pts| && ret <= |pts|
    ensures multiset(out[..ret]) == LiveSamples(pts, mvd, |pts|)
  {
    ghost var kept := LiveSamples(pts, mvd, |pts|);
    var l := |pts|;
    CountLiveBounds(mvd, l);
    out := pts;
    var marks := mvd;
    var i, j, k := 0, l - 1, 0;
    while k < l - ret
      invariant 0 <= k <= l - ret && i < l
      invariant CompactInvariant(out, marks, l, ret, i, j, l - ret - k, kept)
    {
      while marks[i] != -1
        invariant CompactInvariant(out, marks, l, ret, i, j, l - ret - k, kept)
        invariant i < l
        decreases l - i
      {
        if i + 1 == l {
          CountLiveBounds(marks, l);
        }
        i := i + 1;
      }
      while marks[j] == -1
        invariant CompactInvariant(out, marks, l, ret, i, j, l - ret - k, kept)
        invariant 0 <= j
        decreases j
      {
        assert CountLive(marks, j + 1) == CountLive(marks, j);
        CountLiveBounds(marks, j);
        j := j - 1;
      }
      // The two scans stop on different slots: one on a hole, one on a live sample.
      assert i != j;
      if i > j {
        break;
      }
      CompactStep(out, marks, l, ret, i, j, l - ret - k, kept);
      marks := marks[i := marks[j]];
      out := out[i := out[j]];
      i := i + 1;
      j := j - 1;
      k := k + 1;
    }
    CompactDone(out, marks, l, ret, i, j, l - ret - k, kept);
  }

  /** `av1_selectSamples` for a block of size bw x bh. When no sample is
      close enough the samples are left alone and one is reported, so that
      at least one sample is kept; otherwise the kept samples, and only
      they, fill the first `ret` slots. */
  method SelectSamples(mv: Mv, samples: seq<Sample>, bw: int, bh: int) returns (ret: int, out: seq<Sample>)
    requires |samples| <= MaxSamples
    ensures |out| == |samples|
    ensures |KeptSamples(samples, mv, Threshold(bw, bh))| == 0 ==> ret == 1 && out == samples
    ensures |KeptSamples(samples, mv, Threshold(bw, bh))| > 0 ==>
              ret == |KeptSamples(samples, mv, Threshold(bw, bh))|
              && multiset(out[..ret]) == multiset(KeptSamples(samples, mv, Threshold(bw, bh)))
              && forall k :: 0 <= k < ret ==> Kept(out[k], mv, Threshold(bw, bh))
  {
    var thresh := Threshold(bw, bh);
    var mvd := Marks(samples, mv, thresh);
    ret := 0;
    var p := 0;
    while p < |samples|
      invariant 0 <= p <= |samples| && ret == CountLive(mvd, p)
    {
      if mvd[p] != -1 {
        ret := ret + 1;
      }
      p := p + 1;
    }
    MarksMatchKept(samples, mv, thresh, |samples|);
    if ret == 0 {
      return 1, samples;
    }
    out := Compact(samples, mvd, ret);
    forall q | 0 <= q < ret ensures Kept(out[q], mv, thresh) {
      assert out[..ret][q] == out[q];
      assert out[q] in multiset(KeptSamples(samples, mv, thresh));
    }
  }
}
