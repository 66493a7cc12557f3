// Decision helpers of the encoder's frame set-up and partition search:
// reference limiting, global-motion gating, CDF averaging, edge tests, the
// picked-reference mask, fixed partitions, AB-partition flags and delta-q.

module EncodeFrame {
  import opened IntMath
  import opened FrameRefs
  import ReconInter
  import LoopFilter

  // ---------------------------------------------------------------------
  // Reference-frame limits
  // ---------------------------------------------------------------------

  /** `ref_frame_flags` as the set of reference slots (frame minus
      LAST_FRAME) whose AOM_*_FLAG bit is set. */
  predicate ValidRefFlags(flags: set<int>)
  {
    forall s :: s in flags ==> Last <= s <= AltRef
  }

  /** The order in which references are switched off when too many are
      enabled. */
  const DisableOrder: seq<int> := [Last3, Last2, AltRef2, Golden]

  /** The first n references of the disable order. */
  function DisabledBy(n: nat): (d: set<int>)
    requires n <= |DisableOrder|
    ensures forall k :: 0 <= k < |DisableOrder| ==> (DisableOrder[k] in d <==> k < n)
    ensures d <= {Last3, Last2, AltRef2, Golden}
  {
    if n == 0 then {} else DisabledBy(n - 1) + {DisableOrder[n - 1]}
  }

  lemma SubsetCardinality(a: set<int>, b: set<int>)
    requires a <= b
    ensures |a| <= |b|
  {
    assert b == a + (b - a) && a * (b - a) == {};
  }

  /** One more step of the disable order removes exactly its reference,
      and only when it is on. */
  lemma DisableStep(flags: set<int>, r: set<int>, i: nat)
    requires i < |DisableOrder| && r == flags - DisabledBy(i)
    ensures DisableOrder[i] in r ==>
              (r - {DisableOrder[i]} == flags - DisabledBy(i + 1) && |r - {DisableOrder[i]}| == |r| - 1)
    ensures DisableOrder[i] !in r ==> r == flags - DisabledBy(i + 1)
  {
    assert DisabledBy(i + 1) == DisabledBy(i) + {DisableOrder[i]};
  }

  /** One step of the disable loop: the next reference in the order is
      switched off if it is on. */
  function DisableNext(flags: set<int>, r: set<int>, i: nat): (r': set<int>)
    requires i < |DisableOrder| && r == flags - DisabledBy(i)
    ensures r' == flags - DisabledBy(i + 1)
    ensures |r'| == if DisableOrder[i] in r then |r| - 1 else |r|
  {
    DisableStep(flags, r, i);
    if DisableOrder[i] in r then r - {DisableOrder[i]} else r
  }

  lemma DisabledByGrows(i: nat)
    requires i <= |DisableOrder|
    ensures DisabledBy(i) <= DisabledBy(4)
  {
  }

  /** `get_max_allowed_ref_frames`: seven references, six at the faster
      selective-reference speeds, and no more than the configured maximum.
      The comparison is unsigned, so a negative maximum imposes no limit. */
  function MaxAllowedRefFrames(selectiveRefFrame: int, maxReferenceFrames: int): (r: int)
    ensures r <= InterRefsPerFrame && (selectiveRefFrame >= 3 ==> r <= InterRefsPerFrame - 1)
    ensures maxReferenceFrames >= 0 ==> r <= maxReferenceFrames
    ensures r == maxReferenceFrames || r == (if selectiveRefFrame >= 3 then InterRefsPerFrame - 1 else InterRefsPerFrame)
    ensures maxReferenceFrames >= 3 ==> r >= 3
  {
    var forSpeed := if selectiveRefFrame >= 3 then InterRefsPerFrame - 1 else InterRefsPerFrame;
    if maxReferenceFrames < 0 then forSpeed else Min(forSpeed, maxReferenceFrames)
  }

  /** `enforce_max_ref_frames`: switch off LAST3, LAST2, ALTREF2 and GOLDEN,
      in that order and only those that are on, until no more than
      `maxAllowed` references remain or the order is exhausted. */
  method EnforceMaxRefFrames(flags: set<int>, maxAllowed: int) returns (r: set<int>)
    requires ValidRefFlags(flags)
    ensures r <= flags && flags - r <= DisabledBy(4)
    ensures |flags| <= maxAllowed ==> r == flags
    ensures |flags| > maxAllowed ==> |r| == Max(maxAllowed, |flags - DisabledBy(4)|)
    ensures forall i, j :: (0 <= i < j < |DisableOrder| && DisableOrder[i] in r && DisableOrder[j] in flags)
              ==> DisableOrder[j] in r
    ensures maxAllowed >= 3 ==> |r| <= maxAllowed
  {
    var stopped;
    r, stopped := DisableInOrder(flags, maxAllowed);
    DisableOutcome(flags, maxAllowed, stopped);
  }

  /** The loop of `enforce_max_ref_frames`: the references switched off are
      the first `stopped` of the disable order, and it stops early only once
      the count is within the limit. */
  method DisableInOrder(flags: set<int>, maxAllowed: int) returns (r: set<int>, stopped: nat)
    ensures stopped <= 4 && r == flags - DisabledBy(stopped)
    ensures stopped == 4 || |r| <= maxAllowed
    ensures |flags| > maxAllowed ==> |r| >= maxAllowed
    ensures |flags| <= maxAllowed ==> stopped == 0
  {
    var total := |flags|;
    r := flags;
    stopped := 0;
    while stopped < 4 && total > maxAllowed
      invariant 0 <= stopped <= 4
      invariant r == flags - DisabledBy(stopped)
      invariant total == |r|
      invariant |flags| > maxAllowed ==> total >= maxAllowed
      invariant |flags| <= maxAllowed ==> stopped == 0
      decreases 4 - stopped
    {
      if DisableOrder[stopped] in r {
        total := total - 1;
      }
      r := DisableNext(flags, r, stopped);
      stopped := stopped + 1;
    }
  }

  /** What stopping after the first i disables means for the count. */
  lemma DisableOutcome(flags: set<int>, maxAllowed: int, i: nat)
    requires ValidRefFlags(flags) && i <= 4
    requires i == 4 || |flags - DisabledBy(i)| <= maxAllowed
    requires |flags| > maxAllowed ==> |flags - DisabledBy(i)| >= maxAllowed
    ensures |flags| > maxAllowed ==> |flags - DisabledBy(i)| == Max(maxAllowed, |flags - DisabledBy(4)|)
    ensures maxAllowed >= 3 ==> |flags - DisabledBy(i)| <= maxAllowed
    ensures flags - (flags - DisabledBy(i)) <= DisabledBy(4)
    ensures forall a, b :: (0 <= a < b < |DisableOrder| && DisableOrder[a] in flags - DisabledBy(i)
              && DisableOrder[b] in flags) ==> DisableOrder[b] in flags - DisabledBy(i)
  {
    SubsetCardinality(flags - DisabledBy(4), flags - DisabledBy(i));
    AlwaysKeptAtMostThree(flags);
    DisabledByGrows(i);
  }

  /** LAST, BWDREF and ALTREF are never switched off, so at most three
      references survive the whole disable order. */
  lemma AlwaysKeptAtMostThree(flags: set<int>)
    requires ValidRefFlags(flags)
    ensures |flags - DisabledBy(4)| <= 3
  {
    var d := DisabledBy(4);
    assert Last3 in d && Last2 in d && AltRef2 in d && Golden in d;
    forall s | s in flags - d
      ensures s in {Last, BwdRef, AltRef}
    {
      assert Last <= s <= AltRef;
    }
    SubsetCardinality(flags - d, {Last, BwdRef, AltRef});
  }

  // ---------------------------------------------------------------------
  // Global-motion search gating
  // ---------------------------------------------------------------------

  /** `sf->gm_search_type`, from the most to the least searching. */
  datatype GmSearchType =
    | GmFullSearch
    | GmReducedRefSearchSkipL2L3
    | GmReducedRefSearchSkipL2L3Arf2
    | GmDisableSearch

  /** The references a search type leaves out of the global-motion search. */
  function GmSkipped(searchType: GmSearchType): set<int>
  {
    match searchType
    case GmFullSearch => {}
    case GmReducedRefSearchSkipL2L3 => {Last2, Last3}
    case GmReducedRefSearchSkipL2L3Arf2 => {Last2, Last3, AltRef2}
    case GmDisableSearch => {Last, Last2, Last3, Golden, BwdRef, AltRef2, AltRef}
  }

  /** `do_gm_search_logic`, the frame given as its reference slot. */
  function DoGmSearchLogic(searchType: GmSearchType, frame: int): (search: bool)
    requires Last <= frame <= AltRef
    ensures search <==> frame !in GmSkipped(searchType)
  {
    match searchType
    case GmFullSearch => true
    case GmReducedRefSearchSkipL2L3 => !(frame == Last2 || frame == Last3)
    case GmReducedRefSearchSkipL2L3Arf2 => !(frame == Last2 || frame == Last3 || frame == AltRef2)
    case GmDisableSearch => false
  }

  function GmRank(searchType: GmSearchType): nat
  {
    match searchType
    case GmFullSearch => 0
    case GmReducedRefSearchSkipL2L3 => 1
    case GmReducedRefSearchSkipL2L3Arf2 => 2
    case GmDisableSearch => 3
  }

  /** Each search type searches a subset of the frames the one before it
      searches. */
  lemma GmSearchNested(t1: GmSearchType, t2: GmSearchType, frame: int)
    requires Last <= frame <= AltRef && GmRank(t1) <= GmRank(t2)
    ensures DoGmSearchLogic(t2, frame) ==> DoGmSearchLogic(t1, frame)
  {
  }

  // ---------------------------------------------------------------------
  // CDF averaging
  // ---------------------------------------------------------------------

  const CdfProbTop := 32768

  predicate InProbRange(p: int)
  {
    0 <= p < CdfProbTop
  }

  /** One entry of `avg_cdf_symbol`: the weighted mean rounded half up, which
      lies between its two inputs. */
  function AvgCdfEntry(left: int, tr: int, wl: nat, wt: nat): (r: int)
    requires wl + wt > 0
    ensures Min(left, tr) <= r <= Max(left, tr)
  {
    var n := wl + wt;
    var lo, hi := Min(left, tr), Max(left, tr);
    var x := left * wl + tr * wt + n / 2;
    MulLeAny(lo, left, wl);
    MulLeAny(lo, tr, wt);
    MulLeAny(left, hi, wl);
    MulLeAny(tr, hi, wt);
    assert n * lo == lo * wl + lo * wt && n * hi == hi * wl + hi * wt;
    DivBetween(x, n, lo, hi);
    x / n
  }

  /** The averaged entry grows with either input. */
  lemma AvgCdfEntryMonotone(l1: int, t1: int, l2: int, t2: int, wl: nat, wt: nat)
    requires wl + wt > 0 && l1 <= l2 && t1 <= t2
    ensures AvgCdfEntry(l1, t1, wl, wt) <= AvgCdfEntry(l2, t2, wl, wt)
  {
    MulLeAny(l1, l2, wl);
    MulLeAny(t1, t2, wt);
    DivMonotone(l1 * wl + t1 * wt + (wl + wt) / 2, l2 * wl + t2 * wt + (wl + wt) / 2, wl + wt);
  }

  /** `avg_cdf_symbol` over `numCdfs` CDFs, each a row of its own: entries
      0..nsymbs of every row become the weighted average of the left and
      top-right CDFs, the rest of the rows untouched. */
  method AvgCdfSymbol(left: seq<seq<int>>, tr: seq<seq<int>>, numCdfs: nat, nsymbs: nat, wl: nat, wt: nat)
    returns (r: seq<seq<int>>)
    requires numCdfs <= |left| && |left| == |tr| && wl + wt > 0
    requires forall i :: 0 <= i < numCdfs ==> nsymbs < |left[i]| && |left[i]| == |tr[i]|
    ensures |r| == |left|
    ensures forall i :: numCdfs <= i < |r| ==> r[i] == left[i]
    ensures forall i :: 0 <= i < numCdfs ==> |r[i]| == |left[i]|
    ensures forall i, j :: 0 <= i < numCdfs && 0 <= j < |left[i]| ==>
              r[i][j] == if j <= nsymbs then AvgCdfEntry(left[i][j], tr[i][j], wl, wt) else left[i][j]
    ensures forall i, j :: 0 <= i < numCdfs && 0 <= j <= nsymbs && InProbRange(left[i][j]) && InProbRange(tr[i][j])
              ==> InProbRange(r[i][j])
  {
    r := left;
    var i := 0;
    while i < numCdfs
      invariant 0 <= i <= numCdfs
      invariant |r| == |left|
      invariant forall i' :: i <= i' < |r| ==> r[i'] == left[i']
      invariant forall i' :: 0 <= i' < i ==> |r[i']| == |left[i']|
      invariant forall i', j :: 0 <= i' < i && 0 <= j < |left[i']| ==>
                  r[i'][j] == if j <= nsymbs then AvgCdfEntry(left[i'][j], tr[i'][j], wl, wt) else left[i'][j]
    {
      var row := left[i];
      var j := 0;
      while j <= nsymbs
        invariant 0 <= j <= nsymbs + 1
        invariant |row| == |left[i]|
        invariant forall j' :: 0 <= j' < |row| ==>
                    row[j'] == if j' < j then AvgCdfEntry(left[i][j'], tr[i][j'], wl, wt) else left[i][j']
      {
        row := row[j := AvgCdfEntry(row[j], tr[i][j], wl, wt)];
        j := j + 1;
      }
      r := r[i := row];
      i := i + 1;
    }
  }

  /** Averaging keeps a CDF's order: if both inputs are non-increasing over
      the averaged entries, so is the result. */
  lemma AvgCdfKeepsOrder(left: seq<int>, tr: seq<int>, nsymbs: nat, wl: nat, wt: nat, j: nat, k: nat)
    requires wl + wt > 0 && |left| == |tr| && nsymbs < |left| && j <= k <= nsymbs
    requires left[k] <= left[j] && tr[k] <= tr[j]
    ensures AvgCdfEntry(left[k], tr[k], wl, wt) <= AvgCdfEntry(left[j], tr[j], wl, wt)
  {
    AvgCdfEntryMonotone(left[k], tr[k], left[j], tr[j], wl, wt);
  }

  // ---------------------------------------------------------------------
  // Active image edges
  // ---------------------------------------------------------------------

  /** The two edges `active_h_edge` (top, bottom) and `active_v_edge` (left,
      right) look for: the frame's own edges, or in the second pass the
      edges moved inward past the inactive border, the far edge never
      before the near one. */
  function FrameEdges(extent: int, twoPass: bool, inactiveZone: int): (e: (int, int))
    ensures !twoPass ==> e == (0, extent)
    ensures twoPass ==> e.0 == 2 * inactiveZone && e.0 <= e.1
    ensures twoPass && 4 * inactiveZone <= extent ==> e.1 == extent - 2 * inactiveZone
  {
    if twoPass then
      var near := 2 * inactiveZone;
      (near, Max(near, extent - 2 * inactiveZone))
    else
      (0, extent)
  }

  /** `active_h_edge`/`active_v_edge`: the block [pos, pos + step) holds one
      of the edges. */
  predicate ActiveEdge(extent: int, twoPass: bool, inactiveZone: int, pos: int, step: int)
  {
    var e := FrameEdges(extent, twoPass, inactiveZone);
    (pos <= e.0 < pos + step) || (pos <= e.1 < pos + step)
  }

  lemma InBlock(e: int, step: int, k: int)
    requires step > 0 && e >= 0
    ensures k * step <= e < k * step + step <==> k == e / step
  {
    if k == e / step {
      DivBetween(e, step, k, k);
      assert e == step * (e / step) + e % step;
    } else if k * step <= e < k * step + step {
      DivOfRange(e, step, k);
    }
  }

  /** On a grid of blocks of `step` units, a block is active exactly when it
      is the block that contains the near or the far edge. */
  lemma ActiveEdgeIsEdgeBlock(extent: int, twoPass: bool, inactiveZone: int, step: int, k: int)
    requires step > 0
    requires FrameEdges(extent, twoPass, inactiveZone).0 >= 0 && FrameEdges(extent, twoPass, inactiveZone).1 >= 0
    ensures var e := FrameEdges(extent, twoPass, inactiveZone);
            ActiveEdge(extent, twoPass, inactiveZone, k * step, step) <==> k == e.0 / step || k == e.1 / step
  {
    var e := FrameEdges(extent, twoPass, inactiveZone);
    InBlock(e.0, step, k);
    InBlock(e.1, step, k);
  }

  // ---------------------------------------------------------------------
  // Picked reference frames
  // ---------------------------------------------------------------------

  /** Side of `picked_ref_frames_mask`, one cell per mi of a 128x128
      superblock. */
  const PickedMaskSide := 32

  /** Cell k of the mask lies in rows [r0, r1) and columns [c0, c1). */
  predicate InRect(k: int, r0: int, r1: int, c0: int, c1: int)
  {
    r0 <= k / PickedMaskSide < r1 && c0 <= k % PickedMaskSide < c1
  }

  /** The mask with `refType` added to every cell of the size x size square
      at (row, col). */
  function MarkSquare(mask: seq<set<int>>, refType: int, row: int, col: int, size: int): seq<set<int>>
  {
    seq(|mask|, k requires 0 <= k < |mask| =>
      if InRect(k, row, row + size, col, col + size) then mask[k] + {refType} else mask[k])
  }

  /** `update_picked_ref_frames_mask`: set bit `refType` in the cells of the
      square block at its position inside the superblock (the row and column
      masked by the superblock size, a power of two). */
  method UpdatePickedRefFramesMask(mask: seq<set<int>>, refType: int, miSize: nat, mibSize: nat,
                                   miRow: nat, miCol: nat) returns (r: seq<set<int>>)
    requires |mask| == PickedMaskSide * PickedMaskSide
    requires mibSize == 16 || mibSize == 32
    requires miRow % mibSize + miSize <= mibSize && miCol % mibSize + miSize <= mibSize
    ensures |r| == |mask|
    ensures forall k :: 0 <= k < |r| ==>
              r[k] == if InRect(k, miRow % mibSize, miRow % mibSize + miSize, miCol % mibSize, miCol % mibSize + miSize)
                      then mask[k] + {refType} else mask[k]
    ensures r == MarkSquare(mask, refType, miRow % mibSize, miCol % mibSize, miSize)
  {
    var row0, col0 := miRow % mibSize, miCol % mibSize;
    r := mask;
    var i := row0;
    while i < row0 + miSize
      invariant row0 <= i <= row0 + miSize
      invariant |r| == |mask|
      invariant forall k :: 0 <= k < |r| ==>
                  r[k] == if InRect(k, row0, i, col0, col0 + miSize) then mask[k] + {refType} else mask[k]
    {
      var j := col0;
      while j < col0 + miSize
        invariant col0 <= j <= col0 + miSize
        invariant |r| == |mask|
        invariant forall k :: 0 <= k < |r| ==>
                    r[k] == if InRect(k, row0, i, col0, col0 + miSize) || InRect(k, i, i + 1, col0, j)
                            then mask[k] + {refType} else mask[k]
      {
        var cell := i * PickedMaskSide + j;
        DivOfRange(cell, PickedMaskSide, i);
        r := r[cell := r[cell] + {refType}];
        j := j + 1;
      }
      i := i + 1;
    }
  }

  /** Marking the same square twice is marking it once. */
  lemma MarkSquareIdempotent(mask: seq<set<int>>, refType: int, row: int, col: int, size: int)
    ensures MarkSquare(MarkSquare(mask, refType, row, col, size), refType, row, col, size)
            == MarkSquare(mask, refType, row, col, size)
  {
  }

  // ---------------------------------------------------------------------
  // Fixed partition from variance
  // ---------------------------------------------------------------------

  const Block8x8 := 3
  const Block16x16 := 6
  const Block32x32 := 9
  const Block64x64 := 12
  const Block128x128 := 15

  /** `get_rd_var_based_fixed_partition`: the square block size for a
      superblock's per-pixel variance, the thresholds 8, 128 and 2048. */
  function RdVarBasedFixedPartition(variance: nat): (bs: int)
    ensures bs == Block64x64 || bs == Block32x32 || bs == Block16x16 || bs == Block8x8
    ensures bs == Block64x64 <==> variance < 8
    ensures bs == Block32x32 <==> 8 <= variance < 128
    ensures bs == Block16x16 <==> 128 <= variance < 2048
    ensures bs == Block8x8 <==> variance >= 2048
  {
    if variance < 8 then Block64x64
    else if variance < 128 then Block32x32
    else if variance < 2048 then Block16x16
    else Block8x8
  }

  /** A smoother superblock is never given a smaller block, and the block is
      square. */
  lemma VarPartitionMonotone(v1: nat, v2: nat)
    requires v1 <= v2
    ensures ReconInter.BlockWide[RdVarBasedFixedPartition(v2)] <= ReconInter.BlockWide[RdVarBasedFixedPartition(v1)]
    ensures ReconInter.BlockWide[RdVarBasedFixedPartition(v1)] == ReconInter.BlockHigh[RdVarBasedFixedPartition(v1)]
  {
  }

  // ---------------------------------------------------------------------
  // AB-partition flags
  // ---------------------------------------------------------------------

  /** The four flags `ml_prune_ab_partition` sets. */
  datatype AbPartitionAllowed = AbPartitionAllowed(horzA: bool, horzB: bool, vertA: bool, vertB: bool)

  /** Flag b of the four: 0 HORZ_A, 1 HORZ_B, 2 VERT_A, 3 VERT_B. */
  function Allows(f: AbPartitionAllowed, b: int): bool
  {
    if b == 0 then f.horzA else if b == 1 then f.horzB else if b == 2 then f.vertA else f.vertB
  }

  const AbLabels := 16
  const LabelBitValues: seq<nat> := [1, 2, 4, 8]
  const AbScoreFloor := -1000
  const AbRdLimit := 1000000000

  /** `(label >> b) & 1`: bit b of the label index. */
  predicate LabelHasBit(labelIndex: nat, b: int)
    requires 0 <= b < 4
  {
    (labelIndex / LabelBitValues[b]) % 2 == 1
  }

  /** The largest of the first n scores, starting from the floor -1000. */
  function MaxScore(scores: seq<int>, n: nat): (m: int)
    requires n <= |scores|
    ensures m >= AbScoreFloor
    ensures forall i :: 0 <= i < n ==> scores[i] <= m
    ensures m == AbScoreFloor || exists i :: 0 <= i < n && scores[i] == m
  {
    if n == 0 then AbScoreFloor else Max(scores[n - 1], MaxScore(scores, n - 1))
  }

  /** Label i reaches the threshold and names flag b. */
  predicate Passes(scores: seq<int>, thresh: int, i: int, b: int)
    requires 0 <= i < |scores| && 0 <= b < 4
  {
    scores[i] >= thresh && LabelHasBit(i, b)
  }

  /** Some label among the first n passes for flag b. */
  predicate AnyPasses(scores: seq<int>, thresh: int, n: nat, b: int)
    requires n <= |scores| && 0 <= b < 4
  {
    exists i :: 0 <= i < n && Passes(scores, thresh, i, b)
  }

  lemma AnyPassesStep(scores: seq<int>, thresh: int, n: nat, b: int)
    requires 0 < n <= |scores| && 0 <= b < 4
    ensures AnyPasses(scores, thresh, n, b) <==> AnyPasses(scores, thresh, n - 1, b) || Passes(scores, thresh, n - 1, b)
  {
    if AnyPasses(scores, thresh, n, b) {
      var i :| 0 <= i < n && Passes(scores, thresh, i, b);
      if i < n - 1 {
        assert 0 <= i < n - 1 && Passes(scores, thresh, i, b);
      }
    }
  }

  /** The flags with label i's bits added. */
  function AddLabel(f: AbPartitionAllowed, i: nat): (g: AbPartitionAllowed)
    ensures forall b :: 0 <= b < 4 ==> (Allows(g, b) <==> Allows(f, b) || LabelHasBit(i, b))
  {
    AbPartitionAllowed(f.horzA || LabelHasBit(i, 0), f.horzB || LabelHasBit(i, 1),
                       f.vertA || LabelHasBit(i, 2), f.vertB || LabelHasBit(i, 3))
  }

  /** The flags after the first n labels: a flag is set by every label
      scoring at least the threshold whose matching bit is set. */
  function AllowedUpTo(scores: seq<int>, thresh: int, n: nat): (f: AbPartitionAllowed)
    requires n <= |scores|
    ensures forall b :: 0 <= b < 4 ==> (Allows(f, b) <==> AnyPasses(scores, thresh, n, b))
  {
    if n == 0 then AbPartitionAllowed(false, false, false, false)
    else
      var f := AllowedUpTo(scores, thresh, n - 1);
      var i := n - 1;
      var g := if scores[i] >= thresh then AddLabel(f, i) else f;
      assert forall b :: 0 <= b < 4 ==> (Allows(g, b) <==> AnyPasses(scores, thresh, n, b)) by {
        forall b | 0 <= b < 4 {
          AnyPassesStep(scores, thresh, n, b);
        }
      }
      g
  }

  /** The model runs only for the square sizes 16x16 to 128x128 and a finite
      best cost. */
  predicate AbModelApplies(bsize: int, bestRd: int)
  {
    bestRd < AbRdLimit
    && (bsize == Block16x16 || bsize == Block32x32 || bsize == Block64x64 || bsize == Block128x128)
  }

  /** The score a label must reach: the best score, lowered by 150 for 16x16
      and by 100 for 32x32. */
  function AbThreshold(bsize: int, maxScore: int): int
  {
    if bsize == Block16x16 then maxScore - 150
    else if bsize == Block32x32 then maxScore - 100
    else maxScore
  }

  /** The flag decode of `ml_prune_ab_partition`, from the integer scores of
      the 16 labels. */
  function MlPruneAbPartition(bsize: int, bestRd: int, scores: seq<int>, prev: AbPartitionAllowed)
    : (f: AbPartitionAllowed)
    requires |scores| == AbLabels
    ensures !AbModelApplies(bsize, bestRd) ==> f == prev
    ensures AbModelApplies(bsize, bestRd) ==> forall b :: 0 <= b < 4 ==>
              (Allows(f, b) <==> AnyPasses(scores, AbThreshold(bsize, MaxScore(scores, AbLabels)), AbLabels, b))
  {
    if !AbModelApplies(bsize, bestRd) then prev
    else AllowedUpTo(scores, AbThreshold(bsize, MaxScore(scores, AbLabels)), AbLabels)
  }

  /** The best-scoring label always passes, so every partition it names is
      allowed, unless all scores are below the floor. */
  lemma TopLabelAllowed(bsize: int, bestRd: int, scores: seq<int>, prev: AbPartitionAllowed, top: nat, b: int)
    requires |scores| == AbLabels && AbModelApplies(bsize, bestRd)
    requires top < AbLabels && scores[top] >= AbScoreFloor
    requires forall i :: 0 <= i < AbLabels ==> scores[i] <= scores[top]
    requires 0 <= b < 4 && LabelHasBit(top, b)
    ensures Allows(MlPruneAbPartition(bsize, bestRd, scores, prev), b)
  {
    var m := MaxScore(scores, AbLabels);
    assert m == scores[top];
    assert Passes(scores, AbThreshold(bsize, m), top, b);
  }

  /** A lower threshold allows at least the partitions a higher one does. */
  lemma AllowedAntitone(scores: seq<int>, t1: int, t2: int, b: int)
    requires |scores| == AbLabels && t1 <= t2 && 0 <= b < 4
    ensures Allows(AllowedUpTo(scores, t2, AbLabels), b) ==> Allows(AllowedUpTo(scores, t1, AbLabels), b)
  {
    if AnyPasses(scores, t2, AbLabels, b) {
      var i :| 0 <= i < AbLabels && Passes(scores, t2, i, b);
      assert Passes(scores, t1, i, b);
    }
  }

  // ---------------------------------------------------------------------
  // Delta-q and delta-lf of a superblock
  // ---------------------------------------------------------------------

  const MaxQindex := 255

  /** The resolutions delta-q and delta-lf are coded at. */
  predicate ValidDeltaRes(res: int)
  {
    res == 1 || res == 2 || res == 4 || res == 8
  }

  /** `x & ~(res - 1)` for a power-of-two res: x rounded down to a multiple
      of res. */
  function RoundDownToMultiple(x: int, res: int): (r: int)
    requires res > 0
    ensures r % res == 0 && r <= x < r + res
  {
    var q := x / res;
    assert x == q * res + x % res;
    DivOfRange(q * res, res, q);
    q * res
  }

  /** `current_qindex` of `setup_delta_q`: base plus offset clamped to
      [res, 256 - res], then its distance from the base rounded to the
      nearest multiple of res. The result is not clamped again. */
  function DeltaQindex(baseQindex: int, offsetQindex: int, deltaQRes: int): (q: int)
    requires ValidDeltaRes(deltaQRes)
    ensures (q - baseQindex) % deltaQRes == 0
    ensures var c := Clamp(baseQindex + offsetQindex, deltaQRes, 256 - deltaQRes);
            q - baseQindex <= c - baseQindex + deltaQRes / 2 < q - baseQindex + deltaQRes
    ensures 0 < q <= MaxQindex
  {
    var c := Clamp(baseQindex + offsetQindex, deltaQRes, 256 - deltaQRes);
    RoundDownToMultiple(c - baseQindex + deltaQRes / 2, deltaQRes) + baseQindex
  }

  /** Skipping the second clamp can leave the clamp's range: a base of 5 at
      resolution 8 gives 5, below 8. */
  lemma DeltaQindexBelowClampRange()
    ensures DeltaQindex(5, 0, 8) == 5
  {
  }

  /** `delta_lf_from_base`: half the offset, rounded to the nearest multiple
      of the loop-filter resolution, and stored clamped to the loop-filter
      range. */
  function DeltaLfFromBase(offsetQindex: int, deltaLfRes: int): (lf: int)
    requires ValidDeltaRes(deltaLfRes)
    ensures -LoopFilter.MaxLoopFilter <= lf <= LoopFilter.MaxLoopFilter
    ensures var d := CDiv(offsetQindex, 2) + deltaLfRes / 2;
            -LoopFilter.MaxLoopFilter <= RoundDownToMultiple(d, deltaLfRes) <= LoopFilter.MaxLoopFilter
            ==> lf % deltaLfRes == 0 && lf <= d < lf + deltaLfRes
  {
    var d := RoundDownToMultiple(CDiv(offsetQindex, 2) + deltaLfRes / 2, deltaLfRes);
    Clamp(d, -LoopFilter.MaxLoopFilter, LoopFilter.MaxLoopFilter)
  }

  /** The clamp can break the multiple: an offset of 120 at resolution 8
      rounds to 64 and is stored as 63. */
  lemma DeltaLfClampBreaksMultiple()
    ensures DeltaLfFromBase(120, 8) == 63 && 63 % 8 != 0
  {
  }
}
