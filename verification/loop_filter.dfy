/** Loop-filter level tables and edge-mask arithmetic: sharpness limits,
    the per-segment level table, the per-block level, the bit positions of
    4x4 and 8x8 units in the 64-bit masks, and the normalisation of the
    per-transform-size masks. A mask is the set of its bit positions below 64,
    standing for the codec's `uint64_t`. */
module LoopFilter {
  import opened IntMath
  import opened Wrappers

  const MaxLoopFilter := 63
  const MaxSegments := 8
  const TotalRefsPerFrame := 8
  const MaxModeLfDeltas := 2
  const IntraFrame := 0
  const MbModeCount := 25
  const IntraModes := 13
  /** Prediction modes whose loop-filter mode class is 0 among inter modes. */
  const GlobalMv := 15
  const GlobalGlobalMv := 23

  // ---------------------------------------------------------------------
  // Mode classes and filter thresholds
  // ---------------------------------------------------------------------

  const ModeLfLut: seq<int> :=
    [0, 0, 0, 0, 0, 0, 0, 0, 0, 0, 0, 0, 0,
     1, 1, 0, 1,
     1, 1, 1, 1, 1, 1, 0, 1]

  /** `mode_lf_lut`: the mode-delta class of a prediction mode: 0 for every
      intra mode and the two global-motion modes, 1 for every other mode. */
  function ModeLf(mode: int): (c: int)
    requires 0 <= mode < MbModeCount
    ensures c == 0 || c == 1
    ensures c == 0 <==> mode < IntraModes || mode == GlobalMv || mode == GlobalGlobalMv
  {
    ModeLfLut[mode]
  }

  /** Limits for one filter level: interior limit, edge limit, and the
      high-edge-variance threshold. */
  datatype LfThresh = LfThresh(lim: int, mblim: int, hevThr: int)

  /** The interior limit of `update_sharpness`: the level shifted down by
      one for sharpness 1..4 and by two above, capped at 9 - sharpness when
      sharpness is positive, and at least 1. */
  function InsideLimit(lvl: nat, sharpness: int): (lim: int)
    ensures lim >= 1
    ensures sharpness > 0 ==> lim <= Max(1, 9 - sharpness)
    ensures sharpness <= 0 ==> lim == Max(1, lvl)
    ensures lim <= Max(1, lvl)
  {
    var shift := (if sharpness > 0 then 1 else 0) + (if sharpness > 4 then 1 else 0);
    var limit := Shr(lvl, shift);
    var limit := if sharpness > 0 && limit > 9 - sharpness then 9 - sharpness else limit;
    if limit < 1 then 1 else limit
  }

  lemma ShrMonotone(a: nat, b: nat, n: nat)
    requires a <= b
    ensures Shr(a, n) <= Shr(b, n)
  {
    DivBetween(a, Pow2(n), 0, Shr(b, n));
  }

  lemma ShrAntitone(a: nat, n: nat, m: nat)
    requires n <= m
    ensures Shr(a, m) <= Shr(a, n)
  {
    Pow2Monotone(n, m);
    DivByLarger(a, Pow2(n), Pow2(m));
  }

  lemma DivDiv(a: nat, b: nat, c: nat)
    requires b > 0 && c > 0
    ensures a / (b * c) == (a / b) / c
  {
    var q := a / b;
    var r := a % b;
    var q2 := q / c;
    var r2 := q % c;
    assert a == b * (c * q2 + r2) + r;
    assert a == (b * c) * q2 + (b * r2 + r);
    assert 0 <= b * r2 + r < b * c by {
      MulLe(b, r2, c - 1);
    }
    DivOfRange(a, b * c, q2);
  }

  lemma MulLe(b: nat, x: nat, y: nat)
    requires x <= y
    ensures b * x <= b * y
  {
  }

  /** A higher level never gets a smaller interior limit. */
  lemma InsideLimitMonotoneInLevel(lvl1: nat, lvl2: nat, sharpness: int)
    requires lvl1 <= lvl2
    ensures InsideLimit(lvl1, sharpness) <= InsideLimit(lvl2, sharpness)
  {
    var shift := (if sharpness > 0 then 1 else 0) + (if sharpness > 4 then 1 else 0);
    ShrMonotone(lvl1, lvl2, shift);
  }

  /** A sharper setting never gets a larger interior limit. */
  lemma InsideLimitAntitoneInSharpness(lvl: nat, s1: int, s2: int)
    requires 0 <= s1 <= s2
    ensures InsideLimit(lvl, s2) <= InsideLimit(lvl, s1)
  {
    var n1 := (if s1 > 0 then 1 else 0) + (if s1 > 4 then 1 else 0);
    var n2 := (if s2 > 0 then 1 else 0) + (if s2 > 4 then 1 else 0);
    ShrAntitone(lvl, n1, n2);
  }

  /** `update_sharpness` and `av1_loop_filter_init`: the limits of every
      level 0..MAX_LOOP_FILTER. The edge limit adds twice (level + 2) to the
      interior limit; the high-edge-variance threshold is the level over 16. */
  function LoopFilterInit(sharpness: int): (t: seq<LfThresh>)
    ensures |t| == MaxLoopFilter + 1
    ensures forall lvl :: 0 <= lvl <= MaxLoopFilter ==>
              t[lvl].lim >= 1 && t[lvl].mblim == 2 * (lvl + 2) + t[lvl].lim
              && (sharpness > 0 ==> t[lvl].lim <= 9 - sharpness || t[lvl].lim == 1)
              && 0 <= t[lvl].hevThr <= 3 && 16 * t[lvl].hevThr <= lvl < 16 * t[lvl].hevThr + 16
  {
    Pow2Values();
    seq(MaxLoopFilter + 1, lvl requires 0 <= lvl =>
      var lim := InsideLimit(lvl, sharpness);
      LfThresh(lim, 2 * (lvl + 2) + lim, Shr(lvl, 4)))
  }

  // ---------------------------------------------------------------------
  // Level tables
  // ---------------------------------------------------------------------

  /** Segment features of the per-plane, per-direction loop-filter deltas. */
  const SegLvlAltLfYV := 1
  const SegLvlAltLfYH := 2
  const SegLvlAltLfU := 3
  const SegLvlAltLfV := 4
  const SegLvlMax := 8

  /** `seg_lvl_lf_lut`: the feature for a plane and a direction. */
  function SegLvlLf(plane: int, dir: int): (f: int)
    requires 0 <= plane <= 2 && 0 <= dir <= 1
    ensures SegLvlAltLfYV <= f <= SegLvlAltLfV
    ensures plane > 0 ==> f == SegLvlAltLfU + plane - 1
  {
    if plane == 0 then (if dir == 0 then SegLvlAltLfYV else SegLvlAltLfYH)
    else if plane == 1 then SegLvlAltLfU else SegLvlAltLfV
  }

  /** `delta_lf_id_lut`: which of the block's delta-LF values a plane and
      direction use. */
  function DeltaLfId(plane: int, dir: int): (id: int)
    requires 0 <= plane <= 2 && 0 <= dir <= 1
    ensures 0 <= id < 4
    ensures plane > 0 ==> id == plane + 1
  {
    if plane == 0 then dir else plane + 1
  }

  /** A segment's feature data, `None` where the feature is not active. */
  predicate WellFormedSegData(segData: seq<seq<Option<int>>>)
  {
    |segData| == MaxSegments && forall s :: 0 <= s < MaxSegments ==> |segData[s]| == SegLvlMax
  }

  /** A level adjusted by an active segment feature and clamped. */
  function SegmentLevel(lvl: int, feature: Option<int>): (r: int)
    ensures feature.None? ==> r == lvl
    ensures feature.Some? ==> 0 <= r <= MaxLoopFilter
    ensures feature.Some? && 0 <= lvl + feature.value <= MaxLoopFilter ==> r == lvl + feature.value
  {
    if feature.Some? then Clamp(lvl + feature.value, 0, MaxLoopFilter) else lvl
  }

  /** The position of entry [seg][dir][ref][mode] in the flattened table. */
  function LevelIndex(seg: int, dir: int, ref: int, mode: int): (k: int)
    requires 0 <= seg < MaxSegments && 0 <= dir < 2 && 0 <= ref < TotalRefsPerFrame && 0 <= mode < MaxModeLfDeltas
    ensures 0 <= k < LevelTableSize
  {
    ((seg * 2 + dir) * TotalRefsPerFrame + ref) * MaxModeLfDeltas + mode
  }

  const LevelTableSize := MaxSegments * 2 * TotalRefsPerFrame * MaxModeLfDeltas

  /** The loop-filter deltas of the frame header. */
  datatype LfDeltas = LfDeltas(enabled: bool, refDeltas: seq<int>, modeDeltas: seq<int>)

  predicate WellFormedDeltas(d: LfDeltas)
  {
    |d.refDeltas| == TotalRefsPerFrame && |d.modeDeltas| == MaxModeLfDeltas
  }

  /** The entry written for [ref][mode] from a segment level, or the previous
      entry where the codec writes nothing: with deltas enabled, the intra
      row has only its mode-0 entry written. */
  function TableEntry(lvlSeg: int, d: LfDeltas, ref: int, mode: int, prev: int): int
    requires WellFormedDeltas(d) && 0 <= lvlSeg <= MaxLoopFilter
    requires 0 <= ref < TotalRefsPerFrame && 0 <= mode < MaxModeLfDeltas
  {
    if !d.enabled then lvlSeg
    else
      var scale := Pow2(Shr(lvlSeg, 5));
      if ref == IntraFrame then
        (if mode == 0 then Clamp(lvlSeg + d.refDeltas[IntraFrame] * scale, 0, MaxLoopFilter) else prev)
      else Clamp(lvlSeg + d.refDeltas[ref] * scale + d.modeDeltas[mode] * scale, 0, MaxLoopFilter)
  }

  /** The segment level of one segment and direction. */
  function SegmentDirLevel(segData: seq<seq<Option<int>>>, plane: int, seg: int, dir: int,
                           lvl: int, lvlR: int): (r: int)
    requires WellFormedSegData(segData) && 0 <= plane <= 2 && 0 <= seg < MaxSegments && 0 <= dir < 2
    requires 0 <= lvl <= MaxLoopFilter && 0 <= lvlR <= MaxLoopFilter
    ensures 0 <= r <= MaxLoopFilter
  {
    SegmentLevel(if dir == 0 then lvl else lvlR, segData[seg][SegLvlLf(plane, dir)])
  }

  /** `av1_loop_filter_frame_init` (its level table; the sharpness refresh
      is `LoopFilterInit`): the level of every
      [segment][direction][reference][mode class] for one plane, starting
      from the frame's two levels. */
  function FrameInit(segData: seq<seq<Option<int>>>, plane: int, d: LfDeltas, lvl: int, lvlR: int,
                     prev: seq<int>): (t: seq<int>)
    requires WellFormedSegData(segData) && WellFormedDeltas(d) && 0 <= plane <= 2
    requires 0 <= lvl <= MaxLoopFilter && 0 <= lvlR <= MaxLoopFilter
    requires |prev| == LevelTableSize
    ensures |t| == LevelTableSize
  {
    seq(LevelTableSize, k requires 0 <= k < LevelTableSize =>
      var byRef := k / MaxModeLfDeltas;
      var byDir := byRef / TotalRefsPerFrame;
      var seg := byDir / 2;
      TableEntry(SegmentDirLevel(segData, plane, seg, byDir % 2, lvl, lvlR), d, byRef % TotalRefsPerFrame,
                 k % MaxModeLfDeltas, prev[k]))
  }

  /** The flattened position gives back the four indices it was made from. */
  lemma LevelIndexDecodes(seg: int, dir: int, ref: int, mode: int)
    requires 0 <= seg < MaxSegments && 0 <= dir < 2 && 0 <= ref < TotalRefsPerFrame && 0 <= mode < MaxModeLfDeltas
    ensures var k := LevelIndex(seg, dir, ref, mode);
            k % MaxModeLfDeltas == mode && (k / MaxModeLfDeltas) % TotalRefsPerFrame == ref
            && (k / MaxModeLfDeltas / TotalRefsPerFrame) % 2 == dir
            && k / MaxModeLfDeltas / TotalRefsPerFrame / 2 == seg
  {
    var k := LevelIndex(seg, dir, ref, mode);
    DivOfRange(k, MaxModeLfDeltas, (seg * 2 + dir) * TotalRefsPerFrame + ref);
    DivOfRange((seg * 2 + dir) * TotalRefsPerFrame + ref, TotalRefsPerFrame, seg * 2 + dir);
    DivOfRange(seg * 2 + dir, 2, seg);
  }

  /** Entry [seg][dir][ref][mode] of the table is the one the codec's four
      nested loops write there. */
  lemma FrameInitEntry(segData: seq<seq<Option<int>>>, plane: int, d: LfDeltas, lvl: int, lvlR: int,
                       prev: seq<int>, seg: int, dir: int, ref: int, mode: int)
    requires WellFormedSegData(segData) && WellFormedDeltas(d) && 0 <= plane <= 2
    requires 0 <= lvl <= MaxLoopFilter && 0 <= lvlR <= MaxLoopFilter && |prev| == LevelTableSize
    requires 0 <= seg < MaxSegments && 0 <= dir < 2 && 0 <= ref < TotalRefsPerFrame && 0 <= mode < MaxModeLfDeltas
    ensures var k := LevelIndex(seg, dir, ref, mode);
            FrameInit(segData, plane, d, lvl, lvlR, prev)[k]
            == TableEntry(SegmentDirLevel(segData, plane, seg, dir, lvl, lvlR), d, ref, mode, prev[k])
  {
    LevelIndexDecodes(seg, dir, ref, mode);
  }

  /** Every entry the frame init writes is a valid level; the one entry
      it leaves alone is the previous one. */
  lemma FrameInitInRange(segData: seq<seq<Option<int>>>, plane: int, d: LfDeltas, lvl: int, lvlR: int,
                         prev: seq<int>, seg: int, dir: int, ref: int, mode: int)
    requires WellFormedSegData(segData) && WellFormedDeltas(d) && 0 <= plane <= 2
    requires 0 <= lvl <= MaxLoopFilter && 0 <= lvlR <= MaxLoopFilter && |prev| == LevelTableSize
    requires 0 <= seg < MaxSegments && 0 <= dir < 2 && 0 <= ref < TotalRefsPerFrame && 0 <= mode < MaxModeLfDeltas
    ensures var t := FrameInit(segData, plane, d, lvl, lvlR, prev);
            var k := LevelIndex(seg, dir, ref, mode);
            (d.enabled && ref == IntraFrame && mode == 1 ==> t[k] == prev[k])
            && (!(d.enabled && ref == IntraFrame && mode == 1) ==> 0 <= t[k] <= MaxLoopFilter)
  {
    FrameInitEntry(segData, plane, d, lvl, lvlR, prev, seg, dir, ref, mode);
  }

  /** Zero deltas leave a written entry at the segment level. */
  lemma TableEntryWithoutDeltas(lvlSeg: int, d: LfDeltas, ref: int, mode: int, prev: int)
    requires WellFormedDeltas(d) && 0 <= lvlSeg <= MaxLoopFilter
    requires 0 <= ref < TotalRefsPerFrame && 0 <= mode < MaxModeLfDeltas
    requires !d.enabled || (d.refDeltas[ref] == 0 && d.modeDeltas[mode] == 0 && !(ref == IntraFrame && mode == 1))
    ensures TableEntry(lvlSeg, d, ref, mode, prev) == lvlSeg
  {
    if d.enabled {
      var scale := Pow2(Shr(lvlSeg, 5));
      assert d.refDeltas[ref] * scale == 0;
      assert d.modeDeltas[mode] * scale == 0;
    }
  }

  /** With the deltas disabled, or enabled but all zero, every written
      entry of a segment and direction is the segment level itself. */
  lemma FrameInitWithoutDeltas(segData: seq<seq<Option<int>>>, plane: int, d: LfDeltas, lvl: int, lvlR: int,
                               prev: seq<int>, seg: int, dir: int, ref: int, mode: int)
    requires WellFormedSegData(segData) && WellFormedDeltas(d) && 0 <= plane <= 2
    requires 0 <= lvl <= MaxLoopFilter && 0 <= lvlR <= MaxLoopFilter && |prev| == LevelTableSize
    requires 0 <= seg < MaxSegments && 0 <= dir < 2 && 0 <= ref < TotalRefsPerFrame && 0 <= mode < MaxModeLfDeltas
    requires !d.enabled || ((forall r :: 0 <= r < TotalRefsPerFrame ==> d.refDeltas[r] == 0)
                            && (forall m :: 0 <= m < MaxModeLfDeltas ==> d.modeDeltas[m] == 0)
                            && !(ref == IntraFrame && mode == 1))
    ensures FrameInit(segData, plane, d, lvl, lvlR, prev)[LevelIndex(seg, dir, ref, mode)]
            == SegmentDirLevel(segData, plane, seg, dir, lvl, lvlR)
  {
    FrameInitEntry(segData, plane, d, lvl, lvlR, prev, seg, dir, ref, mode);
    TableEntryWithoutDeltas(SegmentDirLevel(segData, plane, seg, dir, lvl, lvlR), d, ref, mode,
                            prev[LevelIndex(seg, dir, ref, mode)]);
  }

  /** The block-level inputs of `get_filter_level`. */
  datatype BlockLf = BlockLf(segmentId: int, refFrame0: int, mode: int,
                             currDeltaLf: seq<int>, deltaLfFromBase: int)

  predicate WellFormedBlock(b: BlockLf)
  {
    0 <= b.segmentId < MaxSegments && 0 <= b.refFrame0 < TotalRefsPerFrame
    && 0 <= b.mode < MbModeCount && |b.currDeltaLf| == 4
  }

  /** `get_filter_level`: with delta-LF present, the frame level plus the
      block's delta, then the segment feature, then the reference delta and,
      for inter blocks only, the mode delta, each clamped; without delta-LF,
      the entry of the frame's level table. */
  function GetFilterLevel(deltaLfPresent: bool, deltaLfMulti: bool, plane: int, dir: int,
                          filterLevel: seq<int>, segData: seq<seq<Option<int>>>, d: LfDeltas,
                          table: seq<int>, b: BlockLf): (lvl: int)
    requires 0 <= plane <= 2 && 0 <= dir < 2 && |filterLevel| == 2
    requires WellFormedSegData(segData) && WellFormedDeltas(d) && |table| == LevelTableSize
    requires WellFormedBlock(b)
    ensures deltaLfPresent ==> 0 <= lvl <= MaxLoopFilter
    ensures !deltaLfPresent ==> lvl == table[LevelIndex(b.segmentId, dir, b.refFrame0, ModeLf(b.mode))]
    ensures deltaLfPresent && !d.enabled && segData[b.segmentId][SegLvlLf(plane, dir)].None? ==>
              lvl == Clamp((if deltaLfMulti then b.currDeltaLf[DeltaLfId(plane, dir)] else b.deltaLfFromBase)
                           + filterLevel[dir], 0, MaxLoopFilter)
  {
    if deltaLfPresent then
      var deltaLf := if deltaLfMulti then b.currDeltaLf[DeltaLfId(plane, dir)] else b.deltaLfFromBase;
      var lvlSeg := Clamp(deltaLf + filterLevel[dir], 0, MaxLoopFilter);
      var lvlSeg := SegmentLevel(lvlSeg, segData[b.segmentId][SegLvlLf(plane, dir)]);
      if d.enabled then
        var scale := Pow2(Shr(lvlSeg, 5));
        var withRef := lvlSeg + d.refDeltas[b.refFrame0] * scale;
        var withMode := if b.refFrame0 > IntraFrame then withRef + d.modeDeltas[ModeLf(b.mode)] * scale
                        else withRef;
        Clamp(withMode, 0, MaxLoopFilter)
      else lvlSeg
    else
      table[LevelIndex(b.segmentId, dir, b.refFrame0, ModeLf(b.mode))]
  }

  /** Mode deltas apply to inter blocks only: an intra block's level does
      not depend on them. */
  lemma IntraLevelIgnoresModeDeltas(deltaLfMulti: bool, plane: int, dir: int, filterLevel: seq<int>,
                                    segData: seq<seq<Option<int>>>, d: LfDeltas, modeDeltas: seq<int>,
                                    table: seq<int>, b: BlockLf)
    requires 0 <= plane <= 2 && 0 <= dir < 2 && |filterLevel| == 2
    requires WellFormedSegData(segData) && WellFormedDeltas(d) && |table| == LevelTableSize
    requires WellFormedBlock(b) && b.refFrame0 == IntraFrame && |modeDeltas| == MaxModeLfDeltas
    ensures GetFilterLevel(true, deltaLfMulti, plane, dir, filterLevel, segData, d, table, b)
         == GetFilterLevel(true, deltaLfMulti, plane, dir, filterLevel, segData, d.(modeDeltas := modeDeltas), table, b)
  {
  }

  /** With a zero block delta and the frame's own level, the delta-LF path
      computes exactly the entry the frame init stores for the block. */
  lemma DeltaPathMatchesTable(deltaLfMulti: bool, plane: int, dir: int, lvl: int, lvlR: int,
                              segData: seq<seq<Option<int>>>, d: LfDeltas, prev: seq<int>, b: BlockLf)
    requires 0 <= plane <= 2 && 0 <= dir < 2
    requires 0 <= lvl <= MaxLoopFilter && 0 <= lvlR <= MaxLoopFilter && |prev| == LevelTableSize
    requires WellFormedSegData(segData) && WellFormedDeltas(d) && WellFormedBlock(b)
    requires b.refFrame0 > IntraFrame || b.mode < IntraModes
    requires (if deltaLfMulti then b.currDeltaLf[DeltaLfId(plane, dir)] else b.deltaLfFromBase) == 0
    ensures GetFilterLevel(true, deltaLfMulti, plane, dir, [lvl, lvlR], segData, d, prev, b)
         == FrameInit(segData, plane, d, lvl, lvlR, prev)[LevelIndex(b.segmentId, dir, b.refFrame0, ModeLf(b.mode))]
  {
    var k := LevelIndex(b.segmentId, dir, b.refFrame0, ModeLf(b.mode));
    FrameInitEntry(segData, plane, d, lvl, lvlR, prev, b.segmentId, dir, b.refFrame0, ModeLf(b.mode));
    DeltaLevelIsTableEntry(deltaLfMulti, plane, dir, lvl, lvlR, segData, d, prev, b, prev[k]);
  }

  /** The delta-LF path with a zero block delta applies the segment level,
      reference delta and mode delta exactly as a table entry does. */
  lemma DeltaLevelIsTableEntry(deltaLfMulti: bool, plane: int, dir: int, lvl: int, lvlR: int,
                               segData: seq<seq<Option<int>>>, d: LfDeltas, prev: seq<int>, b: BlockLf, entry: int)
    requires 0 <= plane <= 2 && 0 <= dir < 2
    requires 0 <= lvl <= MaxLoopFilter && 0 <= lvlR <= MaxLoopFilter && |prev| == LevelTableSize
    requires WellFormedSegData(segData) && WellFormedDeltas(d) && WellFormedBlock(b)
    requires b.refFrame0 > IntraFrame || b.mode < IntraModes
    requires (if deltaLfMulti then b.currDeltaLf[DeltaLfId(plane, dir)] else b.deltaLfFromBase) == 0
    ensures GetFilterLevel(true, deltaLfMulti, plane, dir, [lvl, lvlR], segData, d, prev, b)
         == TableEntry(SegmentDirLevel(segData, plane, b.segmentId, dir, lvl, lvlR), d, b.refFrame0, ModeLf(b.mode), entry)
  {
    assert Clamp(0 + [lvl, lvlR][dir], 0, MaxLoopFilter) == (if dir == 0 then lvl else lvlR);
    assert b.refFrame0 == IntraFrame ==> ModeLf(b.mode) == 0;
  }

  // ---------------------------------------------------------------------
  // Bit positions in the edge masks
  // ---------------------------------------------------------------------

  /** A number with a digit below `n` written after it is decoded uniquely. */
  lemma MixedRadixUnique(a1: int, b1: int, a2: int, b2: int, n: int)
    requires n > 0 && 0 <= b1 < n && 0 <= b2 < n
    ensures a1 * n + b1 == a2 * n + b2 <==> a1 == a2 && b1 == b2
  {
    if a1 * n + b1 == a2 * n + b2 {
      DivOfRange(a1 * n + b1, n, a1);
      DivOfRange(a2 * n + b2, n, a2);
    }
  }

  /** `get_y_index_shift`: a 64x64 luma area is 256 4x4 units held in four
      64-bit words of four unit rows each; the word and the bit of the unit
      holding pixel (idx, idy). */
  function YIndexShift(idx: nat, idy: nat): (r: (int, int))
    ensures r.0 == idy / 16
    ensures idx < 64 ==> 0 <= r.1 < 64
  {
    Pow2Values();
    (Shr(idy, 4), (Shr(idy, 2) % 4) * 16 + Shr(idx, 2))
  }

  /** Inside the area, word and bit together count the 4x4 units in raster
      order, sixteen to a row. */
  lemma YIndexShiftIsRaster(idx: nat, idy: nat)
    requires idx < 64 && idy < 64
    ensures var (index, shift) := YIndexShift(idx, idy);
            index * 64 + shift == (idy / 4) * 16 + idx / 4
  {
    Pow2Values();
    DivDiv(idy, 4, 4);
  }

  /** Two pixels share a word and a bit exactly when they lie in the same
      4x4 unit. */
  lemma YIndexShiftInjective(idx1: nat, idy1: nat, idx2: nat, idy2: nat)
    requires idx1 < 64 && idy1 < 64 && idx2 < 64 && idy2 < 64
    ensures YIndexShift(idx1, idy1) == YIndexShift(idx2, idy2)
            <==> idx1 / 4 == idx2 / 4 && idy1 / 4 == idy2 / 4
  {
    YIndexShiftIsRaster(idx1, idy1);
    YIndexShiftIsRaster(idx2, idy2);
    var (i1, s1) := YIndexShift(idx1, idy1);
    var (i2, s2) := YIndexShift(idx2, idy2);
    MixedRadixUnique(i1, s1, i2, s2, 64);
    MixedRadixUnique(idy1 / 4, idx1 / 4, idy2 / 4, idx2 / 4, 16);
  }

  /** `get_uv_index_shift`: for 4:2:0, the 64x64 luma area's chroma is 64
      8x8 luma units in one word; the bit of the unit holding (idx, idy). */
  function UvIndexShift(idx: nat, idy: nat): (shift: int)
    ensures idx < 64 && idy < 64 ==> 0 <= shift < 64
    ensures shift == (idy / 8) * 8 + idx / 8
  {
    Pow2Values();
    Shr(idy, 3) * 8 + Shr(idx, 3)
  }

  /** Two luma pixels share a chroma bit exactly when they lie in the same
      8x8 luma unit. */
  lemma UvIndexShiftInjective(idx1: nat, idy1: nat, idx2: nat, idy2: nat)
    requires idx1 < 64 && idy1 < 64 && idx2 < 64 && idy2 < 64
    ensures UvIndexShift(idx1, idy1) == UvIndexShift(idx2, idy2)
            <==> idx1 / 8 == idx2 / 8 && idy1 / 8 == idy2 / 8
  {
    MixedRadixUnique(idy1 / 8, idx1 / 8, idy2 / 8, idx2 / 8, 8);
  }

  // ---------------------------------------------------------------------
  // Edge masks
  // ---------------------------------------------------------------------

  /** A 64-bit mask word, as the set of the positions of its set bits:
      `a & b` is `a * b`, `a | b` is `a + b`, `a & ~b` is `a - b`. */
  type Word = set<nat>

  /** The positions a 64-bit word has. */
  predicate InWord(w: Word)
  {
    forall b :: b in w ==> b < 64
  }

  /** `w << k` on a 64-bit word: positions pushed past bit 63 are lost. */
  function ShiftLeft(w: Word, k: nat): (r: Word)
    ensures InWord(r)
    ensures forall b: nat :: b in r <==> b >= k && b - k in w && b < 64
  {
    set b | b in w && b + k < 64 :: b + k
  }

  /** A chroma word holds eight rows of eight units; the block of the
      first `cols` units of each of the first `rows` rows. */
  function Rect(cols: nat, rows: nat): (r: Word)
    ensures InWord(r)
    ensures forall b: nat :: b in r <==> b < 64 && b % 8 < cols && b / 8 < rows
  {
    set b: nat | b < 64 && b % 8 < cols && b / 8 < rows
  }

  /** One word of the edge masks for every transform size
      (TX_4X4 .. TX_64X64). */
  datatype MaskSet = MaskSet(tx4: Word, tx8: Word, tx16: Word, tx32: Word, tx64: Word)

  /** No edge position is claimed by two of the filtered sizes. */
  predicate Disjoint3(m: MaskSet)
  {
    m.tx4 * m.tx8 == {} && m.tx4 * m.tx16 == {} && m.tx8 * m.tx16 == {}
  }

  /** No edge position is claimed by two transform sizes. */
  predicate Disjoint5(m: MaskSet)
  {
    Disjoint3(m) && m.tx4 * m.tx32 == {} && m.tx4 * m.tx64 == {}
    && m.tx8 * m.tx32 == {} && m.tx8 * m.tx64 == {} && m.tx16 * m.tx32 == {}
  }

  function Union(m: MaskSet): Word
  {
    m.tx4 + m.tx8 + m.tx16 + m.tx32 + m.tx64
  }

  /** The normalisation of one word in `av1_setup_mask`: the 32x32 and 64x64
      edges are filtered as 16x16, and a 4x4 edge on the border of a 32x32
      area is filtered as 8x8. */
  function FoldWord(m: MaskSet, border: Word): (r: MaskSet)
    ensures r.tx4 * border == {}
    ensures r.tx4 + r.tx8 + r.tx16 == Union(m)
    ensures r.tx32 == m.tx32 && r.tx64 == m.tx64
  {
    MaskSet(m.tx4 - border, m.tx8 + (m.tx4 * border), m.tx16 + m.tx32 + m.tx64, m.tx32, m.tx64)
  }

  /** Exactly the border positions leave the 4x4 mask; the 8x8 mask gains
      exactly those, and the 16x16 mask exactly the 32x32 and 64x64 edges. */
  lemma FoldWordMovesEdges(m: MaskSet, border: Word)
    ensures m.tx4 - FoldWord(m, border).tx4 == m.tx4 * border
    ensures FoldWord(m, border).tx4 <= m.tx4
    ensures FoldWord(m, border).tx8 - m.tx8 == (m.tx4 * border) - m.tx8
    ensures FoldWord(m, border).tx16 - m.tx16 == (m.tx32 + m.tx64) - m.tx16
  {
  }

  /** When every position had one transform size, the folded 4x4, 8x8 and
      16x16 masks are pairwise disjoint: the codec's closing assertions. */
  lemma FoldWordDisjoint(m: MaskSet, border: Word)
    requires Disjoint5(m)
    ensures Disjoint3(FoldWord(m, border))
  {
    var r := FoldWord(m, border);
    assert r.tx8 * r.tx16 == {} by {
      forall b | b in r.tx8 ensures b !in r.tx16 {
        if b in m.tx8 {
          assert b !in m.tx16 && b !in m.tx32 && b !in m.tx64 by {
            assert b in m.tx8 * m.tx16 ==> false;
            assert b in m.tx8 * m.tx32 ==> false;
            assert b in m.tx8 * m.tx64 ==> false;
          }
        } else {
          assert b !in m.tx16 && b !in m.tx32 && b !in m.tx64 by {
            assert b in m.tx4 * m.tx16 ==> false;
            assert b in m.tx4 * m.tx32 ==> false;
            assert b in m.tx4 * m.tx64 ==> false;
          }
        }
      }
    }
  }

  /** Folding is idempotent: a folded word folds to the same filtered masks. */
  lemma FoldWordIdempotent(m: MaskSet, border: Word)
    ensures var f := FoldWord(m, border); var g := FoldWord(f, border);
            g.tx4 == f.tx4 && g.tx8 == f.tx8 && g.tx16 == f.tx16
  {
  }

  /** The left border of the 32x32 areas in a luma word (four rows of
      sixteen units): units 0 and 8 of every row, `0x0101010101010101`. */
  function LeftBorderYWord(): (w: Word)
    ensures InWord(w)
    ensures forall b: nat :: b in w <==> b < 64 && b % 8 == 0
  {
    set b: nat | b < 64 && b % 8 == 0
  }

  /** The first row of a luma word, `0xffff`. */
  function FirstRowY(): (w: Word)
    ensures InWord(w)
    ensures forall b: nat :: b in w <==> b < 16
  {
    set b: nat | b < 64 && b / 16 == 0
  }

  /** `left_border` and `above_border`: the borders of the 32x32 areas in
      each of the four luma words; the top border is in words 0 and 2 only. */
  function LeftBorderY(): seq<Word> { [LeftBorderYWord(), LeftBorderYWord(), LeftBorderYWord(), LeftBorderYWord()] }
  function AboveBorderY(): seq<Word> { [FirstRowY(), {}, FirstRowY(), {}] }

  /** `left_border_uv`: units 0 and 4 of every chroma row. */
  function LeftBorderUv(): (w: Word)
    ensures InWord(w)
    ensures forall b: nat :: b in w <==> b < 64 && b % 4 == 0
  {
    set b: nat | b < 64 && b % 4 == 0
  }

  /** `above_border_uv`: chroma rows 0 and 4. */
  function AboveBorderUv(): (w: Word)
    ensures InWord(w)
    ensures forall b: nat :: b in w <==> b < 8 || 32 <= b < 40
  {
    set b: nat | b < 64 && (b / 8) % 4 == 0
  }

  /** `LOOP_FILTER_MASK`: four luma words and one chroma word per edge
      direction, each a set of per-size masks. */
  datatype LoopFilterMask = LoopFilterMask(leftY: seq<MaskSet>, aboveY: seq<MaskSet>, leftUv: MaskSet, aboveUv: MaskSet)

  predicate WellFormedMask(l: LoopFilterMask)
  {
    |l.leftY| == 4 && |l.aboveY| == 4
  }

  predicate MaskDisjoint3(l: LoopFilterMask)
    requires WellFormedMask(l)
  {
    (forall i :: 0 <= i < 4 ==> Disjoint3(l.leftY[i]) && Disjoint3(l.aboveY[i]))
    && Disjoint3(l.leftUv) && Disjoint3(l.aboveUv)
  }

  predicate MaskDisjoint5(l: LoopFilterMask)
    requires WellFormedMask(l)
  {
    (forall i :: 0 <= i < 4 ==> Disjoint5(l.leftY[i]) && Disjoint5(l.aboveY[i]))
    && Disjoint5(l.leftUv) && Disjoint5(l.aboveUv)
  }

  /** The normalisation of one mask, every word with its own border. */
  function FoldMask(l: LoopFilterMask): (r: LoopFilterMask)
    requires WellFormedMask(l)
    ensures WellFormedMask(r)
    ensures forall i :: 0 <= i < 4 ==> (r.leftY[i] == FoldWord(l.leftY[i], LeftBorderY()[i])
                                        && r.aboveY[i] == FoldWord(l.aboveY[i], AboveBorderY()[i]))
    ensures r.leftUv == FoldWord(l.leftUv, LeftBorderUv()) && r.aboveUv == FoldWord(l.aboveUv, AboveBorderUv())
  {
    LoopFilterMask(seq(4, i requires 0 <= i < 4 => FoldWord(l.leftY[i], LeftBorderY()[i])),
                   seq(4, i requires 0 <= i < 4 => FoldWord(l.aboveY[i], AboveBorderY()[i])),
                   FoldWord(l.leftUv, LeftBorderUv()), FoldWord(l.aboveUv, AboveBorderUv()))
  }

  /** Every word of a folded mask passes the codec's disjointness checks. */
  lemma FoldMaskDisjoint(l: LoopFilterMask)
    requires WellFormedMask(l) && MaskDisjoint5(l)
    ensures MaskDisjoint3(FoldMask(l))
  {
    var r := FoldMask(l);
    forall i | 0 <= i < 4 ensures Disjoint3(r.leftY[i]) && Disjoint3(r.aboveY[i]) {
      FoldWordDisjoint(l.leftY[i], LeftBorderY()[i]);
      FoldWordDisjoint(l.aboveY[i], AboveBorderY()[i]);
    }
    FoldWordDisjoint(l.leftUv, LeftBorderUv());
    FoldWordDisjoint(l.aboveUv, AboveBorderUv());
  }

  const LoopFilterMaskNum := 4

  /** `out` holds the folds of the first |out| masks of `lfms`. */
  predicate FoldedPrefix(lfms: seq<LoopFilterMask>, out: seq<LoopFilterMask>)
    requires forall j :: 0 <= j < |lfms| ==> WellFormedMask(lfms[j])
  {
    |out| <= |lfms|
    && forall q :: 0 <= q < |out| ==> WellFormedMask(out[q]) && out[q] == FoldMask(lfms[q])
                                      && (MaskDisjoint5(lfms[q]) ==> MaskDisjoint3(out[q]))
  }

  lemma FoldedPrefixStep(lfms: seq<LoopFilterMask>, out: seq<LoopFilterMask>)
    requires forall j :: 0 <= j < |lfms| ==> WellFormedMask(lfms[j])
    requires FoldedPrefix(lfms, out) && |out| < |lfms|
    ensures FoldedPrefix(lfms, out + [FoldMask(lfms[|out|])])
  {
    var j := |out|;
    if MaskDisjoint5(lfms[j]) {
      FoldMaskDisjoint(lfms[j]);
    }
    var next := out + [FoldMask(lfms[j])];
    forall q | 0 <= q < |next|
      ensures WellFormedMask(next[q]) && next[q] == FoldMask(lfms[q])
              && (MaskDisjoint5(lfms[q]) ==> MaskDisjoint3(next[q]))
    {
      if q < j {
        assert next[q] == out[q];
      }
    }
  }

  /** The folding loop of `av1_setup_mask` over its `LOOP_FILTER_MASK_NUM`
      masks. */
  method SetupMaskFold(lfms: seq<LoopFilterMask>) returns (out: seq<LoopFilterMask>)
    requires |lfms| == LoopFilterMaskNum && forall j :: 0 <= j < |lfms| ==> WellFormedMask(lfms[j])
    ensures |out| == |lfms|
    ensures forall j :: 0 <= j < |out| ==> WellFormedMask(out[j]) && out[j] == FoldMask(lfms[j])
    ensures forall j :: 0 <= j < |out| && MaskDisjoint5(lfms[j]) ==> MaskDisjoint3(out[j])
  {
    out := [];
    var j := 0;
    while j < LoopFilterMaskNum
      invariant 0 <= j <= LoopFilterMaskNum && |out| == j
      invariant FoldedPrefix(lfms, out)
    {
      FoldedPrefixStep(lfms, out);
      out := out + [FoldMask(lfms[j])];
      j := j + 1;
    }
  }

  /** The mask pointer of `av1_setup_mask` after `n` more folds from
      index k: each fold advances it by one. */
  function PointerAfterFolds(k: int, n: nat): (p: int)
    ensures p == k + n
    decreases n
  {
    if n == 0 then k else PointerAfterFolds(k + 1, n - 1)
  }

  /** The mask the closing assertions of `av1_setup_mask` examine, as
      written: the one the pointer reaches after the folding loop, if the
      array has one. */
  function CheckedMaskAsWritten(out: seq<LoopFilterMask>): (m: Option<LoopFilterMask>)
    ensures m.Some? ==> m.value in out
  {
    var p := PointerAfterFolds(0, LoopFilterMaskNum);
    if 0 <= p < |out| then Some(out[p]) else None
  }

  /** For the codec's array of `LOOP_FILTER_MASK_NUM` masks the assertions
      look one past its end: none of the folded masks is checked. */
  lemma CheckedMaskIsPastTheEnd(lfms: seq<LoopFilterMask>)
    requires |lfms| == LoopFilterMaskNum
    ensures CheckedMaskAsWritten(lfms).None?
    ensures PointerAfterFolds(0, LoopFilterMaskNum) == |lfms|
  {
  }

  // ---------------------------------------------------------------------
  // Chroma masks of one block
  // ---------------------------------------------------------------------

  /** `left_txform_mask_uv` and `above_txform_mask_uv` by transform size:
      a column of 1, 1, 2 or 4 units (`0x1`, `0x1`, `0x101`, `0x1010101`) and
      a row of 1, 1, 2 or 4 units (`0x1`, `0x1`, `0x3`, `0xf`); the TX_64X64
      entry has no initialiser and is empty. */
  function LeftTxformMaskUv(tx: int): Word
    requires 0 <= tx < 5
  {
    [Rect(1, 1), Rect(1, 1), Rect(1, 2), Rect(1, 4), {}][tx]
  }

  function AboveTxformMaskUv(tx: int): Word
    requires 0 <= tx < 5
  {
    [Rect(1, 1), Rect(1, 1), Rect(2, 1), Rect(4, 1), {}][tx]
  }

  /** `size_mask_uv` by block size, BLOCK_4X4 .. BLOCK_64X16 without the
      128-pixel sizes: every entry is a block of whole units, given here as
      (columns, rows); `0x0303` is (2, 2), `0x0f0f0f0f0f0f0f0f` is (4, 8). */
  const SizeMaskUvDims: seq<(nat, nat)> :=
    [(1, 1), (1, 1), (1, 1), (1, 1), (1, 2), (2, 1), (2, 2), (2, 4), (4, 4), (4, 4),
     (4, 8), (8, 4), (8, 8), (1, 1), (1, 1), (1, 4), (4, 1), (2, 8), (8, 2)]

  const BlockSizesAll := 19

  function SizeMaskUv(blockSize: int): Word
    requires 0 <= blockSize < BlockSizesAll
  {
    Rect(SizeMaskUvDims[blockSize].0, SizeMaskUvDims[blockSize].1)
  }

  function Get(m: MaskSet, tx: int): Word
    requires 0 <= tx < 5
  {
    if tx == 0 then m.tx4 else if tx == 1 then m.tx8 else if tx == 2 then m.tx16
    else if tx == 3 then m.tx32 else m.tx64
  }

  function Set(m: MaskSet, tx: int, v: Word): MaskSet
    requires 0 <= tx < 5
  {
    if tx == 0 then m.(tx4 := v) else if tx == 1 then m.(tx8 := v) else if tx == 2 then m.(tx16 := v)
    else if tx == 3 then m.(tx32 := v) else m.(tx64 := v)
  }

  /** One direction of `build_uv_masks`: unless the unit's bit is already
      set in the other small size's mask, OR in the size's edge pattern,
      cut to the block, at the unit's bit. */
  function AddUvEdge(m: MaskSet, tx: int, pattern: Word, shift: nat): (r: MaskSet)
    requires 0 <= tx < 5
    ensures var blocked := (tx == 1 && shift in m.tx4) || (tx == 0 && shift in m.tx8);
            (blocked ==> r == m)
            && (!blocked ==> Get(r, tx) == Get(m, tx) + ShiftLeft(pattern, shift)
                             && forall t :: 0 <= t < 5 && t != tx ==> Get(r, t) == Get(m, t))
  {
    var walkOn := !((tx == 1 && shift in m.tx4) || (tx == 0 && shift in m.tx8));
    if walkOn then Set(m, tx, Get(m, tx) + ShiftLeft(pattern, shift)) else m
  }

  /** A pattern of at most the unit itself, shifted, is at most the unit's
      bit. */
  lemma ShiftedUnitOnly(pattern: Word, shift: nat)
    requires pattern <= {0}
    ensures ShiftLeft(pattern, shift) <= {shift}
  {
  }

  /** The 4x4 and 8x8 unit patterns are the single unit, so the blocking
      check keeps those two masks disjoint. */
  lemma AddUvEdgeDisjoint(m: MaskSet, tx: int, pattern: Word, shift: nat)
    requires 0 <= tx < 5 && (tx <= 1 ==> pattern <= {0})
    requires m.tx4 * m.tx8 == {}
    ensures AddUvEdge(m, tx, pattern, shift).tx4 * AddUvEdge(m, tx, pattern, shift).tx8 == {}
  {
    if tx <= 1 {
      ShiftedUnitOnly(pattern, shift);
    }
  }

  lemma UnitRect()
    ensures Rect(1, 1) == {0}
  {
    assert 0 in Rect(1, 1);
  }

  /** `build_uv_masks`: the chroma edges of one block at luma position
      (x, y) of the 64x64 area, for the block size and the horizontal and
      vertical transform sizes of its chroma transform. */
  function BuildUvMasks(leftUv: MaskSet, aboveUv: MaskSet, blockSize: int, txWidth: int, txHeight: int,
                        x: nat, y: nat): (r: (MaskSet, MaskSet))
    requires 0 <= blockSize < BlockSizesAll && 0 <= txWidth < 5 && 0 <= txHeight < 5 && x < 64 && y < 64
    ensures forall t :: 0 <= t < 5 ==> Get(leftUv, t) <= Get(r.0, t) && Get(aboveUv, t) <= Get(r.1, t)
    ensures forall t :: 0 <= t < 5 && t != txWidth ==> Get(r.0, t) == Get(leftUv, t)
    ensures forall t :: 0 <= t < 5 && t != txHeight ==> Get(r.1, t) == Get(aboveUv, t)
  {
    var shift := UvIndexShift(x, y);
    (AddUvEdge(leftUv, txWidth, LeftTxformMaskUv(txWidth) * SizeMaskUv(blockSize), shift),
     AddUvEdge(aboveUv, txHeight, AboveTxformMaskUv(txHeight) * SizeMaskUv(blockSize), shift))
  }

  /** The 4x4 and 8x8 chroma masks stay disjoint, in both directions: the
      codec's third and sixth assertions. */
  lemma BuildUvMasksKeepsSmallDisjoint(leftUv: MaskSet, aboveUv: MaskSet, blockSize: int, txWidth: int,
                                       txHeight: int, x: nat, y: nat)
    requires 0 <= blockSize < BlockSizesAll && 0 <= txWidth < 5 && 0 <= txHeight < 5 && x < 64 && y < 64
    requires leftUv.tx4 * leftUv.tx8 == {} && aboveUv.tx4 * aboveUv.tx8 == {}
    ensures var r := BuildUvMasks(leftUv, aboveUv, blockSize, txWidth, txHeight, x, y);
            r.0.tx4 * r.0.tx8 == {} && r.1.tx4 * r.1.tx8 == {}
  {
    UnitRect();
    var shift := UvIndexShift(x, y);
    AddUvEdgeDisjoint(leftUv, txWidth, LeftTxformMaskUv(txWidth) * SizeMaskUv(blockSize), shift);
    AddUvEdgeDisjoint(aboveUv, txHeight, AboveTxformMaskUv(txHeight) * SizeMaskUv(blockSize), shift);
  }

  /** Adding an edge a second time changes nothing. */
  lemma AddUvEdgeIdempotent(m: MaskSet, tx: int, pattern: Word, shift: nat)
    requires 0 <= tx < 5
    ensures AddUvEdge(AddUvEdge(m, tx, pattern, shift), tx, pattern, shift) == AddUvEdge(m, tx, pattern, shift)
  {
    var r := AddUvEdge(m, tx, pattern, shift);
    var r2 := AddUvEdge(r, tx, pattern, shift);
    assert Get(r2, tx) == Get(r, tx);
    assert forall t :: 0 <= t < 5 ==> Get(r2, t) == Get(r, t);
    assert r2.tx4 == Get(r2, 0) && r2.tx8 == Get(r2, 1) && r2.tx16 == Get(r2, 2);
    assert r2.tx32 == Get(r2, 3) && r2.tx64 == Get(r2, 4);
  }

  /** Building the same block's chroma edges twice sets nothing new. */
  lemma BuildUvMasksIdempotent(leftUv: MaskSet, aboveUv: MaskSet, blockSize: int, txWidth: int, txHeight: int,
                               x: nat, y: nat)
    requires 0 <= blockSize < BlockSizesAll && 0 <= txWidth < 5 && 0 <= txHeight < 5 && x < 64 && y < 64
    ensures var r := BuildUvMasks(leftUv, aboveUv, blockSize, txWidth, txHeight, x, y);
            BuildUvMasks(r.0, r.1, blockSize, txWidth, txHeight, x, y) == r
  {
    var shift := UvIndexShift(x, y);
    AddUvEdgeIdempotent(leftUv, txWidth, LeftTxformMaskUv(txWidth) * SizeMaskUv(blockSize), shift);
    AddUvEdgeIdempotent(aboveUv, txHeight, AboveTxformMaskUv(txHeight) * SizeMaskUv(blockSize), shift);
  }

  // ---------------------------------------------------------------------
  // Frame driver
  // ---------------------------------------------------------------------

  /** What `av1_loop_filter_frame` does: the mi rows it filters, the two
      levels the rows see, and the two levels left behind. */
  datatype FrameFilter = FrameFilter(startRow: int, endRow: int, activeLevels: seq<int>, levelsAfter: seq<int>)

  /** `av1_loop_filter_frame`: nothing when both frame levels are 0; the
      whole frame, or for a partial frame of more than 8 rows a band from
      the middle row rounded down to a multiple of 8, covering an eighth of
      the rows but at least 8. The filter levels of the frame are replaced
      for the duration and restored afterwards. */
  function LoopFilterFrame(levels: seq<int>, frameLevel: int, frameLevelR: int, miRows: nat, partialFrame: bool)
    : (r: Option<FrameFilter>)
    requires |levels| == 2
    ensures r.None? <==> frameLevel == 0 && frameLevelR == 0
    ensures r.Some? ==> r.value.levelsAfter == levels && r.value.activeLevels == [frameLevel, frameLevelR]
    ensures r.Some? && !(partialFrame && miRows > 8) ==> r.value.startRow == 0 && r.value.endRow == miRows
    ensures r.Some? && partialFrame && miRows > 8 ==>
              r.value.startRow % 8 == 0 && r.value.startRow <= miRows / 2 < r.value.startRow + 8
              && r.value.endRow - r.value.startRow == Max(miRows / 8, 8)
              && r.value.endRow <= miRows
  {
    Pow2Values();
    if frameLevel == 0 && frameLevelR == 0 then None
    else
      var (start, rows) :=
        if partialFrame && miRows > 8 then ((Shr(miRows, 1) / 8) * 8, Max(miRows / 8, 8))
        else (0, miRows);
      Some(FrameFilter(start, start + rows, [frameLevel, frameLevelR], levels))
  }
}
