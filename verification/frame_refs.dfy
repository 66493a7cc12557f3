/** Order-hint driven reference selection: the skip-mode reference pair and
    the assignment of the seven inter references from LAST and GOLDEN
    (`av1_set_frame_refs`). */
module FrameRefs {
  import opened IntMath
  import opened Wrappers

  const InterRefsPerFrame := 7
  const RefFrames := 8
  const InvalidIdx := -1
  const IntMax := 0x7fff_ffff

  /** Reference slots, counted from LAST_FRAME. */
  const Last := 0
  const Last2 := 1
  const Last3 := 2
  const Golden := 3
  const BwdRef := 4
  const AltRef2 := 5
  const AltRef := 6

  /** Half the order-hint range: the bound of a relative distance. */
  function HalfRange(bits: nat): (h: int)
    requires 1 <= bits
    ensures h >= 1 && 2 * h == Pow2(bits)
  {
    Pow2(bits - 1)
  }

  /** `get_relative_dist`: the difference of two `bits`-wide order hints,
      wrapped into the half-open range [-2^(bits-1), 2^(bits-1)). */
  function RelativeDist(a: int, b: int, bits: nat): (d: int)
    requires 1 <= bits && 0 <= a < Pow2(bits) && 0 <= b < Pow2(bits)
    ensures -HalfRange(bits) <= d < HalfRange(bits)
    ensures d == a - b || d == a - b - Pow2(bits) || d == a - b + Pow2(bits)
  {
    var m := HalfRange(bits);
    var diff := a - b;
    if diff >= m then diff - 2 * m else if diff < -m then diff + 2 * m else diff
  }

  /** The wrap is the codec's bit form `(diff & (m - 1)) - (diff & m)`: the
      low bits of the two's complement difference, minus its sign bit. */
  lemma RelativeDistIsSignExtension(a: int, b: int, bits: nat)
    requires 1 <= bits && 0 <= a < Pow2(bits) && 0 <= b < Pow2(bits)
    ensures var m := HalfRange(bits); var diff := a - b;
            RelativeDist(a, b, bits) == diff % m - ((diff / m) % 2) * m
  {
    SignExtension(a - b, HalfRange(bits));
  }

  /** The wrap on plain integers: a difference in (-2m, 2m) wrapped into
      [-m, m) is its low bits minus its sign bit. */
  lemma SignExtension(diff: int, m: int)
    requires m >= 1 && -2 * m < diff < 2 * m
    ensures (if diff >= m then diff - 2 * m else if diff < -m then diff + 2 * m else diff)
            == diff % m - ((diff / m) % 2) * m
  {
    if diff < -m {
      DivOfRange(diff, m, -2);
      assert ((diff / m) % 2) * m == 0;
    } else if diff < 0 {
      DivOfRange(diff, m, -1);
      assert ((diff / m) % 2) * m == m;
    } else if diff < m {
      DivOfRange(diff, m, 0);
      assert ((diff / m) % 2) * m == 0;
    } else {
      DivOfRange(diff, m, 1);
      assert ((diff / m) % 2) * m == m;
    }
  }

  /** The distance is the only value in its half-open range that differs
      from the plain difference by a multiple of the hint range. */
  lemma RelativeDistUnique(a: int, b: int, bits: nat, d: int)
    requires 1 <= bits && 0 <= a < Pow2(bits) && 0 <= b < Pow2(bits)
    requires -HalfRange(bits) <= d < HalfRange(bits)
    requires d == a - b || d == a - b - Pow2(bits) || d == a - b + Pow2(bits)
    ensures d == RelativeDist(a, b, bits)
  {
  }

  /** Swapping the arguments negates the distance, except at the one value
      whose negation is out of range. */
  lemma RelativeDistAntisymmetric(a: int, b: int, bits: nat)
    requires 1 <= bits && 0 <= a < Pow2(bits) && 0 <= b < Pow2(bits)
    requires RelativeDist(a, b, bits) != -HalfRange(bits)
    ensures RelativeDist(b, a, bits) == -RelativeDist(a, b, bits)
  {
    RelativeDistUnique(b, a, bits, -RelativeDist(a, b, bits));
  }

  /** Every present hint, and the current one, is a `bits`-wide order hint. */
  predicate HintsInRange(hints: seq<Option<int>>, cur: int, bits: nat)
  {
    1 <= bits && 0 <= cur < Pow2(bits)
    && forall j :: 0 <= j < |hints| && hints[j].Some? ==> 0 <= hints[j].value < Pow2(bits)
  }

  predicate IsForward(hints: seq<Option<int>>, i: int, cur: int, bits: nat)
    requires HintsInRange(hints, cur, bits) && 0 <= i < |hints|
  {
    hints[i].Some? && RelativeDist(hints[i].value, cur, bits) < 0
  }

  predicate IsBackward(hints: seq<Option<int>>, i: int, cur: int, bits: nat)
    requires HintsInRange(hints, cur, bits) && 0 <= i < |hints|
  {
    hints[i].Some? && RelativeDist(hints[i].value, cur, bits) > 0
  }

  predicate HasForward(hints: seq<Option<int>>, cur: int, bits: nat)
    requires HintsInRange(hints, cur, bits)
  {
    exists i :: 0 <= i < |hints| && IsForward(hints, i, cur, bits)
  }

  predicate HasBackward(hints: seq<Option<int>>, cur: int, bits: nat)
    requires HintsInRange(hints, cur, bits)
  {
    exists i :: 0 <= i < |hints| && IsBackward(hints, i, cur, bits)
  }

  /** Two hints on the same side of a third are compared exactly by their
      distances to it: the wrap never fires between them. */
  lemma SameSideDist(a: int, b: int, c: int, bits: nat)
    requires 1 <= bits && 0 <= a < Pow2(bits) && 0 <= b < Pow2(bits) && 0 <= c < Pow2(bits)
    requires (RelativeDist(a, c, bits) < 0 && RelativeDist(b, c, bits) < 0)
             || (RelativeDist(a, c, bits) > 0 && RelativeDist(b, c, bits) > 0)
    ensures RelativeDist(a, b, bits) == RelativeDist(a, c, bits) - RelativeDist(b, c, bits)
  {
    var d := RelativeDist(a, c, bits) - RelativeDist(b, c, bits);
    assert -HalfRange(bits) < d < HalfRange(bits);
    RelativeDistUnique(a, b, bits, d);
  }

  /** Among the first n references, k is the nearest one before the order
      hint c: no earlier reference is further back than k, and any reference
      at the same distance comes after k. */
  predicate NearestForwardIn(hints: seq<Option<int>>, c: int, bits: nat, n: int, k: int)
    requires HintsInRange(hints, c, bits) && 0 <= n <= |hints|
  {
    0 <= k < n && IsForward(hints, k, c, bits)
    && forall j :: 0 <= j < n && IsForward(hints, j, c, bits) ==>
         RelativeDist(hints[j].value, c, bits) <= RelativeDist(hints[k].value, c, bits)
         && (j < k ==> RelativeDist(hints[j].value, c, bits) < RelativeDist(hints[k].value, c, bits))
  }

  /** The mirror image: k is the nearest reference after c among the first n. */
  predicate NearestBackwardIn(hints: seq<Option<int>>, c: int, bits: nat, n: int, k: int)
    requires HintsInRange(hints, c, bits) && 0 <= n <= |hints|
  {
    0 <= k < n && IsBackward(hints, k, c, bits)
    && forall j :: 0 <= j < n && IsBackward(hints, j, c, bits) ==>
         RelativeDist(hints[k].value, c, bits) <= RelativeDist(hints[j].value, c, bits)
         && (j < k ==> RelativeDist(hints[k].value, c, bits) < RelativeDist(hints[j].value, c, bits))
  }

  /** There is at most one nearest forward reference. */
  lemma NearestForwardUnique(hints: seq<Option<int>>, c: int, bits: nat, n: int, k1: int, k2: int)
    requires HintsInRange(hints, c, bits) && 0 <= n <= |hints|
    requires NearestForwardIn(hints, c, bits, n, k1) && NearestForwardIn(hints, c, bits, n, k2)
    ensures k1 == k2
  {
  }

  /** There is at most one nearest backward reference. */
  lemma NearestBackwardUnique(hints: seq<Option<int>>, c: int, bits: nat, n: int, k1: int, k2: int)
    requires HintsInRange(hints, c, bits) && 0 <= n <= |hints|
    requires NearestBackwardIn(hints, c, bits, n, k1) && NearestBackwardIn(hints, c, bits, n, k2)
    ensures k1 == k2
  {
  }

  /** `SkipModeInfo`: whether skip mode is allowed and its two references. */
  datatype SkipModeInfo = SkipModeInfo(allowed: bool, idx0: int, idx1: int)

  /** The forward half of the first loop's state after scanning `i`
      references: the nearest forward reference so far, or the sentinels. */
  predicate ForwardSoFar(hints: seq<Option<int>>, cur: int, bits: nat, i: int, hint0: int, idx0: int)
    requires HintsInRange(hints, cur, bits) && 0 <= i <= |hints|
  {
    (idx0 == InvalidIdx ==> hint0 == -1 && forall j :: 0 <= j < i ==> !IsForward(hints, j, cur, bits))
    && (idx0 != InvalidIdx ==> NearestForwardIn(hints, cur, bits, i, idx0) && hint0 == hints[idx0].value)
  }

  /** The backward half. */
  predicate BackwardSoFar(hints: seq<Option<int>>, cur: int, bits: nat, i: int, hint1: int, idx1: int)
    requires HintsInRange(hints, cur, bits) && 0 <= i <= |hints|
  {
    (idx1 == InvalidIdx ==> hint1 == IntMax && forall j :: 0 <= j < i ==> !IsBackward(hints, j, cur, bits))
    && (idx1 != InvalidIdx ==> NearestBackwardIn(hints, cur, bits, i, idx1) && hint1 == hints[idx1].value)
  }

  /** Reference i as the forward candidate: taken when it is a forward
      frame nearer than the one held. */
  function ForwardPick(hints: seq<Option<int>>, cur: int, bits: nat, i: int, hint0: int, idx0: int): (r: (int, int))
    requires HintsInRange(hints, cur, bits) && 0 <= i < |hints|
    requires ForwardSoFar(hints, cur, bits, i, hint0, idx0)
    ensures ForwardSoFar(hints, cur, bits, i + 1, r.0, r.1)
  {
    assert idx0 != InvalidIdx && IsForward(hints, i, cur, bits) ==>
             RelativeDist(hints[i].value, hint0, bits)
             == RelativeDist(hints[i].value, cur, bits) - RelativeDist(hint0, cur, bits) by {
      if idx0 != InvalidIdx && IsForward(hints, i, cur, bits) {
        SameSideDist(hints[i].value, hint0, cur, bits);
      }
    }
    if hints[i].Some? && RelativeDist(hints[i].value, cur, bits) < 0
       && (hint0 == -1 || RelativeDist(hints[i].value, hint0, bits) > 0)
    then (hints[i].value, i)
    else (hint0, idx0)
  }

  /** Reference i as the backward candidate: taken when it is a backward
      frame nearer than the one held. */
  function BackwardPick(hints: seq<Option<int>>, cur: int, bits: nat, i: int, hint1: int, idx1: int): (r: (int, int))
    requires HintsInRange(hints, cur, bits) && 0 <= i < |hints| && bits <= 8
    requires BackwardSoFar(hints, cur, bits, i, hint1, idx1)
    ensures BackwardSoFar(hints, cur, bits, i + 1, r.0, r.1)
  {
    Pow2Values();
    Pow2Monotone(bits, 8);
    assert idx1 != InvalidIdx && IsBackward(hints, i, cur, bits) ==>
             RelativeDist(hints[i].value, hint1, bits)
             == RelativeDist(hints[i].value, cur, bits) - RelativeDist(hint1, cur, bits) by {
      if idx1 != InvalidIdx && IsBackward(hints, i, cur, bits) {
        SameSideDist(hints[i].value, hint1, cur, bits);
      }
    }
    if hints[i].Some? && RelativeDist(hints[i].value, cur, bits) > 0
       && (hint1 == IntMax || RelativeDist(hints[i].value, hint1, bits) < 0)
    then (hints[i].value, i)
    else (hint1, idx1)
  }

  /** The first loop: the nearest forward and the nearest backward
      reference, each as (hint, index) with the codec's sentinels when none
      was found; ties go to the earlier reference. */
  method NearestReferences(hints: seq<Option<int>>, cur: int, bits: nat)
    returns (hint0: int, idx0: int, hint1: int, idx1: int)
    requires |hints| == InterRefsPerFrame && HintsInRange(hints, cur, bits) && bits <= 8
    ensures idx0 == InvalidIdx <==> !HasForward(hints, cur, bits)
    ensures idx0 == InvalidIdx ==> hint0 == -1
    ensures idx0 != InvalidIdx ==> NearestForwardIn(hints, cur, bits, InterRefsPerFrame, idx0)
                                   && hint0 == hints[idx0].value
    ensures idx1 == InvalidIdx <==> !HasBackward(hints, cur, bits)
    ensures idx1 == InvalidIdx ==> hint1 == IntMax
    ensures idx1 != InvalidIdx ==> NearestBackwardIn(hints, cur, bits, InterRefsPerFrame, idx1)
                                   && hint1 == hints[idx1].value
  {
    hint0, idx0, hint1, idx1 := -1, InvalidIdx, IntMax, InvalidIdx;
    var i := 0;
    while i < InterRefsPerFrame
      invariant 0 <= i <= InterRefsPerFrame
      invariant ForwardSoFar(hints, cur, bits, i, hint0, idx0)
      invariant BackwardSoFar(hints, cur, bits, i, hint1, idx1)
    {
      var fwd := ForwardPick(hints, cur, bits, i, hint0, idx0);
      var bwd := BackwardPick(hints, cur, bits, i, hint1, idx1);
      hint0, idx0, hint1, idx1 := fwd.0, fwd.1, bwd.0, bwd.1;
      i := i + 1;
    }
  }

  /** The second loop, run when only forward references exist: the
      reference nearest before the order hint `hint0` of the nearest one,
      ties going to the earlier reference, or -1 for none. */
  method SecondForward(hints: seq<Option<int>>, cur: int, bits: nat, hint0: int)
    returns (hint1: int, idx1: int)
    requires |hints| == InterRefsPerFrame && HintsInRange(hints, cur, bits)
    requires 0 <= hint0 < Pow2(bits)
    ensures hint1 == -1 <==> idx1 == InvalidIdx
    ensures hint1 == -1 <==> !HasForward(hints, hint0, bits)
    ensures hint1 != -1 ==> NearestForwardIn(hints, hint0, bits, InterRefsPerFrame, idx1)
                            && hint1 == hints[idx1].value
  {
    hint1, idx1 := -1, InvalidIdx;
    var i := 0;
    while i < InterRefsPerFrame
      invariant 0 <= i <= InterRefsPerFrame
      invariant hint1 == -1 <==> idx1 == InvalidIdx
      invariant idx1 == InvalidIdx ==> forall j :: 0 <= j < i ==> !IsForward(hints, j, hint0, bits)
      invariant idx1 != InvalidIdx ==> NearestForwardIn(hints, hint0, bits, i, idx1) && hint1 == hints[idx1].value
    {
      if hints[i].Some? {
        var h := hints[i].value;
        if idx1 != InvalidIdx && RelativeDist(h, hint0, bits) < 0 {
          SameSideDist(h, hint1, hint0, bits);
        }
        if RelativeDist(h, hint0, bits) < 0 && (hint1 == -1 || RelativeDist(h, hint1, bits) > 0) {
          hint1, idx1 := h, i;
        }
      }
      i := i + 1;
    }
  }

  /** `av1_setup_skip_mode_allowed`: skip mode uses the nearest forward and
      backward references, or failing a backward one the nearest forward
      reference and the one nearest before it; `hints[i]` is the order hint
      of reference i, or `None` for a missing buffer. */
  method SetupSkipModeAllowed(enableOrderHint: bool, intraOnly: bool, singleReference: bool,
                              bits: nat, cur: int, hints: seq<Option<int>>)
    returns (info: SkipModeInfo)
    requires |hints| == InterRefsPerFrame
    requires enableOrderHint ==> HintsInRange(hints, cur, bits) && bits <= 8
    ensures !enableOrderHint || intraOnly || singleReference ==> info == SkipModeInfo(false, InvalidIdx, InvalidIdx)
    ensures !info.allowed ==> info.idx0 == InvalidIdx && info.idx1 == InvalidIdx
    ensures info.allowed ==> 0 <= info.idx0 < info.idx1 < InterRefsPerFrame
                             && hints[info.idx0].Some? && hints[info.idx1].Some?
    ensures enableOrderHint && !intraOnly && !singleReference && !HasForward(hints, cur, bits) ==> !info.allowed
    ensures enableOrderHint && !intraOnly && !singleReference
            && HasForward(hints, cur, bits) && HasBackward(hints, cur, bits) ==>
              info.allowed
              && ((NearestForwardIn(hints, cur, bits, InterRefsPerFrame, info.idx0)
                   && NearestBackwardIn(hints, cur, bits, InterRefsPerFrame, info.idx1))
                  || (NearestBackwardIn(hints, cur, bits, InterRefsPerFrame, info.idx0)
                      && NearestForwardIn(hints, cur, bits, InterRefsPerFrame, info.idx1)))
    ensures enableOrderHint && !intraOnly && !singleReference && !HasBackward(hints, cur, bits) ==>
              forall f :: NearestForwardIn(hints, cur, bits, InterRefsPerFrame, f) ==>
                (info.allowed <==> HasForward(hints, hints[f].value, bits))
                && (info.allowed ==>
                      (info.idx0 == f && NearestForwardIn(hints, hints[f].value, bits, InterRefsPerFrame, info.idx1))
                      || (info.idx1 == f && NearestForwardIn(hints, hints[f].value, bits, InterRefsPerFrame, info.idx0)))
  {
    info := SkipModeInfo(false, InvalidIdx, InvalidIdx);
    if !enableOrderHint || intraOnly || singleReference {
      return;
    }
    var hint0, idx0, hint1, idx1 := NearestReferences(hints, cur, bits);
    if idx0 != InvalidIdx && idx1 != InvalidIdx {
      info := SkipModeInfo(true, Min(idx0, idx1), Max(idx0, idx1));
    } else if idx0 != InvalidIdx && idx1 == InvalidIdx {
      var second, idx := SecondForward(hints, cur, bits, hint0);
      if second != -1 {
        assert idx != idx0;
        info := SkipModeInfo(true, Min(idx0, idx), Max(idx0, idx));
      }
    }
    forall f | NearestForwardIn(hints, cur, bits, InterRefsPerFrame, f)
      ensures f == idx0
    {
      NearestForwardUnique(hints, cur, bits, InterRefsPerFrame, f, idx0);
    }
  }

  /** `REF_FRAME_INFO` without its buffer pointer: the map slot and the
      sort key derived from the slot's order hint (-1 for no frame). */
  datatype RefFrameInfo = RefFrameInfo(mapIdx: int, sortIdx: int)

  /** `compare_ref_frame_info`: by sort key, ties broken by map slot. */
  function CompareRefFrameInfo(a: RefFrameInfo, b: RefFrameInfo): (c: int)
    ensures c < 0 <==> a.sortIdx < b.sortIdx || (a.sortIdx == b.sortIdx && a.mapIdx < b.mapIdx)
    ensures c == 0 <==> a == b
  {
    var sortIdxDiff := a.sortIdx - b.sortIdx;
    if sortIdxDiff != 0 then sortIdxDiff else a.mapIdx - b.mapIdx
  }

  /** The comparison is a total order: antisymmetric and transitive. */
  lemma CompareIsTotalOrder(a: RefFrameInfo, b: RefFrameInfo, c: RefFrameInfo)
    ensures CompareRefFrameInfo(a, b) == -CompareRefFrameInfo(b, a)
    ensures CompareRefFrameInfo(a, b) <= 0 && CompareRefFrameInfo(b, c) <= 0 ==> CompareRefFrameInfo(a, c) <= 0
    ensures CompareRefFrameInfo(a, b) <= 0 || CompareRefFrameInfo(b, a) <= 0
  {
  }

  predicate Le(a: RefFrameInfo, b: RefFrameInfo)
  {
    CompareRefFrameInfo(a, b) <= 0
  }

  predicate SortedInfos(s: seq<RefFrameInfo>)
  {
    forall i, j :: 0 <= i < j < |s| ==> Le(s[i], s[j])
  }

  /** An entry no greater than the head of a sorted table is no greater than
      any of its entries. */
  lemma BelowHead(x: RefFrameInfo, s: seq<RefFrameInfo>)
    requires SortedInfos(s) && |s| > 0 && Le(x, s[0])
    ensures forall j :: 0 <= j < |s| ==> Le(x, s[j])
  {
    forall j | 0 <= j < |s| ensures Le(x, s[j]) {
      CompareIsTotalOrder(x, s[0], s[j]);
    }
  }

  /** The head of a sorted table stays below everything the rest becomes
      once `x`, which follows the head, is inserted into it. */
  lemma HeadBelowInsertion(x: RefFrameInfo, s: seq<RefFrameInfo>, rest: seq<RefFrameInfo>)
    requires SortedInfos(s) && |s| > 0 && !Le(x, s[0])
    requires multiset(rest) == multiset(s[1..]) + multiset{x}
    ensures forall j :: 0 <= j < |rest| ==> Le(s[0], rest[j])
  {
    forall j | 0 <= j < |rest| ensures Le(s[0], rest[j]) {
      assert rest[j] in multiset(rest);
      CompareIsTotalOrder(x, s[0], s[0]);
      if rest[j] != x {
        assert rest[j] in multiset(s[1..]);
        var k :| 0 <= k < |s[1..]| && s[1..][k] == rest[j];
        assert s[k + 1] == rest[j];
      }
    }
  }

  lemma ConsSorted(y: RefFrameInfo, rest: seq<RefFrameInfo>)
    requires SortedInfos(rest) && forall j :: 0 <= j < |rest| ==> Le(y, rest[j])
    ensures SortedInfos([y] + rest)
  {
    var t := [y] + rest;
    forall i, j | 0 <= i < j < |t| ensures Le(t[i], t[j]) {
      assert t[j] == rest[j - 1];
      if i > 0 {
        assert t[i] == rest[i - 1];
      }
    }
  }

  /** Inserts `x` before the first entry it does not follow. */
  function InsertInfo(x: RefFrameInfo, s: seq<RefFrameInfo>): (r: seq<RefFrameInfo>)
    requires SortedInfos(s)
    ensures SortedInfos(r)
    ensures |r| == |s| + 1
    ensures multiset(r) == multiset(s) + multiset{x}
  {
    if |s| == 0 then [x]
    else if Le(x, s[0]) then
      BelowHead(x, s);
      ConsSorted(x, s);
      [x] + s
    else
      assert s == [s[0]] + s[1..];
      assert SortedInfos(s[1..]);
      var rest := InsertInfo(x, s[1..]);
      HeadBelowInsertion(x, s, rest);
      ConsSorted(s[0], rest);
      [s[0]] + rest
  }

  /** The sort of the slot table; qsort with this comparison yields the same
      order, since the map slots make all keys distinct. */
  function SortInfos(s: seq<RefFrameInfo>): (r: seq<RefFrameInfo>)
    ensures SortedInfos(r)
    ensures |r| == |s|
    ensures multiset(r) == multiset(s)
  {
    if |s| == 0 then []
    else
      assert s == [s[0]] + s[1..];
      InsertInfo(s[0], SortInfos(s[1..]))
  }

  /** The sort key of map slot i: -1 for no frame (or the -1 hint), else the
      relative distance shifted up by half the order-hint range. */
  function SortIdx(refs: seq<Option<int>>, i: int, cur: int, bits: nat): int
    requires HintsInRange(refs, cur, bits) && 0 <= i < |refs|
  {
    if refs[i].None? || refs[i].value == -1 then -1
    else Pow2(bits - 1) + RelativeDist(refs[i].value, cur, bits)
  }

  function Infos(refs: seq<Option<int>>, cur: int, bits: nat): (infos: seq<RefFrameInfo>)
    requires HintsInRange(refs, cur, bits)
    ensures |infos| == |refs|
    ensures forall i :: 0 <= i < |refs| ==> infos[i] == RefFrameInfo(i, SortIdx(refs, i, cur, bits))
  {
    seq(|refs|, i requires 0 <= i < |refs| => RefFrameInfo(i, SortIdx(refs, i, cur, bits)))
  }

  /** A map slot that holds a frame earlier in display order than the
      current one. */
  predicate ValidForward(refs: seq<Option<int>>, m: int, cur: int, bits: nat)
    requires HintsInRange(refs, cur, bits)
  {
    0 <= m < |refs| && refs[m].Some? && refs[m].value != -1 && RelativeDist(refs[m].value, cur, bits) < 0
  }

  /** A map slot that holds a frame not earlier than the current one. */
  predicate ValidBackward(refs: seq<Option<int>>, m: int, cur: int, bits: nat)
    requires HintsInRange(refs, cur, bits)
  {
    0 <= m < |refs| && refs[m].Some? && refs[m].value != -1 && RelativeDist(refs[m].value, cur, bits) >= 0
  }

  /** Every entry of the sorted table is the table entry of its own slot. */
  lemma SortedEntriesAreInfos(infos: seq<RefFrameInfo>, sorted: seq<RefFrameInfo>)
    requires forall i :: 0 <= i < |infos| ==> infos[i].mapIdx == i
    requires multiset(sorted) == multiset(infos)
    ensures forall p :: 0 <= p < |sorted| ==>
              0 <= sorted[p].mapIdx < |infos| && sorted[p] == infos[sorted[p].mapIdx]
  {
    forall p | 0 <= p < |sorted|
      ensures 0 <= sorted[p].mapIdx < |infos| && sorted[p] == infos[sorted[p].mapIdx]
    {
      assert sorted[p] in multiset(infos);
      var i :| 0 <= i < |infos| && infos[i] == sorted[p];
    }
  }

  /** Each slot's entry sits somewhere in the sorted table. */
  lemma SlotPosition(infos: seq<RefFrameInfo>, sorted: seq<RefFrameInfo>, m: int)
      returns (p: int)
    requires multiset(sorted) == multiset(infos) && 0 <= m < |infos|
    ensures 0 <= p < |sorted| && sorted[p] == infos[m]
  {
    assert infos[m] in multiset(sorted);
    p :| 0 <= p < |sorted| && sorted[p] == infos[m];
  }

  /** The split loop: slots with no frame first, then forward frames up to
      `fwdEnd`, backward frames after it. */
  method SplitForward(sorted: seq<RefFrameInfo>, curSort: int) returns (fwdStart: int, fwdEnd: int)
    requires |sorted| == RefFrames && SortedInfos(sorted) && curSort >= 1
    requires forall p :: 0 <= p < |sorted| ==> sorted[p].sortIdx >= -1
    ensures 0 <= fwdStart <= RefFrames && fwdStart - 1 <= fwdEnd < RefFrames
    ensures forall p :: 0 <= p < fwdStart ==> sorted[p].sortIdx == -1
    ensures forall p :: fwdStart <= p <= fwdEnd ==> 0 <= sorted[p].sortIdx < curSort
    ensures forall p :: fwdEnd < p < RefFrames ==> sorted[p].sortIdx >= curSort
  {
    fwdStart, fwdEnd := 0, RefFrames - 1;
    var i := 0;
    var stop := false;
    while i < RefFrames && !stop
      invariant 0 <= fwdStart <= i <= RefFrames
      invariant forall p :: 0 <= p < fwdStart ==> sorted[p].sortIdx == -1
      invariant !stop ==> fwdEnd == RefFrames - 1
                          && forall p :: fwdStart <= p < i ==> 0 <= sorted[p].sortIdx < curSort
      invariant stop ==> fwdStart - 1 <= fwdEnd < RefFrames
                         && (forall p :: fwdStart <= p <= fwdEnd ==> 0 <= sorted[p].sortIdx < curSort)
                         && forall p :: fwdEnd < p < RefFrames ==> sorted[p].sortIdx >= curSort
    {
      assert fwdStart < i ==> Le(sorted[fwdStart], sorted[i]);
      if sorted[i].sortIdx == -1 {
        assert fwdStart == i;
        fwdStart := fwdStart + 1;
      } else if sorted[i].sortIdx >= curSort {
        fwdEnd := i - 1;
        stop := true;
        assert forall p :: i < p < RefFrames ==> Le(sorted[i], sorted[p]);
      }
      i := i + 1;
    }
  }

  /** The slot assignment in progress: `remapped[f]` is meaningful where
      `flags[f]` is set and then names a slot holding a frame. */
  predicate AssignedValid(infos: seq<RefFrameInfo>, remapped: seq<int>, flags: seq<bool>)
  {
    |remapped| == InterRefsPerFrame && |flags| == InterRefsPerFrame
    && forall f :: 0 <= f < InterRefsPerFrame && flags[f] ==>
         0 <= remapped[f] < |infos| && infos[remapped[f]].sortIdx != -1
  }

  /** The anti-chronological list of the references still to fill. */
  const RefFrameList: seq<int> := [Last2, Last3, BwdRef, AltRef2, AltRef]

  /** The last two phases: fill the listed references from the latest
      forward frames other than LAST and GOLDEN, then any still empty with
      the earliest forward frame. */
  method FillRemaining(sorted: seq<RefFrameInfo>, infos: seq<RefFrameInfo>, remapped0: seq<int>,
                       flags0: seq<bool>, fwdStart: int, fwdEnd0: int, lst: int, gld: int, ghost pL: int)
    returns (remapped: seq<int>, flags: seq<bool>)
    requires |sorted| == RefFrames && |infos| == RefFrames
    requires forall p :: 0 <= p < RefFrames ==> 0 <= sorted[p].mapIdx < RefFrames && sorted[p] == infos[sorted[p].mapIdx]
    requires 0 <= fwdStart <= pL <= fwdEnd0 < RefFrames
    requires forall p :: fwdStart <= p <= fwdEnd0 ==> sorted[p].sortIdx != -1
    requires AssignedValid(infos, remapped0, flags0)
    requires flags0[Last] && flags0[Golden]
    ensures AssignedValid(infos, remapped, flags)
    ensures forall f :: 0 <= f < InterRefsPerFrame ==> flags[f]
    ensures forall f :: 0 <= f < InterRefsPerFrame && flags0[f] ==> remapped[f] == remapped0[f]
  {
    remapped, flags := remapped0, flags0;
    var fwdEnd := fwdEnd0;
    var k := 0;
    var stop := false;
    while k < |RefFrameList| && !stop
      invariant 0 <= k <= |RefFrameList|
      invariant fwdStart - 1 <= fwdEnd <= fwdEnd0
      invariant AssignedValid(infos, remapped, flags)
      invariant flags[Last] && flags[Golden]
      invariant forall q :: 0 <= q < k && !stop ==> flags[RefFrameList[q]]
      invariant stop ==> forall q :: 0 <= q < k - 1 ==> flags[RefFrameList[q]]
      invariant stop ==> k >= 1
      invariant forall f :: 0 <= f < InterRefsPerFrame && flags0[f] ==> flags[f] && remapped[f] == remapped0[f]
    {
      var frame := RefFrameList[k];
      if !flags[frame] {
        while fwdStart <= fwdEnd && (sorted[fwdEnd].mapIdx == lst || sorted[fwdEnd].mapIdx == gld)
          invariant fwdStart - 1 <= fwdEnd <= fwdEnd0
        {
          fwdEnd := fwdEnd - 1;
        }
        if fwdStart > fwdEnd {
          stop := true;
        } else {
          remapped := remapped[frame := sorted[fwdEnd].mapIdx];
          flags := flags[frame := true];
          fwdEnd := fwdEnd - 1;
        }
      }
      k := k + 1;
    }
    if stop {
      k := k - 1;
    }
    while k < |RefFrameList|
      invariant 0 <= k <= |RefFrameList|
      invariant AssignedValid(infos, remapped, flags)
      invariant flags[Last] && flags[Golden]
      invariant forall q :: 0 <= q < k ==> flags[RefFrameList[q]]
      invariant forall f :: 0 <= f < InterRefsPerFrame && flags0[f] ==> flags[f] && remapped[f] == remapped0[f]
    {
      var frame := RefFrameList[k];
      if !flags[frame] {
        remapped := remapped[frame := sorted[fwdStart].mapIdx];
        flags := flags[frame := true];
      }
      k := k + 1;
    }
    forall f | 0 <= f < InterRefsPerFrame ensures flags[f] {
      if f != Last && f != Golden {
        assert RefFrameList[0] == Last2 && RefFrameList[1] == Last3 && RefFrameList[2] == BwdRef
               && RefFrameList[3] == AltRef2 && RefFrameList[4] == AltRef;
      }
    }
  }

  /** The backward phase: ALTREF takes the latest backward frame, BWDREF
      the earliest, ALTREF2 the next earliest, as far as they go. */
  function AssignBackward(sorted: seq<RefFrameInfo>, fwdEnd: int): (r: (seq<int>, seq<bool>))
    requires |sorted| == RefFrames && -1 <= fwdEnd < RefFrames
    ensures |r.0| == InterRefsPerFrame && |r.1| == InterRefsPerFrame
    ensures !r.1[Last] && !r.1[Last2] && !r.1[Last3] && !r.1[Golden]
    ensures r.1[AltRef] <==> fwdEnd < RefFrames - 1
    ensures r.1[AltRef] ==> r.0[AltRef] == sorted[RefFrames - 1].mapIdx
    ensures r.1[BwdRef] <==> fwdEnd < RefFrames - 2
    ensures r.1[BwdRef] ==> r.0[BwdRef] == sorted[fwdEnd + 1].mapIdx
    ensures r.1[AltRef2] <==> fwdEnd < RefFrames - 3
    ensures r.1[AltRef2] ==> r.0[AltRef2] == sorted[fwdEnd + 2].mapIdx
  {
    var remapped := seq(InterRefsPerFrame, _ => InvalidIdx);
    var flags := seq(InterRefsPerFrame, _ => false);
    var bwdStart := fwdEnd + 1;
    var bwdEnd := RefFrames - 1;
    var (remapped, flags, bwdEnd) :=
      if bwdStart <= bwdEnd then (remapped[AltRef := sorted[bwdEnd].mapIdx], flags[AltRef := true], bwdEnd - 1)
      else (remapped, flags, bwdEnd);
    var (remapped, flags, bwdStart) :=
      if bwdStart <= bwdEnd then (remapped[BwdRef := sorted[bwdStart].mapIdx], flags[BwdRef := true], bwdStart + 1)
      else (remapped, flags, bwdStart);
    if bwdStart <= bwdEnd then (remapped[AltRef2 := sorted[bwdStart].mapIdx], flags[AltRef2 := true])
    else (remapped, flags)
  }

  /** The LAST/GOLDEN phase: scanning the forward frames, the slots equal
      to `lst` and `gld` become LAST and GOLDEN. */
  method AssignLastGolden(sorted: seq<RefFrameInfo>, infos: seq<RefFrameInfo>, remapped0: seq<int>,
                          flags0: seq<bool>, fwdStart: int, fwdEnd: int, lst: int, gld: int,
                          ghost pL: int, ghost pG: int)
    returns (remapped: seq<int>, flags: seq<bool>)
    requires |sorted| == RefFrames && |infos| == RefFrames
    requires forall p :: 0 <= p < RefFrames ==> 0 <= sorted[p].mapIdx < RefFrames && sorted[p] == infos[sorted[p].mapIdx]
    requires 0 <= fwdStart && fwdEnd < RefFrames
    requires forall p :: fwdStart <= p <= fwdEnd ==> sorted[p].sortIdx != -1
    requires fwdStart <= pL <= fwdEnd && sorted[pL].mapIdx == lst
    requires fwdStart <= pG <= fwdEnd && sorted[pG].mapIdx == gld
    requires AssignedValid(infos, remapped0, flags0) && !flags0[Last] && !flags0[Golden]
    ensures AssignedValid(infos, remapped, flags)
    ensures flags[Last] && remapped[Last] == lst && flags[Golden] && remapped[Golden] == gld
    ensures forall f :: 0 <= f < InterRefsPerFrame && f != Last && f != Golden ==>
              remapped[f] == remapped0[f] && flags[f] == flags0[f]
  {
    remapped, flags := remapped0, flags0;
    var i := fwdStart;
    while i <= fwdEnd
      invariant fwdStart <= i <= fwdEnd + 1
      invariant AssignedValid(infos, remapped, flags)
      invariant flags[Last] ==> remapped[Last] == lst
      invariant flags[Golden] ==> remapped[Golden] == gld
      invariant pL < i ==> flags[Last]
      invariant pG < i ==> flags[Golden]
      invariant forall f :: 0 <= f < InterRefsPerFrame && f != Last && f != Golden ==>
                  remapped[f] == remapped0[f] && flags[f] == flags0[f]
    {
      if sorted[i].mapIdx == lst {
        remapped := remapped[Last := sorted[i].mapIdx];
        flags := flags[Last := true];
      }
      if sorted[i].mapIdx == gld {
        remapped := remapped[Golden := sorted[i].mapIdx];
        flags := flags[Golden := true];
      }
      i := i + 1;
    }
  }

  /** The facts about the sorted slot table the assignment relies on. */
  predicate SortedTable(infos: seq<RefFrameInfo>, sorted: seq<RefFrameInfo>)
  {
    |infos| == RefFrames && |sorted| == RefFrames && SortedInfos(sorted)
    && multiset(sorted) == multiset(infos)
    && (forall i :: 0 <= i < RefFrames ==> infos[i].mapIdx == i)
    && forall p :: 0 <= p < RefFrames ==> 0 <= sorted[p].mapIdx < RefFrames && sorted[p] == infos[sorted[p].mapIdx]
  }

  /** A backward slot sorts after the forward range, so the last table entry
      is at least as late as it. */
  lemma LatestIsLast(infos: seq<RefFrameInfo>, sorted: seq<RefFrameInfo>, fwdEnd: int, curSort: int, m: int)
    requires SortedTable(infos, sorted) && fwdEnd < RefFrames
    requires forall p :: 0 <= p <= fwdEnd ==> sorted[p].sortIdx < curSort
    requires 0 <= m < RefFrames && infos[m].sortIdx >= curSort
    ensures fwdEnd < RefFrames - 1 && Le(infos[m], sorted[RefFrames - 1])
  {
    var p := SlotPosition(infos, sorted, m);
    assert Le(sorted[p], sorted[RefFrames - 1]) || p == RefFrames - 1;
  }

  /** With two backward slots the backward range holds at least two
      entries, and its first is no later than either. */
  lemma EarliestBackward(infos: seq<RefFrameInfo>, sorted: seq<RefFrameInfo>, fwdEnd: int, curSort: int,
                         m1: int, m2: int)
    requires SortedTable(infos, sorted) && -1 <= fwdEnd < RefFrames
    requires forall p :: 0 <= p <= fwdEnd ==> sorted[p].sortIdx < curSort
    requires 0 <= m1 < RefFrames && infos[m1].sortIdx >= curSort
    requires 0 <= m2 < RefFrames && infos[m2].sortIdx >= curSort && m1 != m2
    ensures fwdEnd < RefFrames - 2 && Le(sorted[fwdEnd + 1], infos[m1])
  {
    var p1 := SlotPosition(infos, sorted, m1);
    var p2 := SlotPosition(infos, sorted, m2);
    assert sorted[p1].mapIdx == m1 && sorted[p2].mapIdx == m2;
    assert Le(sorted[fwdEnd + 1], sorted[p1]) || p1 == fwdEnd + 1;
  }

  /** A slot is a valid backward reference exactly when its sort key is at
      least the current frame's. */
  lemma BackwardBySortKey(refs: seq<Option<int>>, cur: int, bits: nat, m: int)
    requires HintsInRange(refs, cur, bits) && 0 <= m < |refs|
    ensures ValidBackward(refs, m, cur, bits) <==> Infos(refs, cur, bits)[m].sortIdx >= HalfRange(bits)
  {
  }

  /** The three phases on the sorted table: the backward references, LAST
      and GOLDEN, then the rest. ALTREF and BWDREF keep what the backward
      phase gave them whenever it filled them. */
  method AssignPhases(sorted: seq<RefFrameInfo>, infos: seq<RefFrameInfo>, fwdStart: int, fwdEnd: int,
                      lst: int, gld: int, ghost pL: int, ghost pG: int)
    returns (remapped: seq<int>)
    requires |sorted| == RefFrames && |infos| == RefFrames
    requires forall p :: 0 <= p < RefFrames ==> 0 <= sorted[p].mapIdx < RefFrames && sorted[p] == infos[sorted[p].mapIdx]
    requires 0 <= fwdStart && fwdStart - 1 <= fwdEnd < RefFrames
    requires forall p :: fwdStart <= p < RefFrames ==> sorted[p].sortIdx != -1
    requires fwdStart <= pL <= fwdEnd && sorted[pL].mapIdx == lst
    requires fwdStart <= pG <= fwdEnd && sorted[pG].mapIdx == gld
    ensures |remapped| == InterRefsPerFrame
    ensures forall f :: 0 <= f < InterRefsPerFrame ==> 0 <= remapped[f] < RefFrames && infos[remapped[f]].sortIdx != -1
    ensures remapped[Last] == lst && remapped[Golden] == gld
    ensures fwdEnd < RefFrames - 1 ==> remapped[AltRef] == sorted[RefFrames - 1].mapIdx
    ensures fwdEnd < RefFrames - 2 ==> remapped[BwdRef] == sorted[fwdEnd + 1].mapIdx
  {
    var backward := AssignBackward(sorted, fwdEnd);
    var flags;
    remapped, flags := backward.0, backward.1;
    assert AssignedValid(infos, remapped, flags);
    remapped, flags := AssignLastGolden(sorted, infos, remapped, flags, fwdStart, fwdEnd, lst, gld, pL, pG);
    remapped, flags := FillRemaining(sorted, infos, remapped, flags, fwdStart, fwdEnd, lst, gld, pL);
  }

  /** The assignment once LAST and GOLDEN are known to be forward frames:
      sort the slots, then fill the backward references, LAST and GOLDEN,
      and the rest from the latest forward frames. */
  method AssignRefs(refs: seq<Option<int>>, cur: int, bits: nat, lst: int, gld: int)
    returns (remapped: seq<int>)
    requires |refs| == RefFrames && HintsInRange(refs, cur, bits)
    requires ValidForward(refs, lst, cur, bits) && ValidForward(refs, gld, cur, bits)
    ensures |remapped| == InterRefsPerFrame
    ensures forall f :: 0 <= f < InterRefsPerFrame ==>
              0 <= remapped[f] < RefFrames && refs[remapped[f]].Some? && refs[remapped[f]].value != -1
    ensures remapped[Last] == lst && remapped[Golden] == gld
    ensures forall m :: ValidBackward(refs, m, cur, bits) ==>
              ValidBackward(refs, remapped[AltRef], cur, bits)
              && Le(Infos(refs, cur, bits)[m], Infos(refs, cur, bits)[remapped[AltRef]])
    ensures forall m1, m2 ::
              (ValidBackward(refs, m1, cur, bits) && ValidBackward(refs, m2, cur, bits) && m1 != m2) ==>
                ValidBackward(refs, remapped[BwdRef], cur, bits)
                && Le(Infos(refs, cur, bits)[remapped[BwdRef]], Infos(refs, cur, bits)[m1])
  {
    var infos := Infos(refs, cur, bits);
    var curSort := HalfRange(bits);
    var sorted := SortInfos(infos);
    assert forall i :: 0 <= i < RefFrames ==> infos[i].mapIdx == i;
    SortedEntriesAreInfos(infos, sorted);
    assert SortedTable(infos, sorted);
    var fwdStart, fwdEnd := SplitForward(sorted, curSort);
    ghost var pL := SlotPosition(infos, sorted, lst);
    ghost var pG := SlotPosition(infos, sorted, gld);
    remapped := AssignPhases(sorted, infos, fwdStart, fwdEnd, lst, gld, pL, pG);

    forall m | ValidBackward(refs, m, cur, bits)
      ensures ValidBackward(refs, remapped[AltRef], cur, bits) && Le(infos[m], infos[remapped[AltRef]])
    {
      BackwardBySortKey(refs, cur, bits, m);
      LatestIsLast(infos, sorted, fwdEnd, curSort, m);
      BackwardBySortKey(refs, cur, bits, remapped[AltRef]);
    }
    forall m1, m2 | ValidBackward(refs, m1, cur, bits) && ValidBackward(refs, m2, cur, bits) && m1 != m2
      ensures ValidBackward(refs, remapped[BwdRef], cur, bits) && Le(infos[remapped[BwdRef]], infos[m1])
    {
      BackwardBySortKey(refs, cur, bits, m1);
      BackwardBySortKey(refs, cur, bits, m2);
      EarliestBackward(infos, sorted, fwdEnd, curSort, m1, m2);
      BackwardBySortKey(refs, cur, bits, remapped[BwdRef]);
    }
  }

  /** `av1_set_frame_refs`: maps the seven inter references onto the eight
      frame-map slots, given the slots of LAST and GOLDEN; `refs[i]` is the
      order hint of slot i's frame, `None` for an empty slot. Fails, as the
      codec's internal error does, when LAST or GOLDEN is not a forward
      frame; otherwise every reference names a slot holding a frame. */
  method SetFrameRefs(refs: seq<Option<int>>, cur: int, bits: nat, lst: int, gld: int)
    returns (r: Result<seq<int>>)
    requires |refs| == RefFrames && HintsInRange(refs, cur, bits)
    ensures r.Ok? <==> ValidForward(refs, lst, cur, bits) && ValidForward(refs, gld, cur, bits)
    ensures r.Ok? ==> |r.value| == InterRefsPerFrame
                      && forall f :: 0 <= f < InterRefsPerFrame ==>
                           0 <= r.value[f] < RefFrames && refs[r.value[f]].Some? && refs[r.value[f]].value != -1
    ensures r.Ok? ==> r.value[Last] == lst && r.value[Golden] == gld
    ensures r.Ok? ==> forall m :: ValidBackward(refs, m, cur, bits) ==>
                        ValidBackward(refs, r.value[AltRef], cur, bits)
                        && Le(Infos(refs, cur, bits)[m], Infos(refs, cur, bits)[r.value[AltRef]])
    ensures r.Ok? ==> forall m1, m2 ::
                        (ValidBackward(refs, m1, cur, bits) && ValidBackward(refs, m2, cur, bits) && m1 != m2) ==>
                          ValidBackward(refs, r.value[BwdRef], cur, bits)
                          && Le(Infos(refs, cur, bits)[r.value[BwdRef]], Infos(refs, cur, bits)[m1])
  {
    var infos := Infos(refs, cur, bits);
    var curSort := HalfRange(bits);
    var lstSort := if 0 <= lst < RefFrames then infos[lst].sortIdx else -1;
    var gldSort := if 0 <= gld < RefFrames then infos[gld].sortIdx else -1;
    if lstSort == -1 || lstSort >= curSort {
      return Error("Inter frame requests a look-ahead frame as LAST");
    }
    if gldSort == -1 || gldSort >= curSort {
      return Error("Inter frame requests a look-ahead frame as GOLDEN");
    }
    var remapped := AssignRefs(refs, cur, bits, lst, gld);
    r := Ok(remapped);
  }
}
