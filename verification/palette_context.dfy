/** The palette colour-index context of av1/common/entropymode.c: score the
    left, top-left and top neighbours of a pixel, move the three best scores to
    the front while keeping the colour order and its inverse, and hash the
    three scores into a context number. Also the default loop-filter deltas. */
module PaletteContext {
  import opened IntMath

  const PaletteMaxSize := 8
  const PaletteColorIndexContexts := 5
  const MaxColorContextHash := 8
  const NumPaletteNeighbors := 3

  /** `palette_color_index_context_lookup`; negative entries are invalid. */
  const ContextLookupTable: seq<int> := [-1, -1, 0, -1, -1, 4, 3, 2, 1]

  function ContextLookup(hash: int): (ctx: int)
    requires 0 <= hash <= MaxColorContextHash
    ensures ctx >= 0 <==> hash in {2, 5, 6, 7, 8}
    ensures ctx < PaletteColorIndexContexts
  {
    ContextLookupTable[hash]
  }

  /** Distinct valid hashes never share a context. */
  lemma ContextLookupInjective(h1: int, h2: int)
    requires 0 <= h1 <= MaxColorContextHash && 0 <= h2 <= MaxColorContextHash
    requires ContextLookup(h1) >= 0 && ContextLookup(h1) == ContextLookup(h2)
    ensures h1 == h2
  {
  }

  /** Colour maps are rectangular, and every entry is a palette index. */
  predicate ValidColorMap(m: seq<seq<int>>, paletteSize: int)
  {
    |m| > 0
    && (forall i :: 0 <= i < |m| ==> |m[i]| == |m[0]|)
    && (forall i, j :: 0 <= i < |m| && 0 <= j < |m[i]| ==> 0 <= m[i][j] < paletteSize)
  }

  /** Colours of the left, top-left and top neighbours; -1 when outside the map. */
  function NeighborColors(m: seq<seq<int>>, r: int, c: int): seq<int>
    requires |m| > 0 && (forall i :: 0 <= i < |m| ==> |m[i]| == |m[0]|)
    requires 0 <= r < |m| && 0 <= c < |m[r]|
  {
    [ if c - 1 >= 0 then m[r][c - 1] else -1,
      if c - 1 >= 0 && r - 1 >= 0 then m[r - 1][c - 1] else -1,
      if r - 1 >= 0 then m[r - 1][c] else -1 ]
  }

  /** Inside a valid map the neighbours form a pattern the context is defined
      for: each a palette colour or -1, at least one of left and top
      present, and top-left present exactly when both are. */
  lemma NeighborColorsPattern(m: seq<seq<int>>, r: int, c: int, paletteSize: int)
    requires ValidColorMap(m, paletteSize) && 0 <= r < |m| && 0 <= c < |m[r]| && (r > 0 || c > 0)
    ensures var nb := NeighborColors(m, r, c);
            |nb| == NumPaletteNeighbors
            && (forall i :: 0 <= i < NumPaletteNeighbors ==> -1 <= nb[i] < paletteSize)
            && (nb[0] >= 0 || nb[2] >= 0)
            && (nb[1] >= 0 <==> nb[0] >= 0 && nb[2] >= 0)
  {
    var nb := NeighborColors(m, r, c);
    if c > 0 {
      assert 0 <= m[r][c - 1] < paletteSize;
    }
    if r > 0 {
      assert 0 <= m[r - 1][c] < paletteSize;
      if c > 0 {
        assert 0 <= m[r - 1][c - 1] < paletteSize;
      }
    }
  }

  const NeighborWeights: seq<int> := [2, 1, 2]

  /** One step of the scoring loop: a present neighbour adds its weight. */
  function AddScore(scores: seq<int>, color: int, weight: int): seq<int>
    requires |scores| == PaletteMaxSize && color < PaletteMaxSize
  {
    if color >= 0 then scores[color := scores[color] + weight] else scores
  }

  /** Scores of all colours, as the scoring loop leaves them. */
  function NeighborScores(nb: seq<int>): (scores: seq<int>)
    requires |nb| == NumPaletteNeighbors
    requires forall i :: 0 <= i < NumPaletteNeighbors ==> -1 <= nb[i] < PaletteMaxSize
    ensures |scores| == PaletteMaxSize
    ensures forall k :: 0 <= k < PaletteMaxSize && k != nb[0] && k != nb[1] && k != nb[2]
                        ==> scores[k] == 0
  {
    var zero := seq(PaletteMaxSize, _ => 0);
    AddScore(AddScore(AddScore(zero, nb[0], NeighborWeights[0]), nb[1], NeighborWeights[1]),
             nb[2], NeighborWeights[2])
  }

  /** The scores add up to the weight of the neighbours inside the map: an
      outside neighbour contributes nothing. */
  lemma NeighborScoresTotal(nb: seq<int>)
    requires |nb| == NumPaletteNeighbors
    requires forall i :: 0 <= i < NumPaletteNeighbors ==> -1 <= nb[i] < PaletteMaxSize
    ensures Sum(NeighborScores(nb)) == (if nb[0] >= 0 then 2 else 0) + (if nb[1] >= 0 then 1 else 0)
                                       + (if nb[2] >= 0 then 2 else 0)
  {
    var zero := seq(PaletteMaxSize, _ => 0);
    var s1 := AddScore(zero, nb[0], NeighborWeights[0]);
    var s2 := AddScore(s1, nb[1], NeighborWeights[1]);
    SumOfZeros(zero);
    if nb[0] >= 0 { SumUpdate(zero, nb[0], zero[nb[0]] + 2); }
    if nb[1] >= 0 { SumUpdate(s1, nb[1], s1[nb[1]] + 1); }
    if nb[2] >= 0 { SumUpdate(s2, nb[2], s2[nb[2]] + 2); }
  }

  /** `order` is a permutation of 0..PALETTE_MAX_SIZE-1 and `inv` its inverse. */
  predicate IsInversePair(order: seq<int>, inv: seq<int>)
  {
    |order| == PaletteMaxSize && |inv| == PaletteMaxSize
    && (forall k :: 0 <= k < PaletteMaxSize ==> 0 <= order[k] < PaletteMaxSize && inv[order[k]] == k)
    && (forall v :: 0 <= v < PaletteMaxSize ==> 0 <= inv[v] < PaletteMaxSize && order[inv[v]] == v)
  }

  /** Entry m moved to slot i, entries i..m-1 shifted one slot up. */
  function Rotate(s: seq<int>, i: int, m: int): (r: seq<int>)
    requires 0 <= i <= m < |s|
    ensures |r| == |s|
  {
    seq(|s|, p requires 0 <= p < |s| => if p == i then s[m] else if i < p <= m then s[p - 1] else s[p])
  }

  /** The shifting loop of the selection: moves the best score at index m to
      index i, keeping the colour order and its inverse consistent. */
  method MoveToFront(scores: seq<int>, order: seq<int>, inv: seq<int>, i: int, m: int)
    returns (scores': seq<int>, order': seq<int>, inv': seq<int>)
    requires IsInversePair(order, inv) && |scores| == PaletteMaxSize
    requires 0 <= i < m < PaletteMaxSize
    ensures IsInversePair(order', inv')
    ensures scores' == Rotate(scores, i, m)
    ensures order' == Rotate(order, i, m)
    ensures inv'[order[m]] == i
    ensures forall v :: 0 <= v < PaletteMaxSize && i <= inv[v] < m ==> inv'[v] == inv[v] + 1
    ensures forall v :: 0 <= v < PaletteMaxSize && !(i <= inv[v] <= m) ==> inv'[v] == inv[v]
  {
    var maxScore := scores[m];
    var maxColor := order[m];
    scores', order', inv' := ShiftUp(scores, order, inv, i, m);
    scores' := scores'[i := maxScore];
    order' := order'[i := maxColor];
    inv' := inv'[maxColor := i];
    assert inv[maxColor] == m;
    forall p | 0 <= p < PaletteMaxSize
      ensures 0 <= order'[p] < PaletteMaxSize && inv'[order'[p]] == p
    {
      if p != i && i < p <= m {
        assert order'[p] == order[p - 1] && inv[order[p - 1]] == p - 1;
      } else if p != i {
        assert order'[p] == order[p] && inv[order[p]] == p;
      }
    }
    forall v | 0 <= v < PaletteMaxSize
      ensures 0 <= inv'[v] < PaletteMaxSize && order'[inv'[v]] == v
    {
      assert order[inv[v]] == v;
    }
  }

  /** The shifting loop of `MoveToFront` alone: entries i..m-1 move one
      slot up and the inverse follows the colours that moved. */
  method ShiftUp(scores: seq<int>, order: seq<int>, inv: seq<int>, i: int, m: int)
    returns (scores': seq<int>, order': seq<int>, inv': seq<int>)
    requires IsInversePair(order, inv) && |scores| == PaletteMaxSize
    requires 0 <= i < m < PaletteMaxSize
    ensures |scores'| == PaletteMaxSize && |order'| == PaletteMaxSize && |inv'| == PaletteMaxSize
    ensures forall p :: 0 <= p < PaletteMaxSize && !(i < p <= m) ==> scores'[p] == scores[p]
    ensures forall p :: i < p <= m ==> scores'[p] == scores[p - 1]
    ensures forall p :: 0 <= p < PaletteMaxSize && !(i < p <= m) ==> order'[p] == order[p]
    ensures forall p :: i < p <= m ==> order'[p] == order[p - 1]
    ensures forall v :: 0 <= v < PaletteMaxSize && i <= inv[v] < m ==> inv'[v] == inv[v] + 1
    ensures forall v :: 0 <= v < PaletteMaxSize && !(i <= inv[v] < m) ==> inv'[v] == inv[v]
  {
    scores', order', inv' := scores, order, inv;
    var k := m;
    while k > i
      invariant i <= k <= m
      invariant |scores'| == PaletteMaxSize && |order'| == PaletteMaxSize && |inv'| == PaletteMaxSize
      invariant forall p :: 0 <= p < PaletteMaxSize && !(k < p <= m) ==> scores'[p] == scores[p]
      invariant forall p :: k < p <= m ==> scores'[p] == scores[p - 1]
      invariant forall p :: 0 <= p < PaletteMaxSize && !(k < p <= m) ==> order'[p] == order[p]
      invariant forall p :: k < p <= m ==> order'[p] == order[p - 1]
      invariant forall v :: 0 <= v < PaletteMaxSize && k <= inv[v] < m ==> inv'[v] == inv[v] + 1
      invariant forall v :: 0 <= v < PaletteMaxSize && !(k <= inv[v] < m) ==> inv'[v] == inv[v]
    {
      scores' := scores'[k := scores'[k - 1]];
      order' := order'[k := order'[k - 1]];
      inv' := inv'[order'[k] := k];
      k := k - 1;
    }
  }

  /** The inner scan of the selection: the first index in [i, n) holding the
      largest score (a later equal score does not replace it, the comparison
      being strict). */
  method FirstMaxIndex(sorted: seq<int>, i: int, n: int) returns (maxIdx: int)
    requires 0 <= i < |sorted| && n <= |sorted|
    ensures i <= maxIdx && (maxIdx < n || maxIdx == i)
    ensures forall q :: i <= q < n ==> sorted[q] <= sorted[maxIdx]
    ensures forall q :: i <= q < maxIdx ==> sorted[q] < sorted[maxIdx]
  {
    var max := sorted[i];
    maxIdx := i;
    var j := i + 1;
    while j < n
      invariant i < j && (j <= n || j == i + 1)
      invariant i <= maxIdx < j
      invariant max == sorted[maxIdx]
      invariant forall q :: i <= q < j ==> sorted[q] <= max
      invariant forall q :: i <= q < maxIdx ==> sorted[q] < max
    {
      if sorted[j] > max {
        max := sorted[j];
        maxIdx := j;
      }
      j := j + 1;
    }
  }

  /** What the selection loop keeps true after its first i rounds. */
  ghost predicate SelectionInvariant(scores: seq<int>, n: int, i: int,
                                     sorted: seq<int>, order: seq<int>, inv: seq<int>)
    requires |scores| == PaletteMaxSize && 0 <= n <= PaletteMaxSize && 0 <= i
  {
    IsInversePair(order, inv) && |sorted| == PaletteMaxSize
    && (forall k :: 0 <= k < PaletteMaxSize ==> sorted[k] == scores[order[k]])
    && (forall k :: n <= k < PaletteMaxSize ==> order[k] == k)
    && (forall a, b :: 0 <= a < i && a < b < n ==> sorted[a] >= sorted[b])
    && (forall a, v :: 0 <= a < i && 0 <= v < n && a < inv[v] && scores[v] == sorted[a] ==> order[a] < v)
    && (forall p, q :: i <= p < q < n ==> order[p] < order[q])
  }

  /** Rotating the best score to the front keeps the scores sorted on the
      processed prefix. */
  lemma RotationKeepsPrefixSorted(n: int, i: int, m: int, sorted: seq<int>, sorted': seq<int>)
    requires |sorted| == PaletteMaxSize && 0 <= i < m < n <= PaletteMaxSize
    requires forall a, b :: 0 <= a < i && a < b < n ==> sorted[a] >= sorted[b]
    requires forall q :: i <= q < n ==> sorted[q] <= sorted[m]
    requires sorted' == Rotate(sorted, i, m)
    ensures forall a, b :: 0 <= a < i + 1 && a < b < n ==> sorted'[a] >= sorted'[b]
  {
    forall a, b | 0 <= a < i + 1 && a < b < n
      ensures sorted'[a] >= sorted'[b]
    {
      var b' := if b == i then m else if i < b <= m then b - 1 else b;
      assert sorted'[b] == sorted[b'];
    }
  }

  /** Rotating keeps the unprocessed colours in increasing order. */
  lemma RotationKeepsTailIncreasing(n: int, i: int, m: int, order: seq<int>, order': seq<int>)
    requires |order| == PaletteMaxSize && 0 <= i < m < n <= PaletteMaxSize
    requires forall p, q :: i <= p < q < n ==> order[p] < order[q]
    requires order' == Rotate(order, i, m)
    ensures forall p, q :: i + 1 <= p < q < n ==> order'[p] < order'[q]
  {
    forall p, q | i + 1 <= p < q < n
      ensures order'[p] < order'[q]
    {
      var p' := if p <= m then p - 1 else p;
      var q' := if q <= m then q - 1 else q;
      assert order'[p] == order[p'] && order'[q] == order[q'];
    }
  }

  /** Rotating keeps ties broken toward the lower colour. */
  lemma RotationKeepsTieBreak(scores: seq<int>, n: int, i: int, m: int, sorted: seq<int>, order: seq<int>,
                              inv: seq<int>, sorted': seq<int>, order': seq<int>, inv': seq<int>)
    requires |scores| == PaletteMaxSize && 0 <= i < m < n <= PaletteMaxSize
    requires IsInversePair(order, inv) && |sorted| == PaletteMaxSize
    requires forall k :: 0 <= k < PaletteMaxSize ==> sorted[k] == scores[order[k]]
    requires forall a, v :: 0 <= a < i && 0 <= v < n && a < inv[v] && scores[v] == sorted[a] ==> order[a] < v
    requires forall p, q :: i <= p < q < n ==> order[p] < order[q]
    requires forall q :: i <= q < m ==> sorted[q] < sorted[m]
    requires forall v :: 0 <= v < n ==> inv[v] < n
    requires sorted' == Rotate(sorted, i, m) && order' == Rotate(order, i, m) && |inv'| == PaletteMaxSize
    requires inv'[order[m]] == i
    requires forall v :: 0 <= v < PaletteMaxSize && i <= inv[v] < m ==> inv'[v] == inv[v] + 1
    requires forall v :: 0 <= v < PaletteMaxSize && !(i <= inv[v] <= m) ==> inv'[v] == inv[v]
    ensures forall a, v :: 0 <= a < i + 1 && 0 <= v < n && a < inv'[v] && scores[v] == sorted'[a] ==> order'[a] < v
  {
    forall a, v | 0 <= a < i + 1 && 0 <= v < n && a < inv'[v] && scores[v] == sorted'[a]
      ensures order'[a] < v
    {
      assert order[inv[v]] == v;
      assert i <= inv[v] < m ==> sorted[inv[v]] < sorted[m];
    }
  }

  /** A round whose best score is already in place keeps the invariant. */
  lemma SelectionStepInPlace(scores: seq<int>, n: int, i: int, sorted: seq<int>, order: seq<int>, inv: seq<int>)
    requires |scores| == PaletteMaxSize && 0 <= n <= PaletteMaxSize && 0 <= i < NumPaletteNeighbors
    requires SelectionInvariant(scores, n, i, sorted, order, inv)
    requires forall q :: i <= q < n ==> sorted[q] <= sorted[i]
    ensures SelectionInvariant(scores, n, i + 1, sorted, order, inv)
  {
    forall a, v | 0 <= a < i + 1 && 0 <= v < n && a < inv[v] && scores[v] == sorted[a]
      ensures order[a] < v
    {
      assert order[inv[v]] == v;
    }
  }

  /** A round that rotates the best score from `m` to `i` keeps the
      invariant. */
  lemma SelectionStepRotated(scores: seq<int>, n: int, i: int, sorted: seq<int>, order: seq<int>, inv: seq<int>,
                             m: int, sorted': seq<int>, order': seq<int>, inv': seq<int>)
    requires |scores| == PaletteMaxSize && 0 <= n <= PaletteMaxSize && 0 <= i < NumPaletteNeighbors
    requires SelectionInvariant(scores, n, i, sorted, order, inv)
    requires i < m < n
    requires forall q :: i <= q < n ==> sorted[q] <= sorted[m]
    requires forall q :: i <= q < m ==> sorted[q] < sorted[m]
    requires IsInversePair(order', inv') && sorted' == Rotate(sorted, i, m)
             && order' == Rotate(order, i, m) && inv'[order[m]] == i
             && (forall v :: 0 <= v < PaletteMaxSize && i <= inv[v] < m ==> inv'[v] == inv[v] + 1)
             && (forall v :: 0 <= v < PaletteMaxSize && !(i <= inv[v] <= m) ==> inv'[v] == inv[v])
    ensures SelectionInvariant(scores, n, i + 1, sorted', order', inv')
  {
    assert forall k :: 0 <= k < PaletteMaxSize ==> sorted'[k] == scores[order'[k]];
    RotationKeepsPrefixSorted(n, i, m, sorted, sorted');
    RotationKeepsTailIncreasing(n, i, m, order, order');
    RotationKeepsTieBreak(scores, n, i, m, sorted, order, inv, sorted', order', inv');
  }

  /** One round of the selection (scan, then rotate) keeps the invariant. */
  lemma SelectionStep(scores: seq<int>, n: int, i: int, sorted: seq<int>, order: seq<int>, inv: seq<int>,
                      m: int, sorted': seq<int>, order': seq<int>, inv': seq<int>)
    requires |scores| == PaletteMaxSize && 0 <= n <= PaletteMaxSize && 0 <= i < NumPaletteNeighbors
    requires SelectionInvariant(scores, n, i, sorted, order, inv)
    requires i <= m && (m < n || m == i)
    requires forall q :: i <= q < n ==> sorted[q] <= sorted[m]
    requires forall q :: i <= q < m ==> sorted[q] < sorted[m]
    requires m == i ==> sorted' == sorted && order' == order && inv' == inv
    requires m != i ==> IsInversePair(order', inv') && sorted' == Rotate(sorted, i, m)
                        && order' == Rotate(order, i, m) && inv'[order[m]] == i
                        && (forall v :: 0 <= v < PaletteMaxSize && i <= inv[v] < m ==> inv'[v] == inv[v] + 1)
                        && (forall v :: 0 <= v < PaletteMaxSize && !(i <= inv[v] <= m) ==> inv'[v] == inv[v])
    ensures SelectionInvariant(scores, n, i + 1, sorted', order', inv')
  {
    if m != i {
      SelectionStepRotated(scores, n, i, sorted, order, inv, m, sorted', order', inv');
    } else {
      SelectionStepInPlace(scores, n, i, sorted, order, inv);
    }
  }

  /** The selection loop: the three largest scores end up in front, in
      non-increasing order; among equal scores the lower colour comes first. */
  method SelectTopScores(scores: seq<int>, paletteSize: int)
    returns (sorted: seq<int>, order: seq<int>, inv: seq<int>)
    requires |scores| == PaletteMaxSize && 0 <= paletteSize <= PaletteMaxSize
    ensures IsInversePair(order, inv) && |sorted| == PaletteMaxSize
    ensures forall k :: 0 <= k < PaletteMaxSize ==> sorted[k] == scores[order[k]]
    ensures forall k :: paletteSize <= k < PaletteMaxSize ==> order[k] == k
    ensures forall a, b :: 0 <= a < NumPaletteNeighbors && a < b < paletteSize ==> sorted[a] >= sorted[b]
    ensures forall a, v :: (0 <= a < NumPaletteNeighbors && 0 <= v < paletteSize
                            && a < inv[v] && scores[v] == sorted[a]) ==> order[a] < v
    ensures forall p, q :: NumPaletteNeighbors <= p < q < paletteSize ==> order[p] < order[q]
    ensures TopScoresSelected(scores, paletteSize, sorted, order, inv)
  {
    sorted := scores;
    order := seq(PaletteMaxSize, k => k);
    inv := seq(PaletteMaxSize, k => k);
    var i := 0;
    while i < NumPaletteNeighbors
      invariant 0 <= i <= NumPaletteNeighbors
      invariant SelectionInvariant(scores, paletteSize, i, sorted, order, inv)
    {
      var maxIdx := FirstMaxIndex(sorted, i, paletteSize);
      var sorted', order', inv' := sorted, order, inv;
      if maxIdx != i {
        sorted', order', inv' := MoveToFront(sorted, order, inv, i, maxIdx);
      }
      SelectionStep(scores, paletteSize, i, sorted, order, inv, maxIdx, sorted', order', inv');
      sorted, order, inv := sorted', order', inv';
      i := i + 1;
    }
  }

  /** Reference definition of the context from the neighbours' colour pattern
      (-1 marks a neighbour outside the map). */
  function PatternContext(l: int, tl: int, t: int): int
  {
    if l < 0 || t < 0 then 0
    else if l == t && t == tl then 4
    else if l == t then 3
    else if tl == l || tl == t then 2
    else 1
  }

  /** What the selection leaves for a valid neighbour pattern: the scores
      of the neighbours in colour order, the first three sorted. */
  ghost predicate SelectedFromPattern(nb: seq<int>, paletteSize: int, sorted: seq<int>, order: seq<int>, inv: seq<int>)
  {
    |nb| == NumPaletteNeighbors && 0 <= paletteSize <= PaletteMaxSize
    && (forall i :: 0 <= i < NumPaletteNeighbors ==> -1 <= nb[i] < paletteSize)
    && (nb[0] >= 0 || nb[2] >= 0)
    && (nb[1] >= 0 <==> nb[0] >= 0 && nb[2] >= 0)
    && IsInversePair(order, inv) && |sorted| == PaletteMaxSize
    && (forall k :: 0 <= k < PaletteMaxSize ==> sorted[k] == NeighborScores(nb)[order[k]])
    && (forall k :: paletteSize <= k < PaletteMaxSize ==> order[k] == k)
    && (forall a, b :: 0 <= a < NumPaletteNeighbors && a < b < paletteSize ==> sorted[a] >= sorted[b])
  }

  /** Every colour of the palette sits at a slot inside the palette. */
  lemma SlotsInsidePalette(nb: seq<int>, paletteSize: int, sorted: seq<int>, order: seq<int>, inv: seq<int>)
    requires SelectedFromPattern(nb, paletteSize, sorted, order, inv)
    ensures forall v :: 0 <= v < paletteSize ==> inv[v] < paletteSize
  {
    forall v | 0 <= v < paletteSize ensures inv[v] < paletteSize {
      assert order[inv[v]] == v;
    }
  }

  /** One neighbour outside the map: scores 2, 0, 0. */
  lemma TopScoresOneSide(nb: seq<int>, paletteSize: int, sorted: seq<int>, order: seq<int>, inv: seq<int>)
    requires SelectedFromPattern(nb, paletteSize, sorted, order, inv)
    requires nb[0] < 0 || nb[2] < 0
    ensures sorted[0] == 2 && sorted[1] == 0 && sorted[2] == 0
  {
    SlotsInsidePalette(nb, paletteSize, sorted, order, inv);
    var s := NeighborScores(nb);
    var l, t := nb[0], nb[2];
    var x := if l >= 0 then l else t;
    assert s[x] == 2;
    assert forall k :: 0 <= k < PaletteMaxSize && k != x ==> s[k] == 0;
    assert sorted[inv[x]] == 2;
    assert sorted[0] == 2;
    assert order[0] == x;
  }

  /** All three neighbours equal: scores 5, 0, 0. */
  lemma TopScoresAllEqual(nb: seq<int>, paletteSize: int, sorted: seq<int>, order: seq<int>, inv: seq<int>)
    requires SelectedFromPattern(nb, paletteSize, sorted, order, inv)
    requires nb[0] >= 0 && nb[2] >= 0 && nb[0] == nb[2] && nb[2] == nb[1]
    ensures sorted[0] == 5 && sorted[1] == 0 && sorted[2] == 0
  {
    SlotsInsidePalette(nb, paletteSize, sorted, order, inv);
    var s := NeighborScores(nb);
    var l := nb[0];
    assert s[l] == 5;
    assert forall k :: 0 <= k < PaletteMaxSize && k != l ==> s[k] == 0;
    assert sorted[inv[l]] == 5;
    assert sorted[0] >= sorted[inv[l]];
    assert sorted[0] == 5;
    assert order[0] == l;
  }

  /** Left equals top, top-left differs: scores 4, 1, 0. */
  lemma TopScoresLeftIsTop(nb: seq<int>, paletteSize: int, sorted: seq<int>, order: seq<int>, inv: seq<int>)
    requires SelectedFromPattern(nb, paletteSize, sorted, order, inv)
    requires nb[0] >= 0 && nb[2] >= 0 && nb[0] == nb[2] && nb[2] != nb[1]
    ensures sorted[0] == 4 && sorted[1] == 1 && sorted[2] == 0
  {
    SlotsInsidePalette(nb, paletteSize, sorted, order, inv);
    var s := NeighborScores(nb);
    var l, tl := nb[0], nb[1];
    assert s[l] == 4 && s[tl] == 1;
    assert forall k :: 0 <= k < PaletteMaxSize && k != l && k != tl ==> s[k] == 0;
    assert sorted[inv[l]] == 4;
    assert sorted[0] >= sorted[inv[l]];
    assert sorted[0] == 4;
    assert order[0] == l;
    assert sorted[inv[tl]] == 1;
    assert sorted[1] >= sorted[inv[tl]];
    assert sorted[1] == 1;
    assert order[1] == tl;
  }

  /** Top-left equals one of left and top, which differ: scores 3, 2, 0. */
  lemma TopScoresCornerMatches(nb: seq<int>, paletteSize: int, sorted: seq<int>, order: seq<int>, inv: seq<int>)
    requires SelectedFromPattern(nb, paletteSize, sorted, order, inv)
    requires nb[0] >= 0 && nb[2] >= 0 && nb[0] != nb[2] && (nb[1] == nb[0] || nb[1] == nb[2])
    ensures sorted[0] == 3 && sorted[1] == 2 && sorted[2] == 0
  {
    SlotsInsidePalette(nb, paletteSize, sorted, order, inv);
    var s := NeighborScores(nb);
    var l, tl, t := nb[0], nb[1], nb[2];
    var big := tl;
    var small := if tl == l then t else l;
    assert s[big] == 3 && s[small] == 2;
    assert forall k :: 0 <= k < PaletteMaxSize && k != big && k != small ==> s[k] == 0;
    assert sorted[inv[big]] == 3;
    assert sorted[0] >= sorted[inv[big]];
    assert sorted[0] == 3;
    assert order[0] == big;
    assert sorted[inv[small]] == 2;
    var smallPos := inv[small];
    assert sorted[1] >= sorted[smallPos] || smallPos == 1;
    assert sorted[1] == 2;
    assert order[1] == small;
  }

  /** Three different colours: scores 2, 2, 1. */
  lemma TopScoresAllDifferent(nb: seq<int>, paletteSize: int, sorted: seq<int>, order: seq<int>, inv: seq<int>)
    requires SelectedFromPattern(nb, paletteSize, sorted, order, inv)
    requires nb[0] >= 0 && nb[2] >= 0 && nb[0] != nb[2] && nb[1] != nb[0] && nb[1] != nb[2]
    ensures sorted[0] == 2 && sorted[1] == 2 && sorted[2] == 1
  {
    SlotsInsidePalette(nb, paletteSize, sorted, order, inv);
    var s := NeighborScores(nb);
    var l, tl, t := nb[0], nb[1], nb[2];
    assert s[l] == 2 && s[tl] == 1 && s[t] == 2;
    assert forall k :: 0 <= k < PaletteMaxSize && k != l && k != tl && k != t ==> s[k] == 0;
    assert sorted[inv[l]] == 2;
    assert sorted[0] >= sorted[inv[l]];
    assert sorted[0] == 2;
    var other := if order[0] == l then t else l;
    assert sorted[inv[other]] == 2;
    var otherPos := inv[other];
    assert sorted[1] >= sorted[otherPos] || otherPos == 1;
    assert sorted[1] == 2;
    assert {order[0], order[1]} == {l, t};
    assert sorted[inv[tl]] == 1;
    var tlPos := inv[tl];
    assert sorted[2] >= sorted[tlPos] || tlPos == 2;
  }

  /** The hash of the three selected scores looks up the pattern's context. */
  lemma HashMatchesPattern(nb: seq<int>, paletteSize: int, sorted: seq<int>, order: seq<int>, inv: seq<int>)
    requires |nb| == NumPaletteNeighbors && 0 <= paletteSize <= PaletteMaxSize
    requires forall i :: 0 <= i < NumPaletteNeighbors ==> -1 <= nb[i] < paletteSize
    requires nb[0] >= 0 || nb[2] >= 0
    requires nb[1] >= 0 <==> nb[0] >= 0 && nb[2] >= 0
    requires TopScoresSelected(NeighborScores(nb), paletteSize, sorted, order, inv)
    ensures 1 <= sorted[0] + 2 * sorted[1] + 2 * sorted[2] <= MaxColorContextHash
    ensures ContextLookup(sorted[0] + 2 * sorted[1] + 2 * sorted[2]) == PatternContext(nb[0], nb[1], nb[2])
  {
    PatternHash(nb, paletteSize, sorted, order, inv);
  }

  /** The case analysis behind `HashMatchesPattern`, one lemma per pattern. */
  lemma PatternHash(nb: seq<int>, paletteSize: int, sorted: seq<int>, order: seq<int>, inv: seq<int>)
    requires SelectedFromPattern(nb, paletteSize, sorted, order, inv)
    ensures 1 <= sorted[0] + 2 * sorted[1] + 2 * sorted[2] <= MaxColorContextHash
    ensures ContextLookup(sorted[0] + 2 * sorted[1] + 2 * sorted[2]) == PatternContext(nb[0], nb[1], nb[2])
  {
    var l, tl, t := nb[0], nb[1], nb[2];
    if l < 0 || t < 0 {
      TopScoresOneSide(nb, paletteSize, sorted, order, inv);
    } else if l == t && t == tl {
      TopScoresAllEqual(nb, paletteSize, sorted, order, inv);
    } else if l == t {
      TopScoresLeftIsTop(nb, paletteSize, sorted, order, inv);
    } else if tl == l || tl == t {
      TopScoresCornerMatches(nb, paletteSize, sorted, order, inv);
    } else {
      TopScoresAllDifferent(nb, paletteSize, sorted, order, inv);
    }
  }

  /** `av1_get_palette_color_index_context`: the context of pixel (r, c), the
      colour order used to code it and the pixel's position in that order. */
  method ColorIndexContext(m: seq<seq<int>>, r: int, c: int, paletteSize: int)
    returns (ctx: int, colorIdx: int, order: seq<int>)
    requires ValidColorMap(m, paletteSize) && paletteSize <= PaletteMaxSize
    requires 0 <= r < |m| && 0 <= c < |m[r]|
    requires r > 0 || c > 0
    ensures 0 <= ctx < PaletteColorIndexContexts
    ensures ctx == PatternContext(NeighborColors(m, r, c)[0], NeighborColors(m, r, c)[1],
                                  NeighborColors(m, r, c)[2])
    ensures |order| == PaletteMaxSize && 0 <= colorIdx < PaletteMaxSize
    ensures order[colorIdx] == m[r][c]
    ensures forall v :: 0 <= v < PaletteMaxSize ==> v in order
    ensures TopScoreOrder(NeighborScores(NeighborColors(m, r, c)), paletteSize, order)
  {
    var nb := NeighborColors(m, r, c);
    NeighborColorsPattern(m, r, c, paletteSize);
    var hash, sorted, inv;
    hash, sorted, order, inv := RankNeighborColors(nb, paletteSize);
    colorIdx := inv[m[r][c]];
    ctx := ContextLookup(hash);
    SelectionOrder(NeighborScores(nb), paletteSize, sorted, order, inv);
  }

  /** The selection and hash steps of the context computation, for a valid
      neighbour pattern: the colour order with its inverse, and the hash of
      the three top scores, which looks up the pattern's context. */
  method RankNeighborColors(nb: seq<int>, paletteSize: int) returns (hash: int, sorted: seq<int>, order: seq<int>, inv: seq<int>)
    requires |nb| == NumPaletteNeighbors && 0 <= paletteSize <= PaletteMaxSize
    requires forall i :: 0 <= i < NumPaletteNeighbors ==> -1 <= nb[i] < paletteSize
    requires nb[0] >= 0 || nb[2] >= 0
    requires nb[1] >= 0 <==> nb[0] >= 0 && nb[2] >= 0
    ensures IsInversePair(order, inv)
    ensures 1 <= hash <= MaxColorContextHash
    ensures ContextLookup(hash) == PatternContext(nb[0], nb[1], nb[2])
    ensures TopScoresSelected(NeighborScores(nb), paletteSize, sorted, order, inv)
  {
    var scores := NeighborScores(nb);
    sorted, order, inv := SelectTopScores(scores, paletteSize);
    hash := sorted[0] + 2 * sorted[1] + 2 * sorted[2];
    HashMatchesPattern(nb, paletteSize, sorted, order, inv);
  }

  /** A colour order fixed by the scores: colours outside the palette keep
      their own slot, the first three slots hold the top scores in
      decreasing order with ties going to the lower colour, and the other
      palette colours follow in increasing order. */
  predicate TopScoreOrder(scores: seq<int>, paletteSize: int, order: seq<int>)
    requires |scores| == PaletteMaxSize && |order| == PaletteMaxSize && 0 <= paletteSize <= PaletteMaxSize
  {
    (forall k :: 0 <= k < PaletteMaxSize ==> 0 <= order[k] < PaletteMaxSize)
    && (forall k :: paletteSize <= k < PaletteMaxSize ==> order[k] == k)
    && (forall a, b :: 0 <= a < NumPaletteNeighbors && a < b < paletteSize ==> scores[order[a]] >= scores[order[b]])
    && (forall a, b :: 0 <= a < NumPaletteNeighbors && a < b < paletteSize && scores[order[a]] == scores[order[b]]
                       ==> order[a] < order[b])
    && (forall p, q :: NumPaletteNeighbors <= p < q < paletteSize ==> order[p] < order[q])
  }

  /** The selection's result read as a colour order: the top three slots
      hold the best-scoring colours, ties going to the lower colour. */
  /** What the selection establishes, as one fact. */
  predicate TopScoresSelected(scores: seq<int>, paletteSize: int, sorted: seq<int>, order: seq<int>, inv: seq<int>)
  {
    |scores| == PaletteMaxSize && 0 <= paletteSize <= PaletteMaxSize
    && IsInversePair(order, inv) && |sorted| == PaletteMaxSize
    && (forall k :: 0 <= k < PaletteMaxSize ==> sorted[k] == scores[order[k]])
    && (forall k :: paletteSize <= k < PaletteMaxSize ==> order[k] == k)
    && (forall a, b :: 0 <= a < NumPaletteNeighbors && a < b < paletteSize ==> sorted[a] >= sorted[b])
    && (forall a, v :: (0 <= a < NumPaletteNeighbors && 0 <= v < paletteSize
                        && a < inv[v] && scores[v] == sorted[a]) ==> order[a] < v)
    && (forall p, q :: NumPaletteNeighbors <= p < q < paletteSize ==> order[p] < order[q])
  }

  lemma SelectionOrder(scores: seq<int>, paletteSize: int, sorted: seq<int>, order: seq<int>, inv: seq<int>)
    requires TopScoresSelected(scores, paletteSize, sorted, order, inv)
    ensures TopScoreOrder(scores, paletteSize, order)
    ensures forall v :: 0 <= v < PaletteMaxSize ==> v in order
  {
    forall v | 0 <= v < PaletteMaxSize
      ensures v in order
    {
      assert order[inv[v]] == v;
    }
    forall a, b | 0 <= a < NumPaletteNeighbors && a < b < paletteSize && scores[order[a]] == scores[order[b]]
      ensures order[a] < order[b]
    {
      PaletteSlotHoldsPaletteColor(order, inv, paletteSize, b);
      assert inv[order[b]] == b;
    }
  }

  /** A slot inside the palette holds a palette colour: the slots past it
      hold themselves. */
  lemma PaletteSlotHoldsPaletteColor(order: seq<int>, inv: seq<int>, paletteSize: int, b: int)
    requires IsInversePair(order, inv) && 0 <= paletteSize <= PaletteMaxSize && 0 <= b < paletteSize
    requires forall k :: paletteSize <= k < PaletteMaxSize ==> order[k] == k
    ensures order[b] < paletteSize
  {
    forall k | paletteSize <= k < PaletteMaxSize
      ensures inv[k] == k
    {
      assert inv[order[k]] == k;
    }
  }

  /** `av1_set_default_ref_deltas`, indexed INTRA, LAST, LAST2, LAST3,
      GOLDEN, BWDREF, ALTREF2, ALTREF. */
  function DefaultRefDeltas(): (d: seq<int>)
    ensures |d| == 8
    ensures d[0] == 1
    ensures forall f :: 1 <= f < 8 ==> (d[f] == 0 <==> f in {1, 2, 3, 5}) && (d[f] == -1 <==> f in {4, 6, 7})
  {
    var last := 0;
    [1, last, last, last, -1, last, -1, -1]
  }

  /** `av1_set_default_mode_deltas`. */
  function DefaultModeDeltas(): (d: seq<int>)
    ensures |d| == 2 && forall i :: 0 <= i < 2 ==> d[i] == 0
  {
    [0, 0]
  }
}
