/** The reference-MV candidate stack of `setup_ref_mv_list`: inserting a
    neighbour's MV (or MV pair), ranking the stack by weight, merging a
    cluster into its centroid, and the precision-adjusted de-duplicated copy. */
module RefMvStack {
  import opened IntMath
  import opened MvProjection

  const MaxRefMvStackSize := 8
  /** `NONE_FRAME`: the second reference of a single-reference prediction. */
  const NoneFrame := -1
  /** Stack weights are `uint16_t`; additions wrap modulo 2^16. */
  const WeightModulus := 0x1_0000
  const MaxWeight := 65535

  datatype Candidate = Candidate(thisMv: Mv, compMv: Mv)
  datatype Entry = Entry(cand: Candidate, weight: int)

  /** The part of a candidate the stack compares: both MVs for a compound
      reference pair, only the first for a single reference. */
  function Key(c: Candidate, compound: bool): (k: Candidate)
    ensures compound ==> k == c
    ensures k.thisMv == c.thisMv
  {
    if compound then c else Candidate(c.thisMv, Mv(0, 0))
  }

  function Keys(s: seq<Entry>, compound: bool): (ks: seq<Candidate>)
    ensures |ks| == |s| && forall k :: 0 <= k < |s| ==> ks[k] == Key(s[k].cand, compound)
  {
    seq(|s|, k requires 0 <= k < |s| => Key(s[k].cand, compound))
  }

  function Weights(s: seq<Entry>): (ws: seq<int>)
    ensures |ws| == |s| && forall k :: 0 <= k < |s| ==> ws[k] == s[k].weight
  {
    seq(|s|, k requires 0 <= k < |s| => s[k].weight)
  }

  /** No two stack entries compare equal. */
  predicate Distinct(s: seq<Entry>, compound: bool)
  {
    forall i, j :: 0 <= i < j < |s| ==> Key(s[i].cand, compound) != Key(s[j].cand, compound)
  }

  /** The index the codec's scan stops at: the first entry equal to `key`,
      or the stack size when there is none. */
  function FindKey(s: seq<Entry>, key: Candidate, compound: bool): (i: nat)
    ensures i <= |s|
    ensures i < |s| ==> Key(s[i].cand, compound) == key
    ensures forall k :: 0 <= k < i ==> Key(s[k].cand, compound) != key
    ensures i == |s| <==> key !in Keys(s, compound)
  {
    var i := FindKeyFrom(s, key, compound, 0);
    assert i < |s| ==> Keys(s, compound)[i] == key;
    i
  }

  /** The scan of `FindKey` from position `from` on. */
  function FindKeyFrom(s: seq<Entry>, key: Candidate, compound: bool, from: nat): (i: nat)
    requires from <= |s|
    ensures from <= i <= |s|
    ensures i < |s| ==> Key(s[i].cand, compound) == key
    ensures forall k :: from <= k < i ==> Key(s[k].cand, compound) != key
    decreases |s| - from
  {
    if from == |s| then from
    else if Key(s[from].cand, compound) == key then from
    else FindKeyFrom(s, key, compound, from + 1)
  }

  /** Entry i gains `weight` on its uint16 counter. */
  function Bump(s: seq<Entry>, i: int, weight: int): (r: seq<Entry>)
    requires 0 <= i < |s|
    ensures |r| == |s| && forall k :: 0 <= k < |s| ==> r[k].cand == s[k].cand
    ensures forall k :: 0 <= k < |s| && k != i ==> r[k].weight == s[k].weight
    ensures r[i].weight == (s[i].weight + weight) % WeightModulus
  {
    s[i := Entry(s[i].cand, (s[i].weight + weight) % WeightModulus)]
  }

  /** One stack update of `add_ref_mv_candidate`: an MV already on the stack
      gains `weight` (the uint16 counter wraps); a new MV is appended while
      there is room, and dropped otherwise. */
  function Insert(s: seq<Entry>, c: Candidate, weight: int, compound: bool): (r: seq<Entry>)
    requires |s| <= MaxRefMvStackSize
    ensures |r| <= MaxRefMvStackSize
    ensures |r| == if Key(c, compound) in Keys(s, compound) || |s| == MaxRefMvStackSize then |s| else |s| + 1
    ensures Distinct(s, compound) ==> Distinct(r, compound)
    ensures Key(c, compound) in Keys(r, compound) <==> Key(c, compound) in Keys(s, compound) || |s| < MaxRefMvStackSize
    ensures forall k :: 0 <= k < |s| ==> r[k].cand == s[k].cand
    ensures forall k :: 0 <= k < |s| && Key(s[k].cand, compound) != Key(c, compound) ==> r[k].weight == s[k].weight
    ensures |r| > |s| ==> r[|s|] == Entry(c, weight)
  {
    var i := FindKey(s, Key(c, compound), compound);
    if i < |s| then
      var r := Bump(s, i, weight);
      assert Keys(r, compound)[i] == Key(c, compound);
      r
    else if |s| < MaxRefMvStackSize then
      assert Keys(s + [Entry(c, weight)], compound) == Keys(s, compound) + [Key(c, compound)];
      s + [Entry(c, weight)]
    else s
  }

  lemma SumWeightsAppend(s: seq<Entry>, e: Entry)
    ensures Sum(Weights(s + [e])) == Sum(Weights(s)) + e.weight
  {
    assert Weights(s + [e]) == Weights(s) + [e.weight];
    SumAppend(Weights(s), [e.weight]);
  }

  lemma SumWeightsUpdate(s: seq<Entry>, i: int, e: Entry)
    requires 0 <= i < |s|
    ensures Sum(Weights(s[i := e])) == Sum(Weights(s)) - s[i].weight + e.weight
  {
    assert Weights(s[i := e]) == Weights(s)[i := e.weight];
    SumUpdate(Weights(s), i, e.weight);
  }

  lemma ModShift(x: int, a: int, w: int)
    ensures (x - a + (a + w) % WeightModulus) % WeightModulus == (x + w) % WeightModulus
  {
    var q := (a + w) / WeightModulus;
    assert (a + w) % WeightModulus == a + w - q * WeightModulus;
    assert x - a + (a + w) % WeightModulus == (x + w) + (-q) * WeightModulus;
  }

  /** Adding `weight` to one entry's wrapped counter adds it to the total. */
  lemma BumpWeightTotal(s: seq<Entry>, i: int, weight: int)
    requires 0 <= i < |s|
    ensures Sum(Weights(Bump(s, i, weight))) % WeightModulus == (Sum(Weights(s)) + weight) % WeightModulus
  {
    SumWeightsUpdate(s, i, Entry(s[i].cand, (s[i].weight + weight) % WeightModulus));
    ModShift(Sum(Weights(s)), s[i].weight, weight);
  }

  lemma InsertFoundTotal(s: seq<Entry>, c: Candidate, weight: int, compound: bool)
    requires |s| <= MaxRefMvStackSize && FindKey(s, Key(c, compound), compound) < |s|
    ensures Sum(Weights(Insert(s, c, weight, compound))) % WeightModulus == (Sum(Weights(s)) + weight) % WeightModulus
  {
    var i := FindKey(s, Key(c, compound), compound);
    assert Insert(s, c, weight, compound) == Bump(s, i, weight);
    BumpWeightTotal(s, i, weight);
  }

  lemma InsertAppendTotal(s: seq<Entry>, c: Candidate, weight: int, compound: bool)
    requires |s| < MaxRefMvStackSize && FindKey(s, Key(c, compound), compound) == |s|
    ensures Sum(Weights(Insert(s, c, weight, compound))) == Sum(Weights(s)) + weight
  {
    assert Insert(s, c, weight, compound) == s + [Entry(c, weight)];
    SumWeightsAppend(s, Entry(c, weight));
  }

  /** The stack's total weight, modulo 2^16, grows by exactly `weight` when
      the candidate is kept and is unchanged when it is dropped. */
  lemma InsertWeightTotal(s: seq<Entry>, c: Candidate, weight: int, compound: bool)
    requires |s| <= MaxRefMvStackSize
    ensures var kept := Key(c, compound) in Keys(s, compound) || |s| < MaxRefMvStackSize;
            Sum(Weights(Insert(s, c, weight, compound))) % WeightModulus
              == (Sum(Weights(s)) + (if kept then weight else 0)) % WeightModulus
  {
    var i := FindKey(s, Key(c, compound), compound);
    if i < |s| {
      InsertFoundTotal(s, c, weight, compound);
    } else if |s| < MaxRefMvStackSize {
      InsertAppendTotal(s, c, weight, compound);
    } else {
      assert Insert(s, c, weight, compound) == s;
    }
  }

  /** A neighbouring block as the scan sees it: whether it is inter coded,
      its two reference frames, the MV of each slot at the scanned column,
      whether each slot's frame uses global motion, and whether its mode
      codes a new MV. */
  datatype Neighbor = Neighbor(isInter: bool, refFrame: seq<int>, mvs: seq<Mv>,
                               globalBlock: seq<bool>, hasNewMv: bool)

  predicate WellFormed(nb: Neighbor)
  {
    |nb.refFrame| == 2 && |nb.mvs| == 2 && |nb.globalBlock| == 2
  }

  datatype StackState = StackState(entries: seq<Entry>, newMvCount: int, refMatchCount: int)

  /** The MV a matching slot contributes: the global-motion candidate when
      the block follows global motion, else its own MV. */
  function SlotMv(nb: Neighbor, slot: int, gm: Mv): Mv
    requires WellFormed(nb) && 0 <= slot < 2
  {
    if nb.globalBlock[slot] then gm else nb.mvs[slot]
  }

  /** Single reference: the candidate contributes once per slot that uses
      the wanted frame. */
  function SingleSlot(st: StackState, nb: Neighbor, rf0: int, gm: seq<Mv>, weight: int, slot: int): (r: StackState)
    requires WellFormed(nb) && |gm| == 2 && 0 <= slot < 2 && |st.entries| <= MaxRefMvStackSize
    ensures |st.entries| <= |r.entries| <= MaxRefMvStackSize
    ensures Distinct(st.entries, false) ==> Distinct(r.entries, false)
    ensures forall k :: 0 <= k < |st.entries| ==> r.entries[k].cand == st.entries[k].cand
  {
    if nb.refFrame[slot] == rf0 then
      var c := Candidate(SlotMv(nb, slot, gm[0]), Mv(0, 0));
      StackState(Insert(st.entries, c, weight, false),
                 st.newMvCount + (if nb.hasNewMv then 1 else 0), st.refMatchCount + 1)
    else st
  }

  /** The candidate pair a compound neighbour contributes. */
  function CompoundCandidate(nb: Neighbor, gm: seq<Mv>): Candidate
    requires WellFormed(nb) && |gm| == 2
  {
    Candidate(SlotMv(nb, 0, gm[0]), SlotMv(nb, 1, gm[1]))
  }

  /** How many times the neighbour matches the wanted reference(s). */
  function MatchedSlots(nb: Neighbor, rf: (int, int)): nat
    requires WellFormed(nb)
  {
    if !nb.isInter then 0
    else if rf.1 == NoneFrame then (if nb.refFrame[0] == rf.0 then 1 else 0) + (if nb.refFrame[1] == rf.0 then 1 else 0)
    else if nb.refFrame[0] == rf.0 && nb.refFrame[1] == rf.1 then 1
    else 0
  }

  /** `add_ref_mv_candidate`. */
  function AddRefMvCandidate(st: StackState, nb: Neighbor, rf: (int, int), gm: seq<Mv>, weight: int): (r: StackState)
    requires WellFormed(nb) && |gm| == 2 && |st.entries| <= MaxRefMvStackSize
    requires weight % 2 == 0
    ensures |st.entries| <= |r.entries| <= MaxRefMvStackSize
    ensures Distinct(st.entries, rf.1 != NoneFrame) ==> Distinct(r.entries, rf.1 != NoneFrame)
    ensures forall k :: 0 <= k < |st.entries| ==> r.entries[k].cand == st.entries[k].cand
    ensures r.refMatchCount == st.refMatchCount + MatchedSlots(nb, rf)
    ensures r.newMvCount == st.newMvCount + (if nb.hasNewMv then MatchedSlots(nb, rf) else 0)
    ensures !nb.isInter ==> r == st
    ensures rf.1 != NoneFrame && MatchedSlots(nb, rf) == 1 && |st.entries| < MaxRefMvStackSize
            ==> CompoundCandidate(nb, gm) in Keys(r.entries, true)
  {
    if !nb.isInter then st
    else if rf.1 == NoneFrame then
      SingleSlot(SingleSlot(st, nb, rf.0, gm, weight, 0), nb, rf.0, gm, weight, 1)
    else if nb.refFrame[0] == rf.0 && nb.refFrame[1] == rf.1 then
      StackState(Insert(st.entries, CompoundCandidate(nb, gm), weight, true),
                 st.newMvCount + (if nb.hasNewMv then 1 else 0), st.refMatchCount + 1)
    else st
  }

  /** Weights are non-increasing on [lo, hi). */
  predicate SortedByWeight(s: seq<Entry>, lo: int, hi: int)
    requires 0 <= lo <= hi <= |s|
  {
    forall p, q :: lo <= p < q < hi ==> s[p].weight >= s[q].weight
  }

  lemma SwapPreservesMultiset(t: seq<Entry>, i: int, j: int)
    requires 0 <= i < |t| && 0 <= j < |t|
    ensures multiset(t[i := t[j]][j := t[i]]) == multiset(t)
  {
  }

  lemma SliceMultiset(s: seq<Entry>, t: seq<Entry>, lo: int, hi: int)
    requires 0 <= lo <= hi <= |s| == |t|
    requires multiset(t) == multiset(s) && t[..lo] == s[..lo] && t[hi..] == s[hi..]
    ensures multiset(t[lo..hi]) == multiset(s[lo..hi])
  {
    assert s == s[..lo] + s[lo..hi] + s[hi..];
    assert t == t[..lo] + t[lo..hi] + t[hi..];
    assert multiset(s) == multiset(s[..lo]) + multiset(s[lo..hi]) + multiset(s[hi..]);
    assert multiset(t) == multiset(t[..lo]) + multiset(t[lo..hi]) + multiset(t[hi..]);
    forall e: Entry ensures multiset(t[lo..hi])[e] == multiset(s[lo..hi])[e] {
      assert multiset(t)[e] == multiset(t[..lo])[e] + multiset(t[lo..hi])[e] + multiset(t[hi..])[e];
      assert multiset(s)[e] == multiset(s[..lo])[e] + multiset(s[lo..hi])[e] + multiset(s[hi..])[e];
    }
  }

  function Swap(u: seq<Entry>, i: int, j: int): (v: seq<Entry>)
    requires 0 <= i < |u| && 0 <= j < |u|
    ensures |v| == |u| && multiset(v) == multiset(u)
  {
    SwapPreservesMultiset(u, i, j);
    u[i := u[j]][j := u[i]]
  }

  /** What holds inside a bubble pass over [lo, len) after the positions
      below `idx` are processed: the entry at idx-1 is the lightest so far,
      and everything from `nrLen` is ordered and no heavier than what
      precedes it. */
  ghost predicate PassInvariant(t: seq<Entry>, u: seq<Entry>, lo: int, len: int, hi: int, idx: int, nrLen: int)
  {
    0 <= lo < len <= hi <= |t| && lo + 1 <= idx <= len && lo <= nrLen < idx && |u| == |t|
    && multiset(u) == multiset(t)
    && (forall p :: 0 <= p < lo || len <= p < |t| ==> u[p] == t[p])
    && (len < hi ==> forall q :: lo <= q < len ==> u[q].weight >= t[len].weight)
    && (forall q :: lo <= q < idx - 1 ==> u[q].weight >= u[idx - 1].weight)
    && (forall k, q :: nrLen <= k < idx && lo <= q < k ==> u[q].weight >= u[k].weight)
  }

  lemma PassSwapStep(t: seq<Entry>, u: seq<Entry>, lo: int, len: int, hi: int, idx: int, nrLen: int)
    requires PassInvariant(t, u, lo, len, hi, idx, nrLen) && idx < len
    requires u[idx - 1].weight < u[idx].weight
    ensures PassInvariant(t, Swap(u, idx - 1, idx), lo, len, hi, idx + 1, idx)
  {
    var v := Swap(u, idx - 1, idx);
    assert v[idx].weight == u[idx - 1].weight;
    forall q | lo <= q < idx
      ensures v[q].weight >= v[idx].weight
    {
      if q < idx - 1 {
        assert v[q] == u[q];
      }
    }
  }

  lemma PassKeepStep(t: seq<Entry>, u: seq<Entry>, lo: int, len: int, hi: int, idx: int, nrLen: int)
    requires PassInvariant(t, u, lo, len, hi, idx, nrLen) && idx < len
    requires u[idx - 1].weight >= u[idx].weight
    ensures PassInvariant(t, u, lo, len, hi, idx + 1, nrLen)
  {
  }

  lemma PassEnd(t: seq<Entry>, u: seq<Entry>, lo: int, len: int, hi: int, nrLen: int)
    requires PassInvariant(t, u, lo, len, hi, len, nrLen)
    requires forall k, q :: len <= k < hi && lo <= q < k ==> t[q].weight >= t[k].weight
    ensures forall k, q :: nrLen <= k < hi && lo <= q < k ==> u[q].weight >= u[k].weight
  {
    forall k, q | nrLen <= k < hi && lo <= q < k
      ensures u[q].weight >= u[k].weight
    {
      if k >= len {
        assert u[k] == t[k];
        if q >= len {
          assert u[q] == t[q];
        } else {
          assert t[len].weight >= t[k].weight;
        }
      }
    }
  }

  /** One pass of the bubble sort over [lo, len): an entry is swapped
      forward past a strictly lighter one; `nrLen` is the last swap position.
      Everything from `nrLen` on is in its final place afterwards. */
  method BubblePass(t: seq<Entry>, lo: int, len: int, hi: int) returns (u: seq<Entry>, nrLen: int)
    requires 0 <= lo < len <= hi <= |t|
    requires forall k, q :: len <= k < hi && lo <= q < k ==> t[q].weight >= t[k].weight
    ensures |u| == |t| && multiset(u) == multiset(t)
    ensures forall p :: 0 <= p < lo || len <= p < |t| ==> u[p] == t[p]
    ensures lo <= nrLen < len
    ensures forall k, q :: nrLen <= k < hi && lo <= q < k ==> u[q].weight >= u[k].weight
  {
    u := t;
    nrLen := lo;
    var idx := lo + 1;
    while idx < len
      invariant PassInvariant(t, u, lo, len, hi, idx, nrLen)
    {
      if u[idx - 1].weight < u[idx].weight {
        PassSwapStep(t, u, lo, len, hi, idx, nrLen);
        u := Swap(u, idx - 1, idx);
        nrLen := idx;
      } else {
        PassKeepStep(t, u, lo, len, hi, idx, nrLen);
      }
      idx := idx + 1;
    }
    PassEnd(t, u, lo, len, hi, nrLen);
  }

  /** One of the two bubble sorts of `setup_ref_mv_list`, over [lo, hi):
      passes repeat until a pass makes no swap beyond `lo`. */
  method SortRange(s: seq<Entry>, lo: int, hi: int) returns (t: seq<Entry>)
    requires 0 <= lo <= hi <= |s|
    ensures |t| == |s| && SortedByWeight(t, lo, hi)
    ensures multiset(t[lo..hi]) == multiset(s[lo..hi])
    ensures t[..lo] == s[..lo] && t[hi..] == s[hi..]
  {
    t := s;
    var len := hi;
    while len > lo
      invariant lo <= len <= hi && |t| == |s|
      invariant forall p :: 0 <= p < lo || hi <= p < |s| ==> t[p] == s[p]
      invariant multiset(t) == multiset(s)
      invariant forall k, q :: len <= k < hi && lo <= q < k ==> t[q].weight >= t[k].weight
      decreases len
    {
      t, len := BubblePass(t, lo, len, hi);
    }
    assert t[..lo] == s[..lo] && t[hi..] == s[hi..];
    SliceMultiset(s, t, lo, hi);
  }

  /** The ranking step of `setup_ref_mv_list`: the nearest entries and the
      rest are each sorted by weight, heaviest first, without entries
      crossing between the two groups. */
  method SortRefMvStack(s: seq<Entry>, nearest: int) returns (t: seq<Entry>)
    requires 0 <= nearest <= |s|
    ensures |t| == |s|
    ensures SortedByWeight(t, 0, nearest) && SortedByWeight(t, nearest, |t|)
    ensures multiset(t[..nearest]) == multiset(s[..nearest])
    ensures multiset(t[nearest..]) == multiset(s[nearest..])
  {
    var t1 := SortRange(s, 0, nearest);
    t := SortRange(t1, nearest, |s|);
    assert t[..nearest] == t1[..nearest];
    assert t1[nearest..] == s[nearest..];
    assert t[nearest..] == t[nearest..|s|];
    assert t1[nearest..] == t1[nearest..|s|];
    assert t1[..nearest] == t1[0..nearest];
    assert s[..nearest] == s[0..nearest];
  }

  /** The precision-lowered copy of an entry; the second MV only for
      compound prediction. */
  function Lowered(e: Entry, compound: bool, lower: Mv -> Mv): Entry
  {
    Entry(Candidate(lower(e.cand.thisMv), if compound then lower(e.cand.compMv) else e.cand.compMv), e.weight)
  }

  function LowerAll(s: seq<Entry>, compound: bool, lower: Mv -> Mv): (r: seq<Entry>)
    ensures |r| == |s| && forall i :: 0 <= i < |s| ==> r[i] == Lowered(s[i], compound, lower)
  {
    seq(|s|, i requires 0 <= i < |s| => Lowered(s[i], compound, lower))
  }

  function Cands(s: seq<Entry>): (cs: seq<Candidate>)
    ensures |cs| == |s| && forall k :: 0 <= k < |s| ==> cs[k] == s[k].cand
  {
    seq(|s|, k requires 0 <= k < |s| => s[k].cand)
  }

  /** Reference definition: the total weight of the entries comparing equal
      to `key`. */
  function KeyWeight(s: seq<Entry>, key: Candidate, compound: bool): int
  {
    if |s| == 0 then 0
    else KeyWeight(s[..|s| - 1], key, compound)
         + (if Key(s[|s| - 1].cand, compound) == key then s[|s| - 1].weight else 0)
  }

  lemma {:induction false} KeyWeightAbsent(s: seq<Entry>, key: Candidate, compound: bool)
    requires key !in Keys(s, compound)
    ensures KeyWeight(s, key, compound) == 0
  {
    if |s| > 0 {
      assert Keys(s[..|s| - 1], compound) == Keys(s, compound)[..|s| - 1];
      KeyWeightAbsent(s[..|s| - 1], key, compound);
    }
  }

  lemma ModOfSum(a: int, w: int)
    ensures (a % WeightModulus + w) % WeightModulus == (a + w) % WeightModulus
  {
    ModShift(w, -(a % WeightModulus), a);
    assert (a % WeightModulus + w) == w - (-(a % WeightModulus));
  }

  /** One step of `av1_get_mv_refs_adj`: a lowered entry either joins the
      entry it now equals, adding its weight, or is appended. */
  function AdjStep(adj: seq<Entry>, e: Entry, compound: bool): seq<Entry>
  {
    var k := FindKey(adj, Key(e.cand, compound), compound);
    if k == |adj| then adj + [e]
    else Bump(adj, k, e.weight)
  }

  /** What the de-duplicated list holds after the first `i` lowered entries. */
  ghost predicate AdjInvariant(lowered: seq<Entry>, i: int, adj: seq<Entry>, compound: bool)
  {
    0 <= i <= |lowered| && |adj| <= i
    && Distinct(adj, compound)
    && (forall k :: 0 <= k < |adj| ==> adj[k].cand in Cands(lowered[..i]))
    && (forall j :: 0 <= j < i ==> Key(lowered[j].cand, compound) in Keys(adj, compound))
    && (forall k :: 0 <= k < |adj| ==>
          adj[k].weight == KeyWeight(lowered[..i], Key(adj[k].cand, compound), compound) % WeightModulus)
    && Sum(Weights(adj)) % WeightModulus == Sum(Weights(lowered[..i])) % WeightModulus
  }

  /** The order the de-duplicated list keeps: each entry is the first
      lowered entry with its key, and entries appear in the order of those
      first occurrences, all among the first `i`. */
  predicate FirstOccurrenceOrder(lowered: seq<Entry>, i: int, adj: seq<Entry>, compound: bool)
  {
    (forall k :: 0 <= k < |adj| ==>
       FindKey(lowered, Key(adj[k].cand, compound), compound) < i <= |lowered|
       && adj[k].cand == lowered[FindKey(lowered, Key(adj[k].cand, compound), compound)].cand)
    && (forall a, b :: 0 <= a < b < |adj| ==>
          FindKey(lowered, Key(adj[a].cand, compound), compound) < FindKey(lowered, Key(adj[b].cand, compound), compound))
  }

  /** One merge step keeps the first-occurrence order: a new key is the
      first of its kind and comes after every key seen so far. */
  lemma AdjStepOrder(lowered: seq<Entry>, i: int, adj: seq<Entry>, compound: bool)
    requires 0 <= i < |lowered|
    requires forall j :: 0 <= j < i ==> Key(lowered[j].cand, compound) in Keys(adj, compound)
    requires FirstOccurrenceOrder(lowered, i, adj, compound)
    ensures FirstOccurrenceOrder(lowered, i + 1, AdjStep(adj, lowered[i], compound), compound)
  {
    var e := lowered[i];
    var k := FindKey(adj, Key(e.cand, compound), compound);
    if k == |adj| {
      AppendKeepsOrder(lowered, i, adj, compound);
    } else {
      BumpKeepsOrder(lowered, i, adj, k, e.weight, compound);
    }
  }

  /** A key met for the first time is first found at i. */
  lemma AppendKeepsOrder(lowered: seq<Entry>, i: int, adj: seq<Entry>, compound: bool)
    requires 0 <= i < |lowered|
    requires forall j :: 0 <= j < i ==> Key(lowered[j].cand, compound) in Keys(adj, compound)
    requires Key(lowered[i].cand, compound) !in Keys(adj, compound)
    requires FirstOccurrenceOrder(lowered, i, adj, compound)
    ensures FirstOccurrenceOrder(lowered, i + 1, adj + [lowered[i]], compound)
  {
    var key := Key(lowered[i].cand, compound);
    assert forall j :: 0 <= j < i ==> Key(lowered[j].cand, compound) != key;
    assert FindKey(lowered, key, compound) == i;
    var adj' := adj + [lowered[i]];
    forall k | 0 <= k < |adj'|
      ensures FindKey(lowered, Key(adj'[k].cand, compound), compound) < i + 1
              && adj'[k].cand == lowered[FindKey(lowered, Key(adj'[k].cand, compound), compound)].cand
    {
      if k < |adj| {
        assert adj'[k] == adj[k];
      }
    }
    forall a, b | 0 <= a < b < |adj'|
      ensures FindKey(lowered, Key(adj'[a].cand, compound), compound)
              < FindKey(lowered, Key(adj'[b].cand, compound), compound)
    {
      assert adj'[a] == adj[a];
      if b < |adj| {
        assert adj'[b] == adj[b];
      }
    }
  }

  /** Bumping a weight leaves every candidate, and so the order, alone. */
  lemma BumpKeepsOrder(lowered: seq<Entry>, i: int, adj: seq<Entry>, k: int, w: int, compound: bool)
    requires 0 <= i < |lowered| && 0 <= k < |adj|
    requires FirstOccurrenceOrder(lowered, i, adj, compound)
    ensures FirstOccurrenceOrder(lowered, i + 1, Bump(adj, k, w), compound)
  {
  }

  lemma AdjStepCands(lowered: seq<Entry>, i: int, adj: seq<Entry>, compound: bool)
    requires 0 <= i < |lowered|
    requires forall k :: 0 <= k < |adj| ==> adj[k].cand in Cands(lowered[..i])
    ensures var adj' := AdjStep(adj, lowered[i], compound);
            forall k :: 0 <= k < |adj'| ==> adj'[k].cand in Cands(lowered[..i + 1])
  {
    forall c | c in Cands(lowered[..i]) ensures c in Cands(lowered[..i + 1]) {
      var j :| 0 <= j < i && Cands(lowered[..i])[j] == c;
      assert Cands(lowered[..i + 1])[j] == c;
    }
    assert Cands(lowered[..i + 1])[i] == lowered[i].cand;
  }

  lemma AdjStepKeys(lowered: seq<Entry>, i: int, adj: seq<Entry>, compound: bool)
    requires 0 <= i < |lowered|
    requires forall j :: 0 <= j < i ==> Key(lowered[j].cand, compound) in Keys(adj, compound)
    ensures var adj' := AdjStep(adj, lowered[i], compound);
            forall j :: 0 <= j < i + 1 ==> Key(lowered[j].cand, compound) in Keys(adj', compound)
  {
    var e := lowered[i];
    var k := FindKey(adj, Key(e.cand, compound), compound);
    if k == |adj| {
      assert Keys(adj + [e], compound) == Keys(adj, compound) + [Key(e.cand, compound)];
    } else {
      var adj' := Bump(adj, k, e.weight);
      assert Keys(adj', compound) == Keys(adj, compound);
    }
  }

  lemma KeyWeightSnoc(s: seq<Entry>, e: Entry, key: Candidate, compound: bool)
    ensures KeyWeight(s + [e], key, compound)
            == KeyWeight(s, key, compound) + (if Key(e.cand, compound) == key then e.weight else 0)
  {
    assert (s + [e])[..|s|] == s;
  }

  lemma AdjStepEntryWeights(lowered: seq<Entry>, i: int, adj: seq<Entry>, compound: bool)
    requires 0 <= i < |lowered| && 0 <= lowered[i].weight < WeightModulus
    requires Distinct(adj, compound)
    requires forall j :: 0 <= j < i ==> Key(lowered[j].cand, compound) in Keys(adj, compound)
    requires forall k :: 0 <= k < |adj| ==>
               adj[k].weight == KeyWeight(lowered[..i], Key(adj[k].cand, compound), compound) % WeightModulus
    ensures var adj' := AdjStep(adj, lowered[i], compound);
            forall k :: 0 <= k < |adj'| ==>
              adj'[k].weight == KeyWeight(lowered[..i + 1], Key(adj'[k].cand, compound), compound) % WeightModulus
  {
    var e := lowered[i];
    var k := FindKey(adj, Key(e.cand, compound), compound);
    assert lowered[..i + 1] == lowered[..i] + [e];
    if k == |adj| {
      AppendEntryWeights(lowered[..i], e, adj, compound);
    } else {
      BumpEntryWeights(lowered[..i], e, adj, k, compound);
    }
  }

  /** A key seen for the first time enters the list with its own weight,
      and the keys already listed keep theirs. */
  lemma AppendEntryWeights(prefix: seq<Entry>, e: Entry, adj: seq<Entry>, compound: bool)
    requires 0 <= e.weight < WeightModulus
    requires Key(e.cand, compound) !in Keys(adj, compound)
    requires Key(e.cand, compound) !in Keys(prefix, compound)
    requires forall k :: 0 <= k < |adj| ==>
               adj[k].weight == KeyWeight(prefix, Key(adj[k].cand, compound), compound) % WeightModulus
    ensures forall k :: 0 <= k < |adj| + 1 ==>
              (adj + [e])[k].weight == KeyWeight(prefix + [e], Key((adj + [e])[k].cand, compound), compound) % WeightModulus
  {
    forall k | 0 <= k < |adj| + 1
      ensures (adj + [e])[k].weight == KeyWeight(prefix + [e], Key((adj + [e])[k].cand, compound), compound) % WeightModulus
    {
      if k < |adj| {
        assert Keys(adj, compound)[k] == Key(adj[k].cand, compound);
        KeepsOtherKeyWeight(prefix, e, adj[k], compound);
      } else {
        KeyWeightAbsent(prefix, Key(e.cand, compound), compound);
        KeyWeightSnoc(prefix, e, Key(e.cand, compound), compound);
      }
    }
  }

  lemma KeepsOtherKeyWeight(prefix: seq<Entry>, e: Entry, a: Entry, compound: bool)
    requires Key(a.cand, compound) != Key(e.cand, compound)
    requires a.weight == KeyWeight(prefix, Key(a.cand, compound), compound) % WeightModulus
    ensures a.weight == KeyWeight(prefix + [e], Key(a.cand, compound), compound) % WeightModulus
  {
    KeyWeightSnoc(prefix, e, Key(a.cand, compound), compound);
  }

  /** A key already in the list adds the entry's weight to its counter. */
  lemma BumpEntryWeights(prefix: seq<Entry>, e: Entry, adj: seq<Entry>, k: int, compound: bool)
    requires Distinct(adj, compound)
    requires k == FindKey(adj, Key(e.cand, compound), compound) < |adj|
    requires forall k :: 0 <= k < |adj| ==>
               adj[k].weight == KeyWeight(prefix, Key(adj[k].cand, compound), compound) % WeightModulus
    ensures var adj' := Bump(adj, k, e.weight);
            forall k' :: 0 <= k' < |adj'| ==>
              adj'[k'].weight == KeyWeight(prefix + [e], Key(adj'[k'].cand, compound), compound) % WeightModulus
  {
    var adj' := Bump(adj, k, e.weight);
    forall k' | 0 <= k' < |adj'|
      ensures adj'[k'].weight == KeyWeight(prefix + [e], Key(adj'[k'].cand, compound), compound) % WeightModulus
    {
      KeyWeightSnoc(prefix, e, Key(adj'[k'].cand, compound), compound);
      if k' == k {
        ModOfSum(KeyWeight(prefix, Key(e.cand, compound), compound), e.weight);
      }
    }
  }

  lemma ModAddBoth(a: int, b: int, w: int)
    requires a % WeightModulus == b % WeightModulus
    ensures (a + w) % WeightModulus == (b + w) % WeightModulus
  {
    ModShift(w, -a, a);
    ModShift(w, -b, b);
    ModOfSum(a, w);
    ModOfSum(b, w);
  }

  lemma AdjStepTotal(lowered: seq<Entry>, i: int, adj: seq<Entry>, compound: bool)
    requires 0 <= i < |lowered|
    requires Sum(Weights(adj)) % WeightModulus == Sum(Weights(lowered[..i])) % WeightModulus
    ensures var adj' := AdjStep(adj, lowered[i], compound);
            Sum(Weights(adj')) % WeightModulus == Sum(Weights(lowered[..i + 1])) % WeightModulus
  {
    var e := lowered[i];
    var k := FindKey(adj, Key(e.cand, compound), compound);
    var adj' := AdjStep(adj, e, compound);
    if k == |adj| {
      assert adj' == adj + [e];
      SumWeightsAppend(adj, e);
    } else {
      assert adj' == Bump(adj, k, e.weight);
      BumpWeightTotal(adj, k, e.weight);
    }
    assert Sum(Weights(adj')) % WeightModulus == (Sum(Weights(adj)) + e.weight) % WeightModulus;
    assert lowered[..i + 1] == lowered[..i] + [e];
    SumWeightsAppend(lowered[..i], e);
    ModAddBoth(Sum(Weights(adj)), Sum(Weights(lowered[..i])), e.weight);
  }

  lemma AdjStepDistinct(adj: seq<Entry>, e: Entry, compound: bool)
    requires Distinct(adj, compound)
    ensures var adj' := AdjStep(adj, e, compound);
            |adj| <= |adj'| <= |adj| + 1 && Distinct(adj', compound)
  {
    var key := Key(e.cand, compound);
    var k := FindKey(adj, key, compound);
    var adj' := AdjStep(adj, e, compound);
    if k == |adj| {
      assert adj' == adj + [e];
      forall a, b | 0 <= a < b < |adj'| ensures Key(adj'[a].cand, compound) != Key(adj'[b].cand, compound) {
        if b == |adj| {
          assert Keys(adj, compound)[a] == Key(adj'[a].cand, compound);
        }
      }
    } else {
      assert adj' == Bump(adj, k, e.weight);
      assert forall a :: 0 <= a < |adj| ==> adj'[a].cand == adj[a].cand;
    }
  }

  lemma AdjStepKeepsInvariant(lowered: seq<Entry>, i: int, adj: seq<Entry>, compound: bool)
    requires AdjInvariant(lowered, i, adj, compound) && i < |lowered|
    requires 0 <= lowered[i].weight < WeightModulus
    ensures AdjInvariant(lowered, i + 1, AdjStep(adj, lowered[i], compound), compound)
  {
    AdjStepDistinct(adj, lowered[i], compound);
    AdjStepCands(lowered, i, adj, compound);
    AdjStepKeys(lowered, i, adj, compound);
    AdjStepEntryWeights(lowered, i, adj, compound);
    AdjStepTotal(lowered, i, adj, compound);
  }

  /** `av1_get_mv_refs_adj`: lower the precision of every entry, keep the
      first of each group of entries that become equal, and give it the
      group's total weight (wrapping as a uint16). */
  method MvRefsAdj(orig: seq<Entry>, compound: bool, lower: Mv -> Mv) returns (adj: seq<Entry>)
    requires |orig| <= MaxRefMvStackSize
    requires forall i :: 0 <= i < |orig| ==> 0 <= orig[i].weight < WeightModulus
    ensures |adj| <= |orig| && Distinct(adj, compound)
    ensures forall k :: 0 <= k < |adj| ==> adj[k].cand in Cands(LowerAll(orig, compound, lower))
    ensures forall i :: 0 <= i < |orig| ==> Key(Lowered(orig[i], compound, lower).cand, compound) in Keys(adj, compound)
    ensures forall k :: 0 <= k < |adj| ==>
              adj[k].weight == KeyWeight(LowerAll(orig, compound, lower), Key(adj[k].cand, compound), compound) % WeightModulus
    ensures Sum(Weights(adj)) % WeightModulus == Sum(Weights(orig)) % WeightModulus
    ensures forall k :: 0 <= k < |adj| ==>
              FindKey(LowerAll(orig, compound, lower), Key(adj[k].cand, compound), compound) < |orig|
              && adj[k].cand == LowerAll(orig, compound, lower)[
                   FindKey(LowerAll(orig, compound, lower), Key(adj[k].cand, compound), compound)].cand
    ensures forall a, b :: 0 <= a < b < |adj| ==>
              FindKey(LowerAll(orig, compound, lower), Key(adj[a].cand, compound), compound)
              < FindKey(LowerAll(orig, compound, lower), Key(adj[b].cand, compound), compound)
  {
    var lowered := LowerAll(orig, compound, lower);
    assert forall i :: 0 <= i < |lowered| ==> lowered[i].weight == orig[i].weight;
    adj := MergeLowered(lowered, compound);
    AdjInvariantComplete(orig, compound, lower, adj);
  }

  /** The loop of `av1_get_mv_refs_adj` over the already lowered entries. */
  method MergeLowered(lowered: seq<Entry>, compound: bool) returns (adj: seq<Entry>)
    requires forall i :: 0 <= i < |lowered| ==> 0 <= lowered[i].weight < WeightModulus
    ensures AdjInvariant(lowered, |lowered|, adj, compound)
    ensures FirstOccurrenceOrder(lowered, |lowered|, adj, compound)
  {
    adj := [];
    var i := 0;
    assert AdjInvariant(lowered, 0, adj, compound) by {
      assert lowered[..0] == [];
    }
    while i < |lowered|
      invariant AdjInvariant(lowered, i, adj, compound)
      invariant FirstOccurrenceOrder(lowered, i, adj, compound)
    {
      AdjStepOrder(lowered, i, adj, compound);
      AdjStepKeepsInvariant(lowered, i, adj, compound);
      adj := AdjStep(adj, lowered[i], compound);
      i := i + 1;
    }
  }

  /** Once every lowered entry has been processed, the invariant is the
      contract of `MvRefsAdj`. */
  lemma AdjInvariantComplete(orig: seq<Entry>, compound: bool, lower: Mv -> Mv, adj: seq<Entry>)
    requires AdjInvariant(LowerAll(orig, compound, lower), |orig|, adj, compound)
    ensures |adj| <= |orig| && Distinct(adj, compound)
    ensures forall k :: 0 <= k < |adj| ==> adj[k].cand in Cands(LowerAll(orig, compound, lower))
    ensures forall i :: 0 <= i < |orig| ==> Key(Lowered(orig[i], compound, lower).cand, compound) in Keys(adj, compound)
    ensures forall k :: 0 <= k < |adj| ==>
              adj[k].weight == KeyWeight(LowerAll(orig, compound, lower), Key(adj[k].cand, compound), compound) % WeightModulus
    ensures Sum(Weights(adj)) % WeightModulus == Sum(Weights(orig)) % WeightModulus
  {
    var lowered := LowerAll(orig, compound, lower);
    assert lowered[..|orig|] == lowered;
    assert Weights(lowered) == Weights(orig);
  }

  // ----- merge_mv -----

  /** A cluster member's four MV components: row and column of the first,
      then of the second MV. */
  function Component(e: Entry, part: int): int
    requires 0 <= part < 4
  {
    match part
    case 0 => e.cand.thisMv.row
    case 1 => e.cand.thisMv.col
    case 2 => e.cand.compMv.row
    case _ => e.cand.compMv.col
  }

  /** The entries of [start, end) labelled with the cluster being merged. */
  function Members(s: seq<Entry>, labels: seq<int>, start: int, end: int, cluster: int): (ms: seq<Entry>)
    requires 0 <= start <= end <= |s| == |labels|
    ensures |ms| <= end - start
    ensures forall m :: m in ms ==> m in s[start..end]
    decreases end - start
  {
    if start == end then []
    else (if labels[start] == cluster then [s[start]] else [])
         + Members(s, labels, start + 1, end, cluster)
  }

  function Components(ms: seq<Entry>, part: int): (xs: seq<int>)
    requires 0 <= part < 4
    ensures |xs| == |ms| && forall j :: 0 <= j < |ms| ==> xs[j] == Component(ms[j], part)
  {
    seq(|ms|, j requires 0 <= j < |ms| => Component(ms[j], part))
  }

  function SeqMin(xs: seq<int>): (m: int)
    requires |xs| > 0
    ensures forall j :: 0 <= j < |xs| ==> m <= xs[j]
    ensures m in xs
  {
    if |xs| == 1 then xs[0] else Min(xs[0], SeqMin(xs[1..]))
  }

  function SeqMax(xs: seq<int>): (m: int)
    requires |xs| > 0
    ensures forall j :: 0 <= j < |xs| ==> xs[j] <= m
    ensures m in xs
  {
    if |xs| == 1 then xs[0] else Max(xs[0], SeqMax(xs[1..]))
  }

  lemma {:induction false} SumBounds(xs: seq<int>, lo: int, hi: int)
    requires forall j :: 0 <= j < |xs| ==> lo <= xs[j] <= hi
    ensures |xs| * lo <= Sum(xs) <= |xs| * hi
  {
    if |xs| > 0 {
      SumBounds(xs[1..], lo, hi);
      assert |xs| * lo == lo + (|xs| - 1) * lo;
      assert |xs| * hi == hi + (|xs| - 1) * hi;
    }
  }

  /** The centroid's rounded mean as written: half the count is added and
      C's `/` truncates toward zero, so a negative sum is rounded up. */
  function RoundedMeanAsWritten(sum: int, n: int): int
    requires n > 0
  {
    CDiv(sum + n / 2, n)
  }

  /** Two members at -1 merge into a centroid at 0, outside the cluster. */
  lemma RoundedMeanAsWrittenLeavesCluster()
    ensures Sum([-1, -1]) == -2
    ensures RoundedMeanAsWritten(Sum([-1, -1]), 2) == 0
  {
    assert Sum([-1, -1]) == -1 + Sum([-1]);
    assert Sum([-1]) == -1 + Sum([]);
  }

  /** The rounded mean with a flooring division: the mean rounded half up. */
  function RoundedMean(sum: int, n: int): int
    requires n > 0
  {
    (sum + n / 2) / n
  }

  /** The rounded mean of values in [lo, hi] is itself in [lo, hi]. */
  lemma RoundedMeanWithinRange(xs: seq<int>, lo: int, hi: int)
    requires |xs| > 0 && forall j :: 0 <= j < |xs| ==> lo <= xs[j] <= hi
    ensures lo <= RoundedMean(Sum(xs), |xs|) <= hi
  {
    SumBounds(xs, lo, hi);
    DivBetween(Sum(xs) + |xs| / 2, |xs|, lo, hi);
  }

  /** The source's truncating quotient against the corrected one: equal when
      the rounded sum is non-negative, otherwise at most one larger. */
  lemma RoundedMeanAsWrittenVersusCorrected(sum: int, n: int)
    requires n > 0
    ensures sum + n / 2 >= 0 ==> RoundedMeanAsWritten(sum, n) == RoundedMean(sum, n)
    ensures RoundedMean(sum, n) <= RoundedMeanAsWritten(sum, n) <= RoundedMean(sum, n) + 1
  {
    var a := sum + n / 2;
    if a < 0 {
      var q := (-a) / n;
      assert -a == q * n + (-a) % n;
      assert RoundedMeanAsWritten(sum, n) == -q;
      if (-a) % n == 0 {
        assert a == (-q) * n;
        DivOfRange(a, n, -q);
      } else {
        assert (-q - 1) * n <= a < (-q) * n;
        DivOfRange(a, n, -q - 1);
      }
    }
  }

  /** One component of the centroid: the rounded mean over the members. */
  function MeanComponent(ms: seq<Entry>, part: int): (x: int)
    requires |ms| > 0 && 0 <= part < 4
    ensures SeqMin(Components(ms, part)) <= x <= SeqMax(Components(ms, part))
  {
    var xs := Components(ms, part);
    RoundedMeanWithinRange(xs, SeqMin(xs), SeqMax(xs));
    RoundedMean(Sum(xs), |ms|)
  }

  /** A centroid component against the source's truncating mean: the same
      whenever the rounded component sum is non-negative, otherwise at
      most one below it. */
  lemma MeanComponentVersusSource(ms: seq<Entry>, part: int)
    requires |ms| > 0 && 0 <= part < 4
    ensures var sum := Sum(Components(ms, part));
            MeanComponent(ms, part) <= RoundedMeanAsWritten(sum, |ms|) <= MeanComponent(ms, part) + 1
    ensures var sum := Sum(Components(ms, part));
            sum + |ms| / 2 >= 0 ==> MeanComponent(ms, part) == RoundedMeanAsWritten(sum, |ms|)
  {
    RoundedMeanAsWrittenVersusCorrected(Sum(Components(ms, part)), |ms|);
  }

  function Centroid(ms: seq<Entry>): (c: Candidate)
    requires |ms| > 0
    ensures forall part :: 0 <= part < 4 ==>
              SeqMin(Components(ms, part)) <= Component(Entry(c, 0), part) <= SeqMax(Components(ms, part))
  {
    Candidate(Mv(MeanComponent(ms, 0), MeanComponent(ms, 1)), Mv(MeanComponent(ms, 2), MeanComponent(ms, 3)))
  }

  /** The saturation `merge_mv` applies to each stored component. */
  function Saturate(x: int): int
  {
    if x > MaxWeight then MaxWeight else x
  }

  function SaturateCand(c: Candidate): Candidate
  {
    Candidate(Mv(Saturate(c.thisMv.row), Saturate(c.thisMv.col)),
              Mv(Saturate(c.compMv.row), Saturate(c.compMv.col)))
  }

  /** Every MV component of the entries in [start, end) fits `int16_t`. */
  predicate Int16Mvs(s: seq<Entry>, start: int, end: int)
    requires 0 <= start <= end <= |s|
  {
    forall k, part :: start <= k < end && 0 <= part < 4 ==> -0x8000 <= Component(s[k], part) < 0x8000
  }

  /** The members of an int16 range have int16 components. */
  lemma MemberComponentsInt16(s: seq<Entry>, labels: seq<int>, start: int, end: int, cluster: int, part: int)
    requires 0 <= start <= end <= |s| == |labels| && Int16Mvs(s, start, end) && 0 <= part < 4
    ensures var xs := Components(Members(s, labels, start, end, cluster), part);
            forall j :: 0 <= j < |xs| ==> xs[j] < 0x8000
  {
    var ms := Members(s, labels, start, end, cluster);
    forall j | 0 <= j < |ms| ensures Component(ms[j], part) < 0x8000 {
      assert ms[j] in s[start..end];
      var k :| 0 <= k < end - start && s[start..end][k] == ms[j];
      assert Component(s[start + k], part) < 0x8000;
    }
  }

  lemma SeqMaxBelow(xs: seq<int>, bound: int)
    requires |xs| > 0 && forall j :: 0 <= j < |xs| ==> xs[j] < bound
    ensures SeqMax(xs) < bound
  {
  }

  /** For int16 members the saturation never fires. */
  lemma SaturationInactive(s: seq<Entry>, labels: seq<int>, start: int, end: int, cluster: int)
    requires 0 <= start <= end <= |s| == |labels| && Int16Mvs(s, start, end)
    requires |Members(s, labels, start, end, cluster)| > 0
    ensures var c := Centroid(Members(s, labels, start, end, cluster));
            SaturateCand(c) == c
  {
    var ms := Members(s, labels, start, end, cluster);
    var c := Centroid(ms);
    forall part | 0 <= part < 4
      ensures Component(Entry(c, 0), part) < 0x8000
    {
      MemberComponentsInt16(s, labels, start, end, cluster, part);
      SeqMaxBelow(Components(ms, part), 0x8000);
    }
    assert Component(Entry(c, 0), 0) < 0x8000 && Component(Entry(c, 0), 1) < 0x8000;
    assert Component(Entry(c, 0), 2) < 0x8000 && Component(Entry(c, 0), 3) < 0x8000;
  }

  /** An entry holding the centroid has every component within the
      members' range, whatever its weight. */
  lemma CentroidEntryInRange(ms: seq<Entry>, e: Entry)
    requires |ms| > 0 && e.cand == Centroid(ms)
    ensures forall part :: 0 <= part < 4 ==>
              SeqMin(Components(ms, part)) <= Component(e, part) <= SeqMax(Components(ms, part))
  {
    forall part | 0 <= part < 4
      ensures SeqMin(Components(ms, part)) <= Component(e, part) <= SeqMax(Components(ms, part))
    {
      assert Component(e, part) == Component(Entry(e.cand, 0), part);
    }
  }

  /** The entry a cluster merges into: its centroid, saturated, with the
      members' total weight saturated at 65535. */
  function MergedEntry(s: seq<Entry>, labels: seq<int>, start: int, end: int, cluster: int): (e: Entry)
    requires 0 <= start <= end <= |s| == |labels|
    requires Int16Mvs(s, start, end)
    requires |Members(s, labels, start, end, cluster)| > 0
    ensures e.weight == Min(Sum(Weights(Members(s, labels, start, end, cluster))), MaxWeight)
    ensures forall part :: 0 <= part < 4 ==>
              SeqMin(Components(Members(s, labels, start, end, cluster), part)) <= Component(e, part)
              <= SeqMax(Components(Members(s, labels, start, end, cluster), part))
  {
    var ms := Members(s, labels, start, end, cluster);
    var c := Centroid(ms);
    SaturationInactive(s, labels, start, end, cluster);
    var e := Entry(SaturateCand(c), Min(Sum(Weights(ms)), MaxWeight));
    CentroidEntryInRange(ms, e);
    e
  }

  /** `merge_mv` with the rounding corrected: the merged entry becomes the
      cluster's centroid, each component within the range of the members'
      components, with the members' total weight saturated at 65535. The
      caller guarantees the cluster has a member (the code divides by the
      member count). */
  function MergeMv(s: seq<Entry>, labels: seq<int>, start: int, end: int, cluster: int): (r: seq<Entry>)
    requires 0 <= start <= end <= |s| == |labels| && 0 <= cluster < |s|
    requires Int16Mvs(s, start, end)
    requires |Members(s, labels, start, end, cluster)| > 0
    ensures |r| == |s| && forall k :: 0 <= k < |s| && k != cluster ==> r[k] == s[k]
    ensures r[cluster].weight == Min(Sum(Weights(Members(s, labels, start, end, cluster))), MaxWeight)
    ensures forall part :: 0 <= part < 4 ==>
              SeqMin(Components(Members(s, labels, start, end, cluster), part)) <= Component(r[cluster], part)
              <= SeqMax(Components(Members(s, labels, start, end, cluster), part))
  {
    s[cluster := MergedEntry(s, labels, start, end, cluster)]
  }
}
