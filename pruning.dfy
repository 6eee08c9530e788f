/**
 Greedy overlap pruning in `gen_data` (utils.py): starting with every
 candidate kept, repeatedly take the flat `argmax` of the overlap matrix
 masked to the kept candidates, reduce it modulo M to a column, and clear
 that candidate, until N remain.

 If the chosen column was already cleared, the step changes nothing and the
 same column is chosen again forever: the source never terminates. The model
 makes that case an explicit outcome, `Diverges`.
 */
module Pruning {
  import opened Footprints
  import opened Arithmetic

  // ---------------------------------------------------------------------------
  // overlap * np.outer(keep, keep), flattened

  /** An overlap entry times the product of the two keep flags. */
  function MaskEntry(x: real, kept: bool): real {
    if kept then x else 0.0
  }

  /** The overlap of candidates `r` and `c` once masked by `keep`. */
  function MaskedAt(ov: seq<seq<real>>, keep: seq<bool>, r: nat, c: nat): real
    requires IsSquare(ov) && |keep| == |ov| && r < |ov| && c < |ov|
  {
    MaskEntry(ov[r][c], keep[r] && keep[c])
  }

  /** `overlap * np.outer(keep, keep)`. */
  function MaskedOverlap(ov: seq<seq<real>>, keep: seq<bool>): (m: seq<seq<real>>)
    requires IsSquare(ov) && |keep| == |ov|
    ensures |m| == |ov| && IsSquare(m)
    ensures forall r, c :: 0 <= r < |ov| && 0 <= c < |ov| ==> m[r][c] == MaskedAt(ov, keep, r, c)
  {
    seq(|ov|, r requires 0 <= r < |ov| =>
      seq(|ov|, c requires 0 <= c < |ov| => MaskedAt(ov, keep, r, c)))
  }

  /** Row-major flattening, as `np.argmax` sees a matrix. */
  function Flatten(m: seq<seq<real>>): seq<real> {
    if m == [] then [] else Flatten(m[..|m| - 1]) + m[|m| - 1]
  }

  /** An entry in an earlier row comes earlier in the flattened matrix. */
  lemma RowMajorBefore(r: nat, c: nat, r': nat, width: nat)
    requires r < r' && c < width
    ensures r * width + c < r' * width
  {
    assert (r' - r - 1) * width >= 0;
    assert r' * width == r * width + width + (r' - r - 1) * width;
  }

  lemma {:induction false} FlattenLength(m: seq<seq<real>>, width: nat)
    requires SameLength(m, width)
    ensures |Flatten(m)| == |m| * width
  {
    if m != [] {
      FlattenLength(m[..|m| - 1], width);
      assert (|m| - 1) * width + width == |m| * width;
    }
  }

  /** Entry (r, c) of a matrix of the given width sits at flat index `r * width + c`. */
  lemma {:induction false} FlattenAt(m: seq<seq<real>>, width: nat, r: nat, c: nat)
    requires SameLength(m, width) && r < |m| && c < width
    ensures r * width + c < |Flatten(m)|
    ensures Flatten(m)[r * width + c] == m[r][c]
  {
    var init := m[..|m| - 1];
    FlattenLength(init, width);
    FlattenLength(m, width);
    if r < |m| - 1 {
      RowMajorBefore(r, c, |m| - 1, width);
      FlattenAt(init, width, r, c);
    }
  }

  // ---------------------------------------------------------------------------
  // np.argmax(...) % M

  /** `np.argmax`: the first position of the largest entry. */
  function Argmax(s: seq<real>): (i: nat)
    requires |s| > 0
    ensures i < |s|
    ensures forall j :: 0 <= j < |s| ==> s[j] <= s[i]
    ensures forall j :: 0 <= j < i ==> s[j] < s[i]
  {
    if |s| == 1 then 0
    else
      var k := Argmax(s[..|s| - 1]);
      assert forall j :: 0 <= j < |s| - 1 ==> s[..|s| - 1][j] == s[j];
      if s[|s| - 1] > s[k] then |s| - 1 else k
  }

  /** The candidate one pruning step clears: the flat argmax of the masked overlap, reduced modulo M. */
  function PruneColumn(ov: seq<seq<real>>, keep: seq<bool>): (c: nat)
    requires IsSquare(ov) && |keep| == |ov| && |ov| > 0
    ensures c < |ov|
  {
    var flat := Flatten(MaskedOverlap(ov, keep));
    FlattenLength(MaskedOverlap(ov, keep), |ov|);
    Argmax(flat) % |ov|
  }

  /** (r, c) comes strictly before (r', c') in a row-major scan. */
  predicate ScannedBefore(r: nat, c: nat, r': nat, c': nat) {
    r < r' || (r == r' && c < c')
  }

  /**
   The cleared column is the column of the first maximum of the masked
   overlap in a row-major scan: some row `r` makes (r, column) an entry no
   entry exceeds and that every entry scanned before it is below.
   */
  lemma PruneColumnIsFirstMaximum(ov: seq<seq<real>>, keep: seq<bool>) returns (r: nat)
    requires IsSquare(ov) && |keep| == |ov| && |ov| > 0
    ensures r < |ov|
    ensures forall r', c' :: 0 <= r' < |ov| && 0 <= c' < |ov| ==>
              MaskedAt(ov, keep, r', c') <= MaskedAt(ov, keep, r, PruneColumn(ov, keep))
    ensures forall r', c' :: 0 <= r' < |ov| && 0 <= c' < |ov| && ScannedBefore(r', c', r, PruneColumn(ov, keep)) ==>
              MaskedAt(ov, keep, r', c') < MaskedAt(ov, keep, r, PruneColumn(ov, keep))
  {
    var m := MaskedOverlap(ov, keep);
    FlattenLength(m, |ov|);
    r := FirstMaximumOfFlattened(m, |ov|);
  }

  /** The flat argmax of a square matrix, split into row and column, is the first maximum in a row-major scan. */
  lemma FirstMaximumOfFlattened(m: seq<seq<real>>, size: nat) returns (r: nat)
    requires SameLength(m, size) && |m| == size && size > 0
    ensures |Flatten(m)| == size * size
    ensures r < size && r * size + Argmax(Flatten(m)) % size == Argmax(Flatten(m))
    ensures forall r', c' :: 0 <= r' < size && 0 <= c' < size ==> m[r'][c'] <= m[r][Argmax(Flatten(m)) % size]
    ensures forall r', c' :: 0 <= r' < size && 0 <= c' < size && ScannedBefore(r', c', r, Argmax(Flatten(m)) % size) ==>
              m[r'][c'] < m[r][Argmax(Flatten(m)) % size]
  {
    FlattenLength(m, size);
    SquarePositive(size);
    var f := Argmax(Flatten(m));
    var c;
    r, c := SplitFlatIndex(f, size);
    forall r', c' | 0 <= r' < size && 0 <= c' < size
      ensures m[r'][c'] <= m[r][c]
      ensures ScannedBefore(r', c', r, c) ==> m[r'][c'] < m[r][c]
    {
      CompareWithFlatMaximum(m, size, r, c, r', c');
    }
  }

  /** One entry compared with the entry at the flat argmax. */
  lemma CompareWithFlatMaximum(m: seq<seq<real>>, size: nat, r: nat, c: nat, r': nat, c': nat)
    requires SameLength(m, size) && |m| == size
    requires r < size && c < size && r' < size && c' < size
    requires |Flatten(m)| > 0 && r * size + c == Argmax(Flatten(m))
    ensures m[r'][c'] <= m[r][c]
    ensures ScannedBefore(r', c', r, c) ==> m[r'][c'] < m[r][c]
  {
    FlattenAt(m, size, r, c);
    FlattenAt(m, size, r', c');
    if ScannedBefore(r', c', r, c) {
      ScannedBeforeIsEarlier(r', c', r, c, size);
    }
    ArgmaxCompare(Flatten(m), r' * size + c');
  }

  /** An entry scanned before another sits at a smaller flat index. */
  lemma ScannedBeforeIsEarlier(r': nat, c': nat, r: nat, c: nat, size: nat)
    requires ScannedBefore(r', c', r, c) && c' < size
    ensures r' * size + c' < r * size + c
  {
    if r' < r {
      RowMajorBefore(r', c', r, size);
    }
  }

  /** No entry exceeds the one at the argmax, and every earlier entry is below it. */
  lemma ArgmaxCompare(s: seq<real>, g: nat)
    requires 0 < |s| && g < |s|
    ensures s[g] <= s[Argmax(s)]
    ensures g < Argmax(s) ==> s[g] < s[Argmax(s)]
  {
  }

  lemma SquarePositive(size: nat)
    requires size > 0
    ensures size * size > 0
  {
  }

  /** The row and the column of a flat index below size * size. */
  lemma SplitFlatIndex(f: nat, size: nat) returns (r: nat, c: nat)
    requires size > 0 && f < size * size
    ensures r < size && c < size && r * size + c == f && c == f % size
  {
    SplitFlatIndexAt(f, size);
    r, c := f / size, f % size;
  }

  /** A flat index below size * size splits into a row and a column, both below size. */
  lemma SplitFlatIndexAt(f: nat, size: nat)
    requires size > 0 && f < size * size
    ensures f / size < size && f % size < size && f == (f / size) * size + f % size
  {
    var q := f / size;
    if q >= size {
      MultiplyMonotone(size, q, size);
    }
  }

  /** A positive masked entry lies in a kept row and a kept column. */
  lemma PositiveMaskedIsKept(ov: seq<seq<real>>, keep: seq<bool>, r: nat, c: nat)
    requires IsSquare(ov) && |keep| == |ov| && r < |ov| && c < |ov|
    requires MaskedAt(ov, keep, r, c) > 0.0
    ensures keep[r] && keep[c] && ov[r][c] > 0.0
  {
  }

  lemma {:induction false} CountClear(keep: seq<bool>, c: nat)
    requires c < |keep| && keep[c]
    ensures CountKept(keep[c := false]) == CountKept(keep) - 1
  {
    var n := |keep| - 1;
    if c < n {
      assert keep[c := false][..n] == keep[..n][c := false];
      CountClear(keep[..n], c);
    } else {
      assert keep[c := false][..n] == keep[..n];
    }
  }

  /**
   A pruning step whose masked maximum is positive clears a candidate that
   was kept, and so lowers the number of kept candidates by exactly one.
   */
  lemma PositiveMaximumClearsKept(ov: seq<seq<real>>, keep: seq<bool>, r0: nat, c0: nat)
    requires IsSquare(ov) && |keep| == |ov| && r0 < |ov| && c0 < |ov|
    requires MaskedAt(ov, keep, r0, c0) > 0.0
    ensures keep[PruneColumn(ov, keep)]
    ensures CountKept(keep[PruneColumn(ov, keep) := false]) == CountKept(keep) - 1
  {
    var r := PruneColumnIsFirstMaximum(ov, keep);
    var c := PruneColumn(ov, keep);
    assert MaskedAt(ov, keep, r0, c0) <= MaskedAt(ov, keep, r, c);
    PositiveMaskedIsKept(ov, keep, r, c);
    CountClear(keep, c);
  }

  // ---------------------------------------------------------------------------
  // while keep.sum() > N: keep[...] = False

  datatype Outcome = Pruned(keep: seq<bool>) | Diverges

  /** The keep mask the loop ends with when started from `keep`, or `Diverges` when it never ends. */
  function PruneFrom(ov: seq<seq<real>>, keep: seq<bool>, n: nat): (result: Outcome)
    requires IsSquare(ov) && |keep| == |ov|
    ensures result.Pruned? ==> |result.keep| == |keep|
    decreases CountKept(keep)
  {
    if CountKept(keep) <= n then Pruned(keep)
    else
      var c := PruneColumn(ov, keep);
      if keep[c] then
        CountClear(keep, c);
        PruneFrom(ov, keep[c := false], n)
      else Diverges
  }

  function AllKept(size: nat): (keep: seq<bool>)
    ensures |keep| == size && CountKept(keep) == size
    ensures forall i :: 0 <= i < size ==> keep[i]
  {
    if size == 0 then [] else AllKept(size - 1) + [true]
  }

  /**
   When the loop ends it leaves exactly N candidates kept (all of them if
   there were no more than N), only ever clears candidates, and keeps the mask
   length.
   */
  lemma {:induction false} PruneFromKeepsN(ov: seq<seq<real>>, keep: seq<bool>, n: nat)
    requires IsSquare(ov) && |keep| == |ov|
    requires PruneFrom(ov, keep, n).Pruned?
    ensures |PruneFrom(ov, keep, n).keep| == |keep|
    ensures CountKept(PruneFrom(ov, keep, n).keep) == if CountKept(keep) <= n then CountKept(keep) else n
    ensures forall i :: 0 <= i < |keep| && PruneFrom(ov, keep, n).keep[i] ==> keep[i]
    decreases CountKept(keep)
  {
    if CountKept(keep) > n {
      var c := PruneColumn(ov, keep);
      assert keep[c];
      CountClear(keep, c);
      var next := keep[c := false];
      assert PruneFrom(ov, keep, n) == PruneFrom(ov, next, n);
      PruneFromKeepsN(ov, next, n);
    }
  }

  /**
   When every two distinct candidates overlap positively and at least one
   candidate is to be kept, the loop always ends.
   */
  lemma {:induction false} PruneFromTerminates(ov: seq<seq<real>>, keep: seq<bool>, n: nat)
    requires IsSquare(ov) && |keep| == |ov|
    requires forall r, c :: 0 <= r < |ov| && 0 <= c < |ov| && r != c ==> ov[r][c] > 0.0
    requires n >= 1
    ensures PruneFrom(ov, keep, n).Pruned?
    decreases CountKept(keep)
  {
    if CountKept(keep) > n {
      var idx := KeptIndices(keep);
      var r0, c0 := idx[0], idx[1];
      assert MaskedAt(ov, keep, r0, c0) > 0.0;
      PositiveMaximumClearsKept(ov, keep, r0, c0);
      var c := PruneColumn(ov, keep);
      PruneFromTerminates(ov, keep[c := false], n);
    }
  }

  /**
   The pruning loop of `gen_data`: returns the final keep mask, or reports
   that the source would loop forever.
   */
  method Prune(ov: seq<seq<real>>, n: nat) returns (keep: array<bool>, diverges: bool)
    requires IsSquare(ov)
    ensures fresh(keep) && keep.Length == |ov|
    ensures PruneFrom(ov, AllKept(|ov|), n) == if diverges then Diverges else Pruned(keep[..])
    ensures !diverges ==> CountKept(keep[..]) == if |ov| <= n then |ov| else n
  {
    keep := new bool[|ov|](_ => true);
    assert keep[..] == AllKept(|ov|);
    diverges := false;
    while CountKept(keep[..]) > n
      invariant keep.Length == |ov|
      invariant PruneFrom(ov, AllKept(|ov|), n) == PruneFrom(ov, keep[..], n)
      decreases CountKept(keep[..])
    {
      var c := PruneColumn(ov, keep[..]);
      if !keep[c] {
        diverges := true;
        return;
      }
      CountClear(keep[..], c);
      keep[c] := false;
    }
    PruneFromKeepsN(ov, AllKept(|ov|), n);
  }

  // ---------------------------------------------------------------------------
  // The loop as written can choose a cleared candidate

  /** The overlap matrix of footprints no two of which overlap, each of unit norm. */
  function ZeroOverlap(size: nat): (ov: seq<seq<real>>)
    ensures |ov| == size && IsSquare(ov)
    ensures forall r, c :: 0 <= r < size && 0 <= c < size ==> ov[r][c] == 0.0
  {
    seq(size, _ => seq(size, _ => 0.0))
  }

  /** When every masked entry is zero, the flat argmax is entry (0, 0), so candidate 0 is chosen. */
  lemma AllZeroChoosesFirst(ov: seq<seq<real>>, keep: seq<bool>)
    requires IsSquare(ov) && |keep| == |ov| && |ov| > 0
    requires forall r, c :: 0 <= r < |ov| && 0 <= c < |ov| ==> MaskedAt(ov, keep, r, c) == 0.0
    ensures PruneColumn(ov, keep) == 0
  {
    FlatArgmaxOfZeros(MaskedOverlap(ov, keep), |ov|);
  }

  /** The first maximum of an all-zero matrix is its first entry. */
  lemma FlatArgmaxOfZeros(m: seq<seq<real>>, size: nat)
    requires SameLength(m, size) && |m| == size && size > 0
    requires forall r, c :: 0 <= r < size && 0 <= c < size ==> m[r][c] == 0.0
    ensures |Flatten(m)| == size * size > 0
    ensures Argmax(Flatten(m)) == 0
  {
    FlattenLength(m, size);
    SquarePositive(size);
    var f := Argmax(Flatten(m));
    var r, c := SplitFlatIndex(f, size);
    FlattenAt(m, size, r, c);
    FlattenAt(m, size, 0, 0);
    assert Flatten(m)[f] == Flatten(m)[0];
  }

  /**
   With M >= N + 2 candidates none of which overlap, the first step clears
   candidate 0 and every later step chooses candidate 0 again: the loop never
   ends.
   */
  lemma ZeroOverlapDiverges(size: nat, n: nat)
    requires size >= n + 2
    ensures PruneFrom(ZeroOverlap(size), AllKept(size), n) == Diverges
  {
    var ov := ZeroOverlap(size);
    var all := AllKept(size);
    AllZeroChoosesFirst(ov, all);
    CountClear(all, 0);
    var next := all[0 := false];
    assert PruneFrom(ov, all, n) == PruneFrom(ov, next, n);
    AllZeroChoosesFirst(ov, next);
  }

  /**
   Footprints that are pairwise disjoint and of unit norm, and more than N + 1
   of them, have an overlap matrix of zeros, so the source's loop never ends
   on them.
   */
  lemma DisjointFootprintsDiverge(columns: seq<seq<real>>, pixels: nat, n: nat)
    requires SameLength(columns, pixels)
    requires forall r, c :: 0 <= r < |columns| && 0 <= c < |columns| && r != c ==> Disjoint(columns[r], columns[c])
    requires forall k :: 0 <= k < |columns| ==> Dot(columns[k], columns[k]) == 1.0
    requires |columns| >= n + 2
    ensures Overlap(columns, pixels) == ZeroOverlap(|columns|)
    ensures PruneFrom(Overlap(columns, pixels), AllKept(|columns|), n) == Diverges
  {
    var ov, zero := Overlap(columns, pixels), ZeroOverlap(|columns|);
    OverlapOfDisjoint(columns, pixels);
    forall r | 0 <= r < |columns|
      ensures ov[r] == zero[r]
    {
      assert forall c :: 0 <= c < |columns| ==> ov[r][c] == zero[r][c];
    }
    assert ov == zero;
    ZeroOverlapDiverges(|columns|, n);
  }

  // ---------------------------------------------------------------------------
  // The loop as intended: the argmax ranges over kept pairs only

  /** The smallest entry of a non-empty sequence. */
  function Least(s: seq<real>): (m: real)
    requires |s| > 0
    ensures forall i :: 0 <= i < |s| ==> m <= s[i]
  {
    if |s| == 1 then s[0]
    else
      var m' := Least(s[..|s| - 1]);
      assert forall i :: 0 <= i < |s| - 1 ==> s[..|s| - 1][i] == s[i];
      if s[|s| - 1] < m' then s[|s| - 1] else m'
  }

  /** A value below every overlap entry, given to the pairs that are not both kept. */
  function Excluded(ov: seq<seq<real>>): (e: real)
    requires IsSquare(ov)
    ensures forall r, c :: 0 <= r < |ov| && 0 <= c < |ov| ==> e < ov[r][c]
  {
    if |ov| == 0 then 0.0
    else
      FlattenLength(ov, |ov|);
      SquarePositive(|ov|);
      LeastOfEntries(ov);
      Least(Flatten(ov)) - 1.0
  }

  lemma LeastOfEntries(ov: seq<seq<real>>)
    requires IsSquare(ov) && |ov| > 0
    ensures |Flatten(ov)| > 0
    ensures forall r, c :: 0 <= r < |ov| && 0 <= c < |ov| ==> Least(Flatten(ov)) <= ov[r][c]
  {
    FlattenLength(ov, |ov|);
    SquarePositive(|ov|);
    forall r, c | 0 <= r < |ov| && 0 <= c < |ov|
      ensures Least(Flatten(ov)) <= ov[r][c]
    {
      FlattenAt(ov, |ov|, r, c);
    }
  }

  /** The overlap of candidates `r` and `c` when both are kept, otherwise a value below every overlap. */
  function KeptAt(ov: seq<seq<real>>, keep: seq<bool>, r: nat, c: nat): real
    requires IsSquare(ov) && |keep| == |ov| && r < |ov| && c < |ov|
  {
    if keep[r] && keep[c] then ov[r][c] else Excluded(ov)
  }

  function KeptOverlap(ov: seq<seq<real>>, keep: seq<bool>): (m: seq<seq<real>>)
    requires IsSquare(ov) && |keep| == |ov|
    ensures |m| == |ov| && IsSquare(m)
    ensures forall r, c :: 0 <= r < |ov| && 0 <= c < |ov| ==> m[r][c] == KeptAt(ov, keep, r, c)
  {
    seq(|ov|, r requires 0 <= r < |ov| =>
      seq(|ov|, c requires 0 <= c < |ov| => KeptAt(ov, keep, r, c)))
  }

  /** The candidate a corrected step clears: the column of the first maximum over kept pairs. */
  function PruneKeptColumn(ov: seq<seq<real>>, keep: seq<bool>): (c: nat)
    requires IsSquare(ov) && |keep| == |ov| && |ov| > 0
    ensures c < |ov|
  {
    var m := KeptOverlap(ov, keep);
    FlattenLength(m, |ov|);
    SquarePositive(|ov|);
    Argmax(Flatten(m)) % |ov|
  }

  /**
   While some candidate is kept, a corrected step chooses the column of the
   first maximum, in a row-major scan, among the pairs of kept candidates;
   that candidate is kept.
   */
  lemma PruneKeptColumnIsKept(ov: seq<seq<real>>, keep: seq<bool>) returns (r: nat)
    requires IsSquare(ov) && |keep| == |ov| && CountKept(keep) > 0
    ensures r < |ov| && keep[r] && keep[PruneKeptColumn(ov, keep)]
    ensures forall r', c' :: 0 <= r' < |ov| && 0 <= c' < |ov| && keep[r'] && keep[c'] ==>
              ov[r'][c'] <= ov[r][PruneKeptColumn(ov, keep)]
    ensures forall r', c' :: 0 <= r' < |ov| && 0 <= c' < |ov| && keep[r'] && keep[c'] && ScannedBefore(r', c', r, PruneKeptColumn(ov, keep)) ==>
              ov[r'][c'] < ov[r][PruneKeptColumn(ov, keep)]
  {
    var m := KeptOverlap(ov, keep);
    r := FirstMaximumOfFlattened(m, |ov|);
    var c := PruneKeptColumn(ov, keep);
    var k := SomeKept(keep);
    assert Excluded(ov) < m[k][k] <= m[r][c];
    assert keep[r] && keep[c];
    forall r', c' | 0 <= r' < |ov| && 0 <= c' < |ov| && keep[r'] && keep[c']
      ensures ov[r'][c'] <= ov[r][c]
      ensures ScannedBefore(r', c', r, c) ==> ov[r'][c'] < ov[r][c]
    {
      assert m[r'][c'] == ov[r'][c'];
    }
  }

  /** A mask with a kept entry has a position holding it. */
  lemma {:induction false} SomeKept(keep: seq<bool>) returns (k: nat)
    requires CountKept(keep) > 0
    ensures k < |keep| && keep[k]
  {
    if keep[|keep| - 1] {
      k := |keep| - 1;
    } else {
      k := SomeKept(keep[..|keep| - 1]);
    }
  }

  /** Two first maxima of the same matrix in a row-major scan are the same entry. */
  lemma FirstMaximumUnique(m: seq<seq<real>>, r: nat, c: nat, r': nat, c': nat)
    requires IsSquare(m) && r < |m| && c < |m| && r' < |m| && c' < |m|
    requires forall a, b :: 0 <= a < |m| && 0 <= b < |m| ==> m[a][b] <= m[r][c] && m[a][b] <= m[r'][c']
    requires forall a, b :: 0 <= a < |m| && 0 <= b < |m| && ScannedBefore(a, b, r, c) ==> m[a][b] < m[r][c]
    requires forall a, b :: 0 <= a < |m| && 0 <= b < |m| && ScannedBefore(a, b, r', c') ==> m[a][b] < m[r'][c']
    ensures r == r' && c == c'
  {
    assert m[r][c] == m[r'][c'];
    assert !ScannedBefore(r, c, r', c');
    assert !ScannedBefore(r', c', r, c);
  }

  /**
   When the step as written clears a candidate that is still kept, the entry
   it chose lies in a kept row too: an entry of a cleared row would have a
   zero scanned before it.
   */
  lemma ChosenKeptHasKeptRow(ov: seq<seq<real>>, keep: seq<bool>, r: nat)
    requires IsSquare(ov) && |keep| == |ov| && |ov| > 0 && r < |ov|
    requires keep[PruneColumn(ov, keep)]
    requires forall a, b :: 0 <= a < |ov| && 0 <= b < |ov| && ScannedBefore(a, b, r, PruneColumn(ov, keep)) ==>
               MaskedAt(ov, keep, a, b) < MaskedAt(ov, keep, r, PruneColumn(ov, keep))
    ensures keep[r]
  {
    var c := PruneColumn(ov, keep);
    if c > 0 {
      assert MaskedAt(ov, keep, r, 0) < MaskedAt(ov, keep, r, c);
    } else if r > 0 {
      assert MaskedAt(ov, keep, 0, r) < MaskedAt(ov, keep, r, c);
    }
  }

  /**
   Whenever the step as written clears a candidate that is still kept, the
   corrected step clears the same one: the two differ only where the source
   chooses a candidate already cleared.
   */
  lemma PruneKeptColumnAgrees(ov: seq<seq<real>>, keep: seq<bool>)
    requires IsSquare(ov) && |keep| == |ov| && |ov| > 0
    requires keep[PruneColumn(ov, keep)]
    ensures PruneKeptColumn(ov, keep) == PruneColumn(ov, keep)
  {
    var r := PruneColumnIsFirstMaximum(ov, keep);
    var c := PruneColumn(ov, keep);
    ChosenKeptHasKeptRow(ov, keep, r);
    var m := KeptOverlap(ov, keep);
    var r2 := FirstMaximumOfFlattened(m, |ov|);
    var c2 := PruneKeptColumn(ov, keep);
    forall a, b | 0 <= a < |ov| && 0 <= b < |ov|
      ensures m[a][b] <= m[r][c]
      ensures ScannedBefore(a, b, r, c) ==> m[a][b] < m[r][c]
    {
      KeptOrderFollowsMasked(ov, keep, r, c, a, b);
    }
    FirstMaximumUnique(m, r, c, r2, c2);
  }

  /** Between a kept pair and any other entry, the corrected mask keeps the order the mask as written gives. */
  lemma KeptOrderFollowsMasked(ov: seq<seq<real>>, keep: seq<bool>, r: nat, c: nat, a: nat, b: nat)
    requires IsSquare(ov) && |keep| == |ov| && r < |ov| && c < |ov| && a < |ov| && b < |ov|
    requires keep[r] && keep[c]
    ensures MaskedAt(ov, keep, a, b) <= MaskedAt(ov, keep, r, c) ==> KeptAt(ov, keep, a, b) <= KeptAt(ov, keep, r, c)
    ensures MaskedAt(ov, keep, a, b) < MaskedAt(ov, keep, r, c) ==> KeptAt(ov, keep, a, b) < KeptAt(ov, keep, r, c)
  {
  }

  lemma PruneKeptColumnKept(ov: seq<seq<real>>, keep: seq<bool>)
    requires IsSquare(ov) && |keep| == |ov| && CountKept(keep) > 0
    ensures keep[PruneKeptColumn(ov, keep)]
  {
    var _ := PruneKeptColumnIsKept(ov, keep);
  }

  /** The keep mask the corrected loop ends with when started from `keep`. */
  function PruneKeptFrom(ov: seq<seq<real>>, keep: seq<bool>, n: nat): (result: seq<bool>)
    requires IsSquare(ov) && |keep| == |ov|
    ensures |result| == |keep| && CountKept(result) <= CountKept(keep)
    decreases CountKept(keep)
  {
    if CountKept(keep) <= n then keep
    else
      var c := PruneKeptColumn(ov, keep);
      PruneKeptColumnKept(ov, keep);
      CountClear(keep, c);
      PruneKeptFrom(ov, keep[c := false], n)
  }

  /**
   The corrected loop always ends, with exactly N candidates kept (all of them
   if there were no more than N), having only cleared candidates.
   */
  lemma {:induction false} PruneKeptFromKeepsN(ov: seq<seq<real>>, keep: seq<bool>, n: nat)
    requires IsSquare(ov) && |keep| == |ov|
    ensures |PruneKeptFrom(ov, keep, n)| == |keep|
    ensures CountKept(PruneKeptFrom(ov, keep, n)) == if CountKept(keep) <= n then CountKept(keep) else n
    ensures forall i :: 0 <= i < |keep| && PruneKeptFrom(ov, keep, n)[i] ==> keep[i]
    decreases CountKept(keep)
  {
    if CountKept(keep) > n {
      var c := PruneKeptColumn(ov, keep);
      var _ := PruneKeptColumnIsKept(ov, keep);
      CountClear(keep, c);
      var next := keep[c := false];
      assert PruneKeptFrom(ov, keep, n) == PruneKeptFrom(ov, next, n);
      PruneKeptFromKeepsN(ov, next, n);
    }
  }

  /**
   Whenever the loop as written ends, the corrected loop ends with the same
   mask.
   */
  lemma {:induction false} PruneKeptFromAgrees(ov: seq<seq<real>>, keep: seq<bool>, n: nat)
    requires IsSquare(ov) && |keep| == |ov|
    requires PruneFrom(ov, keep, n).Pruned?
    ensures PruneKeptFrom(ov, keep, n) == PruneFrom(ov, keep, n).keep
    decreases CountKept(keep)
  {
    if CountKept(keep) > n {
      var c := PruneColumn(ov, keep);
      assert keep[c];
      PruneKeptColumnAgrees(ov, keep);
      CountClear(keep, c);
      PruneKeptFromAgrees(ov, keep[c := false], n);
    }
  }

  /**
   `trueA[:, keep]` after the corrected loop, when N <= M: exactly N footprints,
   the j-th being the footprint of the j-th kept candidate in the original
   order.
   */
  lemma PrunedFootprintsInOrder<T>(columns: seq<T>, ov: seq<seq<real>>, n: nat)
    requires IsSquare(ov) && |columns| == |ov| && n <= |ov|
    ensures |PruneKeptFrom(ov, AllKept(|ov|), n)| == |ov|
    ensures CountKept(PruneKeptFrom(ov, AllKept(|ov|), n)) == n
    ensures |SelectKept(columns, PruneKeptFrom(ov, AllKept(|ov|), n))| == n
    ensures forall j :: 0 <= j < n ==>
              SelectKept(columns, PruneKeptFrom(ov, AllKept(|ov|), n))[j] ==
              columns[KeptIndices(PruneKeptFrom(ov, AllKept(|ov|), n))[j]]
  {
    PruneKeptFromKeepsN(ov, AllKept(|ov|), n);
    SelectKeptInOrder(columns, PruneKeptFrom(ov, AllKept(|ov|), n));
  }
}
