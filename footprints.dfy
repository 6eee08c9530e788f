/**
 The discrete and exact-real steps of the footprint synthesizer in `gen_data`
 (utils.py): how many candidates are drawn, where their centres go, the
 per-candidate truncation below a fraction of its peak, the overlap matrix
 the pruning works on, and the selection of the kept columns.

 Random draws (`np.random.rand`) are parameters: each is a real in [0, 1).
 Footprints are given column by column, one `seq<real>` per candidate.
 */
module Footprints {
  import opened Arithmetic

  /** Margin, in pixels, between the image border and any centre. */
  const Boundary: int := 4

  /** Centres are stored as `uint16`. */
  const Uint16Modulus: int := 0x1_0000

  // ---------------------------------------------------------------------------
  // M = int(N * 1.5)

  /** `int(N * 1.5)`: the number of candidates drawn before pruning, 1.5 N rounded down. */
  function CandidateCount(n: nat): (m: nat)
    ensures n <= m
    ensures 2 * m <= 3 * n < 2 * m + 2
  {
    n + n / 2
  }

  // ---------------------------------------------------------------------------
  // centres = boundary + (rand(M, 2) * (dims - 2 * boundary)).astype('uint16')

  /** A float-to-integer cast: truncation toward zero. */
  function Truncate(x: real): (k: int)
    ensures x >= 0.0 ==> k as real <= x < k as real + 1.0
    ensures x < 0.0 ==> k as real - 1.0 < x <= k as real
  {
    if x >= 0.0 then x.Floor else -((-x).Floor)
  }

  /** Reduction to `uint16`. */
  function Wrap16(k: int): (w: int)
    ensures 0 <= w < Uint16Modulus
    ensures 0 <= k < Uint16Modulus ==> w == k
  {
    k % Uint16Modulus
  }

  /** An image extent along which a centre can be placed without wrapping its `uint16` coordinate. */
  predicate PlaceableExtent(extent: int) {
    2 * Boundary < extent <= Uint16Modulus + Boundary
  }

  /** A draw of `np.random.rand`. */
  predicate UnitDraw(r: real) {
    0.0 <= r < 1.0
  }

  /** One centre coordinate from one draw `r` along an axis of length `extent`. */
  function CentreCoordinate(extent: int, r: real): (c: int)
    ensures 0 <= c < Uint16Modulus
    ensures PlaceableExtent(extent) && UnitDraw(r) ==> Boundary <= c <= extent - Boundary - 1
  {
    var span := extent - 2 * Boundary;
    var offset := Wrap16(Truncate(r * span as real));
    if PlaceableExtent(extent) && UnitDraw(r) then
      ScaledDrawBelow(r, span);
      Wrap16(Boundary + offset)
    else
      Wrap16(Boundary + offset)
  }

  /** A draw in [0, 1) scaled by a positive span truncates to an offset in [0, span - 1]. */
  lemma ScaledDrawBelow(r: real, span: int)
    requires UnitDraw(r) && span > 0
    ensures 0 <= Truncate(r * span as real) < span
  {
    var x := r * span as real;
    assert x < span as real by {
      ProductSign(1.0 - r, span as real);
      assert span as real - x == (1.0 - r) * span as real;
    }
    assert x.Floor as real <= x;
  }

  /** Every candidate's centre, one (row, column) pair per pair of draws. */
  function Centres(dims: (int, int), draws: seq<(real, real)>): (centres: seq<(int, int)>)
    ensures |centres| == |draws|
    ensures PlaceableExtent(dims.0) && PlaceableExtent(dims.1) ==>
              forall i :: 0 <= i < |draws| && UnitDraw(draws[i].0) && UnitDraw(draws[i].1) ==>
                Boundary <= centres[i].0 < dims.0 - Boundary && Boundary <= centres[i].1 < dims.1 - Boundary
  {
    seq(|draws|, i requires 0 <= i < |draws| =>
      (CentreCoordinate(dims.0, draws[i].0), CentreCoordinate(dims.1, draws[i].1)))
  }

  // ---------------------------------------------------------------------------
  // trueA *= (trueA >= trueA.max(0) * truncate)

  /** The largest entry of a footprint. */
  function Peak(column: seq<real>): (m: real)
    requires |column| > 0
    ensures forall i :: 0 <= i < |column| ==> column[i] <= m
  {
    if |column| == 1 then column[0]
    else
      var m' := Peak(column[..|column| - 1]);
      assert forall i :: 0 <= i < |column| - 1 ==> column[..|column| - 1][i] == column[i];
      if column[|column| - 1] > m' then column[|column| - 1] else m'
  }

  /** The peak is one of the entries. */
  lemma {:induction false} PeakAttained(column: seq<real>) returns (k: nat)
    requires |column| > 0
    ensures k < |column| && column[k] == Peak(column)
  {
    if |column| == 1 {
      k := 0;
    } else {
      k := PeakAttained(column[..|column| - 1]);
      if column[|column| - 1] > Peak(column[..|column| - 1]) {
        k := |column| - 1;
      }
    }
  }

  /** One entry multiplied by the mask `entry >= peak * fraction`. */
  function Masked(entry: real, peak: real, fraction: real): real {
    if entry >= peak * fraction then entry else 0.0
  }

  /** One footprint with every entry below `fraction` of its peak set to zero. */
  function TruncateColumn(column: seq<real>, fraction: real): (r: seq<real>)
    requires |column| > 0
    ensures |r| == |column|
    ensures forall i :: 0 <= i < |r| ==> r[i] == column[i] || r[i] == 0.0
  {
    var peak := Peak(column);
    seq(|column|, i requires 0 <= i < |column| => Masked(column[i], peak, fraction))
  }

  /**
   With a fraction in [0, 1] and a non-negative footprint, a peak entry
   survives truncation unchanged, so a footprint with any positive entry is
   never truncated to all zeros (which other entries are kept is stated by
   `TruncateColumnKeepsExactly`).
   */
  lemma TruncateKeepsPeak(column: seq<real>, fraction: real) returns (k: nat)
    requires |column| > 0
    requires 0.0 <= fraction <= 1.0
    requires forall i :: 0 <= i < |column| ==> column[i] >= 0.0
    ensures k < |column| && column[k] == Peak(column)
    ensures TruncateColumn(column, fraction)[k] == Peak(column)
    ensures (exists i :: 0 <= i < |column| && column[i] > 0.0) ==> TruncateColumn(column, fraction)[k] > 0.0
  {
    k := PeakAttained(column);
    var m := Peak(column);
    assert m >= 0.0 by { assert column[0] <= m; }
    ScaleBelow(m, fraction);
    if exists i :: 0 <= i < |column| && column[i] > 0.0 {
      var i :| 0 <= i < |column| && column[i] > 0.0;
      assert column[i] <= m;
    }
  }

  /** Entry i of a truncated footprint is entry i masked against the footprint's peak. */
  lemma TruncateColumnAt(column: seq<real>, fraction: real, i: nat)
    requires i < |column|
    ensures TruncateColumn(column, fraction)[i] == Masked(column[i], Peak(column), fraction)
  {
  }

  /** The mask keeps an entry exactly when it is at least `fraction` of the peak, and zeroes it otherwise. */
  lemma MaskedKeepsExactly(entry: real, peak: real, fraction: real)
    ensures entry >= peak * fraction ==> Masked(entry, peak, fraction) == entry
    ensures entry < peak * fraction ==> Masked(entry, peak, fraction) == 0.0
  {
  }

  /**
   Truncation keeps exactly the entries that are at least `fraction` of the
   peak and zeroes the others: a non-zero entry of the result was at least
   that large, and every entry at least that large is kept unchanged.
   */
  lemma TruncateColumnKeepsExactly(column: seq<real>, fraction: real, i: nat)
    requires i < |column|
    ensures column[i] >= Peak(column) * fraction ==> TruncateColumn(column, fraction)[i] == column[i]
    ensures column[i] < Peak(column) * fraction ==> TruncateColumn(column, fraction)[i] == 0.0
    ensures TruncateColumn(column, fraction)[i] != 0.0 ==> column[i] >= Peak(column) * fraction
  {
    var peak := Peak(column);
    var r := TruncateColumn(column, fraction)[i];
    TruncateColumnAt(column, fraction, i);
    assert r == Masked(column[i], peak, fraction);
    MaskedKeepsExactly(column[i], peak, fraction);
  }

  lemma ScaleBelow(m: real, fraction: real)
    requires m >= 0.0 && 0.0 <= fraction <= 1.0
    ensures m * fraction <= m
  {
    assert m * (1.0 - fraction) >= 0.0;
  }

  // ---------------------------------------------------------------------------
  // overlap = trueA.T.dot(trueA) - np.eye(M)

  function Dot(x: seq<real>, y: seq<real>): (d: real)
    requires |x| == |y|
    ensures NonNegative(x) && NonNegative(y) ==> d >= 0.0
  {
    if x == [] then 0.0
    else
      var n := |x| - 1;
      assert forall i :: 0 <= i < n ==> x[..n][i] == x[i] && y[..n][i] == y[i];
      Dot(x[..n], y[..n]) + x[n] * y[n]
  }

  /** Every footprint (every row of a matrix) has `pixels` entries. */
  predicate SameLength(columns: seq<seq<real>>, pixels: nat) {
    forall k :: 0 <= k < |columns| ==> |columns[k]| == pixels
  }

  predicate IsSquare(m: seq<seq<real>>) {
    forall r :: 0 <= r < |m| ==> |m[r]| == |m|
  }

  /** The pairwise overlap of the footprints, with each footprint's overlap with itself reduced by one. */
  function Overlap(columns: seq<seq<real>>, pixels: nat): (ov: seq<seq<real>>)
    requires SameLength(columns, pixels)
    ensures |ov| == |columns| && IsSquare(ov)
  {
    seq(|columns|, r requires 0 <= r < |columns| =>
      seq(|columns|, c requires 0 <= c < |columns| =>
        Dot(columns[r], columns[c]) - (if r == c then 1.0 else 0.0)))
  }

  /** The dot product is that of all but the last entries plus the product of the last ones. */
  lemma {:induction false} DotLast(x: seq<real>, y: seq<real>)
    requires |x| == |y| > 0
    ensures Dot(x, y) == Dot(x[..|x| - 1], y[..|y| - 1]) + x[|x| - 1] * y[|y| - 1]
  {
  }

  lemma {:induction false} DotSymmetric(x: seq<real>, y: seq<real>)
    requires |x| == |y|
    ensures Dot(x, y) == Dot(y, x)
  {
    if x != [] {
      var n := |x| - 1;
      DotSymmetric(x[..n], y[..n]);
      DotLast(x, y);
      DotLast(y, x);
      assert x[n] * y[n] == y[n] * x[n];
    }
  }

  /** Two footprints with no pixel where both are non-zero. */
  predicate Disjoint(x: seq<real>, y: seq<real>) {
    |x| == |y| && forall i :: 0 <= i < |x| ==> x[i] == 0.0 || y[i] == 0.0
  }

  /** Disjoint footprints have a zero dot product. */
  lemma {:induction false} DotOfDisjoint(x: seq<real>, y: seq<real>)
    requires Disjoint(x, y)
    ensures Dot(x, y) == 0.0
  {
    if x != [] {
      var n := |x| - 1;
      assert Disjoint(x[..n], y[..n]) by {
        assert forall i :: 0 <= i < n ==> x[..n][i] == x[i] && y[..n][i] == y[i];
      }
      DotOfDisjoint(x[..n], y[..n]);
      assert x[n] == 0.0 || y[n] == 0.0;
    }
  }

  /**
   The overlap matrix is symmetric; for non-negative footprints every entry
   off the diagonal is non-negative, and for unit-norm footprints the diagonal
   is zero.
   */
  lemma OverlapProperties(columns: seq<seq<real>>, pixels: nat)
    requires SameLength(columns, pixels)
    ensures forall r, c :: 0 <= r < |columns| && 0 <= c < |columns| ==>
              Overlap(columns, pixels)[r][c] == Overlap(columns, pixels)[c][r]
    ensures (forall k, i :: 0 <= k < |columns| && 0 <= i < pixels ==> columns[k][i] >= 0.0) ==>
              forall r, c :: 0 <= r < |columns| && 0 <= c < |columns| && r != c ==> Overlap(columns, pixels)[r][c] >= 0.0
    ensures (forall k :: 0 <= k < |columns| ==> Dot(columns[k], columns[k]) == 1.0) ==>
              forall r :: 0 <= r < |columns| ==> Overlap(columns, pixels)[r][r] == 0.0
  {
    forall r, c | 0 <= r < |columns| && 0 <= c < |columns|
      ensures Overlap(columns, pixels)[r][c] == Overlap(columns, pixels)[c][r]
    {
      DotSymmetric(columns[r], columns[c]);
    }
    if forall k, i :: 0 <= k < |columns| && 0 <= i < pixels ==> columns[k][i] >= 0.0 {
      forall r, c | 0 <= r < |columns| && 0 <= c < |columns| && r != c
        ensures Overlap(columns, pixels)[r][c] >= 0.0
      {
      }
    }
  }

  /** Pairwise disjoint footprints of unit norm have an overlap matrix of zeros. */
  lemma OverlapOfDisjoint(columns: seq<seq<real>>, pixels: nat)
    requires SameLength(columns, pixels)
    requires forall r, c :: 0 <= r < |columns| && 0 <= c < |columns| && r != c ==> Disjoint(columns[r], columns[c])
    requires forall k :: 0 <= k < |columns| ==> Dot(columns[k], columns[k]) == 1.0
    ensures forall r, c :: 0 <= r < |columns| && 0 <= c < |columns| ==> Overlap(columns, pixels)[r][c] == 0.0
  {
    forall r, c | 0 <= r < |columns| && 0 <= c < |columns| && r != c
      ensures Overlap(columns, pixels)[r][c] == 0.0
    {
      DotOfDisjoint(columns[r], columns[c]);
    }
  }

  // ---------------------------------------------------------------------------
  // trueA = trueA[:, keep]

  function CountKept(keep: seq<bool>): (n: nat)
    ensures n <= |keep|
  {
    if keep == [] then 0 else CountKept(keep[..|keep| - 1]) + (if keep[|keep| - 1] then 1 else 0)
  }

  /** The positions of the kept entries, in increasing order. */
  function KeptIndices(keep: seq<bool>): (idx: seq<nat>)
    ensures |idx| == CountKept(keep)
    ensures forall j :: 0 <= j < |idx| ==> idx[j] < |keep| && keep[idx[j]]
    ensures forall j, j' :: 0 <= j < j' < |idx| ==> idx[j] < idx[j']
    ensures forall i :: 0 <= i < |keep| && keep[i] ==> i in idx
  {
    if keep == [] then []
    else
      var init := KeptIndices(keep[..|keep| - 1]);
      assert forall i :: 0 <= i < |keep| - 1 ==> keep[..|keep| - 1][i] == keep[i];
      if keep[|keep| - 1] then init + [|keep| - 1] else init
  }

  /** The kept columns, as boolean-mask indexing selects them. */
  function SelectKept<T>(columns: seq<T>, keep: seq<bool>): (selected: seq<T>)
    requires |columns| == |keep|
    ensures |selected| == CountKept(keep)
  {
    if keep == [] then []
    else
      var init := SelectKept(columns[..|columns| - 1], keep[..|keep| - 1]);
      if keep[|keep| - 1] then init + [columns[|columns| - 1]] else init
  }

  /**
   Selecting by a mask keeps exactly the kept columns, in their original
   relative order: the j-th selected column is the column at the j-th kept
   position.
   */
  lemma {:induction false} SelectKeptInOrder<T>(columns: seq<T>, keep: seq<bool>)
    requires |columns| == |keep|
    ensures |SelectKept(columns, keep)| == CountKept(keep)
    ensures forall j :: 0 <= j < CountKept(keep) ==> SelectKept(columns, keep)[j] == columns[KeptIndices(keep)[j]]
  {
    if keep != [] {
      SelectKeptInOrder(columns[..|columns| - 1], keep[..|keep| - 1]);
    }
  }
}
