/**
 The spike trains of `gen_data` (utils.py): a boolean matrix of N neurons by
 T frames, drawn elsewhere, in which no neuron fires in the first frame and
 the first N // 2 neurons are held silent for a warm-up window that grows with
 the neuron's index.

 The draw `np.random.rand(N, T) < firerate / framerate` is the input array.
 */
module SpikeTrains {
  import opened Arithmetic

  /** Frames every warm-up window starts with. */
  const WarmUpBase: nat := 500

  /** `500 + i * T // N * 2 // 3`: the end of neuron `i`'s warm-up window, before clipping at T. */
  function WarmUp(i: nat, n: nat, t: nat): (stop: nat)
    requires n > 0
    ensures stop >= WarmUpBase
  {
    WarmUpBase + i * t / n * 2 / 3
  }

  /** Whether entry (i, k) of an N by T spike matrix is forced to zero. */
  predicate Silenced(n: nat, t: nat, i: nat, k: nat) {
    k == 0 || (i < n / 2 && k < WarmUp(i, n, t))
  }

  /** Later neurons never have a shorter warm-up window. */
  lemma WarmUpMonotone(i: nat, j: nat, n: nat, t: nat)
    requires n > 0 && i <= j
    ensures WarmUp(i, n, t) <= WarmUp(j, n, t)
  {
    MultiplyMonotone(i, j, t);
    DivideMonotone(i * t, j * t, n);
    DivideMonotone(i * t / n * 2, j * t / n * 2, 3);
  }

  /**
   For every neuron that gets a warm-up window, the part of the window beyond
   the first 500 frames covers less than a third of the recording.
   */
  lemma WarmUpBeyondBaseBelowThird(i: nat, n: nat, t: nat)
    requires n > 0 && i < n / 2 && t > 0
    ensures 3 * (WarmUp(i, n, t) - WarmUpBase) < t
  {
    var q := i * t / n;
    assert q * n <= i * t;
    assert 2 * i < n;
    assert 2 * q * n <= 2 * i * t;
    assert 2 * i * t < n * t by {
      MultiplyStrict(2 * i, n, t);
    }
    assert 2 * q < t by {
      if 2 * q >= t {
        MultiplyMonotone(t, 2 * q, n);
      }
    }
    assert (q * 2 / 3) * 3 <= q * 2;
  }

  /**
   `trueS[:, 0] = 0` followed by the warm-up loop, in place. Clearing column 0
   of a matrix with no columns raises an index error in the source; the method
   then reports failure and leaves the matrix as it was. Otherwise every
   silenced entry becomes false and every other entry keeps its drawn value.
   */
  method MaskSpikes(s: array2<bool>) returns (ok: bool)
    modifies s
    ensures ok == (s.Length1 > 0)
    ensures !ok ==> unchanged(s)
    ensures ok ==> forall i, k :: 0 <= i < s.Length0 && 0 <= k < s.Length1 ==>
              s[i, k] == (old(s[i, k]) && !Silenced(s.Length0, s.Length1, i, k))
  {
    var n, t := s.Length0, s.Length1;
    if t == 0 {
      return false;
    }
    ok := true;
    for i := 0 to n
      invariant forall a, k :: 0 <= a < n && 0 <= k < t ==>
                  s[a, k] == (old(s[a, k]) && !(k == 0 && a < i))
    {
      s[i, 0] := false;
    }
    for i := 0 to n / 2
      invariant forall a, k :: 0 <= a < n && 0 <= k < t ==>
                  s[a, k] == (old(s[a, k]) && !(k == 0 || (a < i && k < WarmUp(a, n, t))))
    {
      var stop := WarmUp(i, n, t);
      if stop > t {
        stop := t;
      }
      for k := 0 to stop
        invariant forall a, k' :: 0 <= a < n && 0 <= k' < t ==>
                    s[a, k'] == (old(s[a, k']) && !(k' == 0 || (a < i && k' < WarmUp(a, n, t)) || (a == i && k' < k)))
      {
        s[i, k] := false;
      }
    }
  }
}
