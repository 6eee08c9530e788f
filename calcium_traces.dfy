/**
 The calcium traces of `gen_data` (utils.py): each neuron's spike train, as
 numbers, run through a leaky integrator with decay `gamma` per frame, in
 place along the time axis.

 The decay `gamma = exp(-1 / (tau * framerate))` is a parameter; traces are
 exact reals.
 */
module CalciumTraces {
  import SpikeTrains
  import opened Arithmetic

  /** The trace of one neuron at frame `t`: the recurrence the source's inner loop applies. */
  function Leaky(x: seq<real>, gamma: real, t: nat): real
    requires t < |x|
  {
    if t == 0 then x[0] else x[t] + gamma * Leaky(x, gamma, t - 1)
  }

  function Pow(gamma: real, k: nat): real {
    if k == 0 then 1.0 else gamma * Pow(gamma, k - 1)
  }

  /** The sum over frames j..t of the input at each frame, decayed by the frames since. */
  function Response(x: seq<real>, gamma: real, t: nat, j: nat): real
    requires t < |x| && j <= t + 1
    decreases t + 1 - j
  {
    if j == t + 1 then 0.0 else Pow(gamma, t - j) * x[j] + Response(x, gamma, t, j + 1)
  }

  /** One step of the response: the newest input plus the decayed response one frame earlier. */
  lemma {:induction false} ResponseStep(x: seq<real>, gamma: real, t: nat, j: nat)
    requires 0 < t < |x| && j <= t
    ensures Response(x, gamma, t, j) == x[t] + gamma * Response(x, gamma, t - 1, j)
    decreases t - j
  {
    if j < t {
      ResponseStep(x, gamma, t, j + 1);
      var p := Pow(gamma, t - 1 - j);
      var rest := Response(x, gamma, t - 1, j + 1);
      assert Pow(gamma, t - j) == gamma * p;
      assert Response(x, gamma, t - 1, j) == p * x[j] + rest;
      assert gamma * (p * x[j] + rest) == gamma * p * x[j] + gamma * rest;
    }
  }

  /**
   The recurrence has the closed form of a sum of past inputs: the trace at
   frame t is the sum over k <= t of gamma^(t - k) times the input at frame k.
   */
  lemma {:induction false} LeakyClosedForm(x: seq<real>, gamma: real, t: nat)
    requires t < |x|
    ensures Leaky(x, gamma, t) == Response(x, gamma, t, 0)
  {
    if t > 0 {
      LeakyClosedForm(x, gamma, t - 1);
      ResponseStep(x, gamma, t, 0);
    }
  }

  predicate Unit(x: seq<real>) {
    forall k :: 0 <= k < |x| ==> 0.0 <= x[k] <= 1.0
  }

  /**
   With non-negative input and decay the trace is non-negative and never
   falls faster than the decay: each frame keeps at least gamma times the
   previous one.
   */
  lemma {:induction false} LeakyNonNegative(x: seq<real>, gamma: real, t: nat)
    requires t < |x| && NonNegative(x) && gamma >= 0.0
    ensures Leaky(x, gamma, t) >= 0.0
    ensures t > 0 ==> Leaky(x, gamma, t) >= gamma * Leaky(x, gamma, t - 1)
  {
    if t > 0 {
      LeakyNonNegative(x, gamma, t - 1);
      assert gamma * Leaky(x, gamma, t - 1) >= 0.0;
    }
  }

  /**
   With inputs in [0, 1] and a decay in [0, 1) the trace stays below
   1 / (1 - gamma), the value a neuron firing on every frame approaches.
   */
  lemma {:induction false} LeakyBounded(x: seq<real>, gamma: real, t: nat)
    requires t < |x| && Unit(x) && 0.0 <= gamma < 1.0
    ensures (1.0 - gamma) * Leaky(x, gamma, t) <= 1.0
  {
    if t > 0 {
      LeakyBounded(x, gamma, t - 1);
      BoundStep(gamma, x[t], Leaky(x, gamma, t - 1));
    } else {
      BoundStep(gamma, x[0], 0.0);
    }
  }

  /** If (1 - gamma) p <= 1 and 0 <= v <= 1, then (1 - gamma)(v + gamma p) <= 1. */
  lemma BoundStep(gamma: real, v: real, p: real)
    requires 0.0 <= gamma < 1.0 && 0.0 <= v <= 1.0 && (1.0 - gamma) * p <= 1.0
    ensures (1.0 - gamma) * (v + gamma * p) <= 1.0
  {
    var a := 1.0 - gamma;
    assert a * (v + gamma * p) == a * v + gamma * (a * p);
    ProductSign(a, 1.0 - v);
    ProductSign(gamma, 1.0 - a * p);
  }

  /** A neuron that has not fired up to frame t has a zero trace at t. */
  lemma {:induction false} LeakySilent(x: seq<real>, gamma: real, t: nat)
    requires t < |x| && forall k :: 0 <= k <= t ==> x[k] == 0.0
    ensures Leaky(x, gamma, t) == 0.0
  {
    if t > 0 {
      LeakySilent(x, gamma, t - 1);
    }
  }

  /** `astype('float32')`: true becomes 1, false becomes 0. */
  function AsReal(b: bool): (r: real)
    ensures r == 1.0 <==> b
    ensures r == 0.0 <==> !b
  {
    if b then 1.0 else 0.0
  }

  /** Row `i` of a matrix, as a sequence over frames. */
  function Row(c: array2<real>, i: nat): (row: seq<real>)
    requires i < c.Length0
    reads c
    ensures |row| == c.Length1
    ensures forall k :: 0 <= k < c.Length1 ==> row[k] == c[i, k]
  {
    seq(c.Length1, k requires 0 <= k < c.Length1 reads c => c[i, k])
  }

  /** The spike train of neuron `i` as numbers. */
  function SpikeRow(s: array2<bool>, i: nat): (row: seq<real>)
    requires i < s.Length0
    reads s
    ensures |row| == s.Length1
    ensures forall k :: 0 <= k < s.Length1 ==> row[k] == AsReal(s[i, k])
  {
    seq(s.Length1, k requires 0 <= k < s.Length1 reads s => AsReal(s[i, k]))
  }

  /** `trueC = trueS.astype('float32')`. */
  method Convert(s: array2<bool>) returns (c: array2<real>)
    ensures fresh(c)
    ensures c.Length0 == s.Length0 && c.Length1 == s.Length1
    ensures forall i :: 0 <= i < s.Length0 ==> Row(c, i) == SpikeRow(s, i)
  {
    c := new real[s.Length0, s.Length1]((i, k) reads s => if 0 <= i < s.Length0 && 0 <= k < s.Length1 then AsReal(s[i, k]) else 0.0);
    forall i | 0 <= i < s.Length0
      ensures Row(c, i) == SpikeRow(s, i)
    {
      assert forall k :: 0 <= k < s.Length1 ==> Row(c, i)[k] == SpikeRow(s, i)[k];
    }
  }

  /**
   The two nested loops that add `gamma` times the previous frame to each
   frame, in place: every row ends as the leaky integration of what it held
   before.
   */
  method Integrate(c: array2<real>, gamma: real)
    modifies c
    ensures forall i, t :: 0 <= i < c.Length0 && 0 <= t < c.Length1 ==> c[i, t] == Leaky(old(Row(c, i)), gamma, t)
  {
    for i := 0 to c.Length0
      invariant forall a, t :: 0 <= a < c.Length0 && 0 <= t < c.Length1 ==>
                  c[a, t] == if a < i then Leaky(old(Row(c, a)), gamma, t) else old(c[a, t])
    {
      ghost var before := Row(c, i);
      assert before == old(Row(c, i));
      IntegrateRow(c, i, gamma);
    }
  }

  /** The inner loop for neuron `i`: its row becomes the leaky integration of itself; other rows are untouched. */
  method IntegrateRow(c: array2<real>, i: nat, gamma: real)
    requires i < c.Length0
    modifies c
    ensures forall t :: 0 <= t < c.Length1 ==> c[i, t] == Leaky(old(Row(c, i)), gamma, t)
    ensures forall a, t :: 0 <= a < c.Length0 && a != i && 0 <= t < c.Length1 ==> c[a, t] == old(c[a, t])
  {
    ghost var row := Row(c, i);
    if c.Length1 > 0 {
      for t := 1 to c.Length1
        invariant forall t' :: 0 <= t' < t ==> c[i, t'] == Leaky(row, gamma, t')
        invariant forall t' :: t <= t' < c.Length1 ==> c[i, t'] == row[t']
        invariant forall a, t' :: 0 <= a < c.Length0 && a != i && 0 <= t' < c.Length1 ==> c[a, t'] == old(c[a, t'])
      {
        var previous, current := c[i, t - 1], c[i, t];
        assert current + gamma * previous == Leaky(row, gamma, t);
        c[i, t] := current + gamma * previous;
      }
    }
  }

  /**
   The calcium traces: every entry is the leaky integration of its neuron's
   spike train, so traces are non-negative for a non-negative decay.
   */
  method Traces(s: array2<bool>, gamma: real) returns (c: array2<real>)
    ensures fresh(c)
    ensures c.Length0 == s.Length0 && c.Length1 == s.Length1
    ensures forall i, t :: 0 <= i < s.Length0 && 0 <= t < s.Length1 ==> c[i, t] == Leaky(SpikeRow(s, i), gamma, t)
    ensures gamma >= 0.0 ==> forall i, t :: 0 <= i < s.Length0 && 0 <= t < s.Length1 ==> c[i, t] >= 0.0
  {
    c := Convert(s);
    Integrate(c, gamma);
    if gamma >= 0.0 {
      forall i, t | 0 <= i < s.Length0 && 0 <= t < s.Length1
        ensures c[i, t] >= 0.0
      {
        LeakyNonNegative(SpikeRow(s, i), gamma, t);
      }
    }
  }

  /**
   Spike masking followed by the traces, as `gen_data` runs them: the spike
   matrix is masked as `MaskSpikes` states, every trace starts at zero, and a
   neuron with a warm-up window has a zero trace throughout that window.
   */
  method MaskedTraces(s: array2<bool>, gamma: real) returns (ok: bool, c: array2<real>)
    modifies s
    ensures ok == (s.Length1 > 0) && fresh(c)
    ensures !ok ==> unchanged(s)
    ensures ok ==> forall i, k :: 0 <= i < s.Length0 && 0 <= k < s.Length1 ==>
              s[i, k] == (old(s[i, k]) && !SpikeTrains.Silenced(s.Length0, s.Length1, i, k))
    ensures c.Length0 == s.Length0 && c.Length1 == s.Length1
    ensures forall i, t :: 0 <= i < s.Length0 && 0 <= t < s.Length1 ==> c[i, t] == Leaky(SpikeRow(s, i), gamma, t)
    ensures ok ==> forall i :: 0 <= i < s.Length0 ==> c[i, 0] == 0.0
    ensures ok ==> forall i, t :: 0 <= i < s.Length0 / 2 && 0 <= t < s.Length1 && t < SpikeTrains.WarmUp(i, s.Length0, s.Length1) ==>
              c[i, t] == 0.0
  {
    ok := SpikeTrains.MaskSpikes(s);
    c := Traces(s, gamma);
    if ok {
      forall i, t | 0 <= i < s.Length0 && 0 <= t < s.Length1 &&
                    (t == 0 || (i < s.Length0 / 2 && t < SpikeTrains.WarmUp(i, s.Length0, s.Length1)))
        ensures c[i, t] == 0.0
      {
        assert forall k :: 0 <= k <= t ==> SpikeTrains.Silenced(s.Length0, s.Length1, i, k);
        LeakySilent(SpikeRow(s, i), gamma, t);
      }
    }
  }
}
