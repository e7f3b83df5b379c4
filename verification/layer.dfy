/** `class Layer` of CNN.cpp as an immutable value. The `prev`/`next` pointers become the
    positions of the neighbouring layers inside the owning network (`None` is `nullptr`). */
module Layers {
  import opened Wrappers
  import opened VectorMath

  /** The fixed learning rate of the weight update (`0.1f`). */
  const LearningRate: real := 0.1

  /** One layer of neurons. `values` and `biases` hold one entry per neuron of this layer
      (`inSize`); once initialised, `weights` holds `outSize` rows of `inSize` entries, row i
      feeding neuron i of the next layer. The unused `weight_size`/`bias_size` members are
      not modelled. */
  datatype Layer = Layer(
    prev: Option<nat>,
    next: Option<nat>,
    values: seq<real>,
    biases: seq<real>,
    weights: seq<seq<real>>,
    inSize: nat,
    outSize: nat)

  /** Not yet linked into a chain. */
  predicate Unlinked(l: Layer)
  {
    l.prev.None? && l.next.None?
  }

  /** The weight matrix has `outSize` rows of `inSize` entries. */
  predicate WeightShape(l: Layer)
  {
    |l.weights| == l.outSize && forall i :: 0 <= i < |l.weights| ==> |l.weights[i]| == l.inSize
  }

  /** Every weight lies in [-1, 1]. */
  predicate WeightsInRange(l: Layer)
  {
    forall i, j :: 0 <= i < |l.weights| && 0 <= j < |l.weights[i]| ==> -1.0 <= l.weights[i][j] <= 1.0
  }

  /** The constructor `Layer(in_size, out_size, ...)`: zeroed values and biases of length
      `in_size`, no weights, no links. */
  function NewLayer(inSize: nat, outSize: nat): (l: Layer)
    ensures Unlinked(l)
    ensures |l.values| == inSize && |l.biases| == inSize && |l.weights| == 0
    ensures l.inSize == inSize && l.outSize == outSize
    ensures forall k :: 0 <= k < inSize ==> l.values[k] == 0.0 && l.biases[k] == 0.0
  {
    Layer(None, None, Zeros(inSize), Zeros(inSize), [], inSize, outSize)
  }

  /** `init_weights()`: nothing happens when there is no next layer; otherwise the matrix is
      reshaped to `outSize` rows of `inSize` entries and every entry is overwritten with an
      arbitrary draw from [-1, 1], whatever the matrix held before. */
  method InitWeights(l: Layer) returns (r: Layer)
    ensures l.next.None? ==> r == l
    ensures l.next.Some? ==> WeightShape(r) && WeightsInRange(r)
    ensures r.(weights := l.weights) == l
  {
    if l.next.None? {
      return l;
    }
    var w: seq<seq<real>> := [];
    var i := 0;
    while i < l.outSize
      invariant i <= l.outSize
      invariant |w| == i
      invariant forall k :: 0 <= k < i ==> |w[k]| == l.inSize
      invariant forall k, j :: 0 <= k < i && 0 <= j < |w[k]| ==> -1.0 <= w[k][j] <= 1.0
    {
      var row: seq<real> := [];
      var j := 0;
      while j < l.inSize
        invariant j <= l.inSize
        invariant |row| == j
        invariant forall m :: 0 <= m < j ==> -1.0 <= row[m] <= 1.0
      {
        var x: real :| -1.0 <= x <= 1.0;
        row := row + [x];
        j := j + 1;
      }
      w := w + [row];
      i := i + 1;
    }
    r := l.(weights := w);
  }

  /** `add_tail(layer)`: `self` (at position `at`) points forward to `layer` (at position
      `layerAt`), and `layer` points back to `self`. Nothing else changes. */
  function AddTail(self: Layer, at: nat, layer: Layer, layerAt: nat): (r: (Layer, Layer))
    ensures r.0.next == Some(layerAt) && r.1.prev == Some(at)
    ensures r.0.(next := self.next) == self
    ensures r.1.(prev := layer.prev) == layer
  {
    (self.(next := Some(layerAt)), layer.(prev := Some(at)))
  }

  /** The rows `i .. outSize-1` of the weight matrix can be dotted with the values. */
  predicate RowsFit(l: Layer, i: nat)
    requires l.outSize <= |l.weights|
  {
    forall k :: i <= k < l.outSize ==> |l.weights[k]| == |l.values|
  }

  /** The loop of `forward_propogate()` from row i on: entry k < outSize of the next layer's
      values becomes `activation(dot(weights[k], values) + nextBiases[k])`. It fails as soon as
      a row's length differs from the number of values, since `dot` throws. */
  function FillNext(sigma: real -> real, l: Layer, nextValues: seq<real>, nextBiases: seq<real>, i: nat)
    : (r: Result<seq<real>>)
    requires i <= l.outSize <= |l.weights|
    requires l.outSize <= |nextValues| && l.outSize <= |nextBiases|
    decreases l.outSize - i
    ensures r.Failure? <==> !RowsFit(l, i)
    ensures r.Failure? ==> r.error == DimensionMismatch
    ensures r.Success? ==> |r.value| == |nextValues|
    ensures r.Success? ==> forall k :: 0 <= k < |nextValues| && !(i <= k < l.outSize) ==> r.value[k] == nextValues[k]
    ensures r.Success? ==> forall k :: i <= k < l.outSize ==>
      r.value[k] == sigma(SumProducts(l.weights[k], l.values) + nextBiases[k])
  {
    if i == l.outSize then Success(nextValues)
    else
      var d :- Dot(l.weights[i], l.values);
      FillNext(sigma, l, nextValues[i := sigma(d + nextBiases[i])], nextBiases, i + 1)
  }

  /** The delta handed to the previous layer, written out from the ORIGINAL weights: the loop
      of `back_propogate` overwrites `prev_delta[j]` for every row, so only the last row
      (`n-1`) survives, and it uses that row's already-updated weight. With no rows, the
      delta stays zero. */
  function LastRowDelta(sigma: real -> real, w: seq<seq<real>>, delta: seq<real>, values: seq<real>, n: nat, j: nat): real
    requires n <= |delta| && n <= |w|
    requires n > 0 ==> j < |w[n - 1]| && j < |values|
  {
    if n == 0 then 0.0
    else
      var d := delta[n - 1];
      d * (w[n - 1][j] + LearningRate * d * values[j]) * Df(sigma, values[j])
  }

  /** `after` is `w` with rows `i .. n-1` nudged by `0.1 * delta[k] * values[j]` and every
      other row unchanged. */
  predicate RowsNudged(w: seq<seq<real>>, after: seq<seq<real>>, delta: seq<real>, values: seq<real>, n: nat, i: nat)
    requires n <= |delta|
    requires forall k :: i <= k < n && k < |w| ==> |w[k]| <= |values|
  {
    && |after| == |w|
    && (forall k :: 0 <= k < |w| ==> |after[k]| == |w[k]|)
    && forall k, j :: 0 <= k < |w| && 0 <= j < |w[k]| ==>
      after[k][j] == if i <= k < n then w[k][j] + LearningRate * delta[k] * values[j] else w[k][j]
  }

  /** The delta left behind once rows `i .. n-1` have run: the last row's, or the starting
      vector when no row runs. */
  predicate DeltaLeft(sigma: real -> real, w: seq<seq<real>>, delta: seq<real>, values: seq<real>,
                      prevDelta: seq<real>, after: seq<real>, n: nat, i: nat)
    requires i <= n <= |delta| && n <= |w|
    requires forall k :: 0 <= k < |w| ==> |w[k]| == |prevDelta|
    requires n > 0 ==> |prevDelta| <= |values|
  {
    && |after| == |prevDelta|
    && forall j :: 0 <= j < |prevDelta| ==>
      after[j] == if i < n then LastRowDelta(sigma, w, delta, values, n, j) else prevDelta[j]
  }

  /** The nested loops of `back_propogate(delta)` run over rows `i .. n-1` of the previous
      layer's weights: each entry grows by `0.1 * delta[k] * values[j]`, and `prevDelta[j]`
      is overwritten on every row. Rows from n on are left alone. */
  function BackRows(sigma: real -> real, w: seq<seq<real>>, delta: seq<real>, values: seq<real>,
                    prevDelta: seq<real>, n: nat, i: nat): (r: (seq<seq<real>>, seq<real>))
    requires i <= n <= |delta| && n <= |w|
    requires forall k :: 0 <= k < |w| ==> |w[k]| == |prevDelta|
    requires n > 0 ==> |prevDelta| <= |values|
    decreases n - i
    ensures RowsNudged(w, r.0, delta, values, n, i)
    ensures DeltaLeft(sigma, w, delta, values, prevDelta, r.1, n, i)
  {
    if i == n then (w, prevDelta)
    else
      var row := Nudge(w[i], delta[i], values);
      var pd := RowDelta(sigma, row, delta[i], values);
      var r := BackRows(sigma, w[i := row], delta, values, pd, n, i + 1);
      BackRowsStep(sigma, w, delta, values, prevDelta, n, i, r);
      r
  }

  /** One row of `BackRows`: what the remaining rows do to the nudged matrix is what all rows
      from i do to the original one. */
  lemma BackRowsStep(sigma: real -> real, w: seq<seq<real>>, delta: seq<real>, values: seq<real>,
                     prevDelta: seq<real>, n: nat, i: nat, r: (seq<seq<real>>, seq<real>))
    requires i < n <= |delta| && n <= |w|
    requires forall k :: 0 <= k < |w| ==> |w[k]| == |prevDelta|
    requires |prevDelta| <= |values|
    requires
      var row := Nudge(w[i], delta[i], values);
      && RowsNudged(w[i := row], r.0, delta, values, n, i + 1)
      && DeltaLeft(sigma, w[i := row], delta, values, RowDelta(sigma, row, delta[i], values), r.1, n, i + 1)
    ensures RowsNudged(w, r.0, delta, values, n, i)
    ensures DeltaLeft(sigma, w, delta, values, prevDelta, r.1, n, i)
  {
  }

  /** One row of the weight update: `weights[i][j] += 0.1 * delta[i] * values[j]`. */
  function Nudge(row: seq<real>, d: real, values: seq<real>): (r: seq<real>)
    requires |row| <= |values|
    ensures |r| == |row|
    ensures forall j :: 0 <= j < |row| ==> r[j] == row[j] + LearningRate * d * values[j]
  {
    seq(|row|, j requires 0 <= j < |row| => row[j] + LearningRate * d * values[j])
  }

  /** `prev_delta[j] = delta[i] * weights[i][j] * df(values[j])` for one (updated) row. */
  function RowDelta(sigma: real -> real, row: seq<real>, d: real, values: seq<real>): (r: seq<real>)
    requires |row| <= |values|
    ensures |r| == |row|
    ensures forall j :: 0 <= j < |row| ==> r[j] == d * row[j] * Df(sigma, values[j])
  {
    seq(|row|, j requires 0 <= j < |row| => d * row[j] * Df(sigma, values[j]))
  }
}
