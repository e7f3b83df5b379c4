/** `class CNN` of CNN.cpp: an ordered chain of layers with forward and backward passes.
    The network is a sequence of layers whose `prev`/`next` links are positions in that
    sequence; `Chained` states that the links agree with the positions. */
module Cnn {
  import opened Wrappers
  import opened VectorMath
  import opened Layers

  datatype Network = Network(layers: seq<Layer>)

  // ---------------------------------------------------------------------------
  // Assembly: head, tail, add.

  /** `head()`: the first layer, or null for an empty network. */
  function Head(net: Network): (r: Option<nat>)
    ensures r.None? <==> |net.layers| == 0
    ensures r.Some? ==> r.value < |net.layers|
    ensures r.Some? && Chained(net.layers) ==> net.layers[r.value].prev.None?
  {
    if |net.layers| == 0 then None else Some(0)
  }

  /** `tail()`: the last layer, or null for an empty network. */
  function Tail(net: Network): (r: Option<nat>)
    ensures r.None? <==> |net.layers| == 0
    ensures r.Some? ==> r.value < |net.layers|
    ensures r.Some? && Chained(net.layers) ==> net.layers[r.value].next.None?
  {
    if |net.layers| == 0 then None else Some(|net.layers| - 1)
  }

  /** `add(layer)`: when the network is not empty, the old tail is linked forward to the new
      layer and the new layer back to the old tail; the layer is then appended. */
  function Add(net: Network, layer: Layer): (r: Network)
    ensures |r.layers| == |net.layers| + 1
    ensures Tail(r) == Some(|net.layers|)
    ensures |net.layers| == 0 ==> r.layers == [layer]
    ensures |net.layers| > 0 ==>
      && r.layers[|net.layers|] == layer.(prev := Some(|net.layers| - 1))
      && r.layers[|net.layers| - 1] == net.layers[|net.layers| - 1].(next := Some(|net.layers|))
    ensures forall i :: 0 <= i < |net.layers| - 1 ==> r.layers[i] == net.layers[i]
  {
    match Tail(net)
    case None => Network(net.layers + [layer])
    case Some(t) =>
      var linked := AddTail(net.layers[t], t, layer, |net.layers|);
      Network(net.layers[t := linked.0] + [linked.1])
  }

  /** Every layer's links point at its neighbours by position: the first has no `prev`,
      the last has no `next`. */
  predicate Chained(layers: seq<Layer>)
  {
    forall i :: 0 <= i < |layers| ==>
      && layers[i].prev == (if i == 0 then None else Some(i - 1))
      && layers[i].next == (if i + 1 == |layers| then None else Some(i + 1))
  }

  /** Adding an unlinked layer to a chained network keeps it chained. */
  lemma AddKeepsChained(net: Network, layer: Layer)
    requires Chained(net.layers) && Unlinked(layer)
    ensures Chained(Add(net, layer).layers)
  {
  }

  /** The layer as it sits at position i of an n-layer chain. */
  function LinkedAt(l: Layer, i: nat, n: nat): Layer
  {
    l.(prev := if i == 0 then None else Some(i - 1), next := if i + 1 == n then None else Some(i + 1))
  }

  /** The network made by `add`-ing the given layers one after another to an empty one. */
  function Build(ls: seq<Layer>): Network
  {
    if |ls| == 0 then Network([]) else Add(Build(ls[..|ls| - 1]), ls[|ls| - 1])
  }

  /** After any sequence of `add`s of freshly constructed layers the network is chained, and
      each layer is the one added at that position with only its links set. */
  lemma {:induction false} BuildIsChained(ls: seq<Layer>)
    requires forall i :: 0 <= i < |ls| ==> Unlinked(ls[i])
    ensures |Build(ls).layers| == |ls|
    ensures Chained(Build(ls).layers)
    ensures forall i :: 0 <= i < |ls| ==> Build(ls).layers[i] == LinkedAt(ls[i], i, |ls|)
  {
    if |ls| > 0 {
      var front := ls[..|ls| - 1];
      BuildIsChained(front);
      AddKeepsChained(Build(front), ls[|ls| - 1]);
    }
  }

  // ---------------------------------------------------------------------------
  // Shape invariants.

  /** Consecutive layers agree on the number of neurons between them. */
  predicate SizesMatch(layers: seq<Layer>)
  {
    forall i :: 0 <= i < |layers| - 1 ==> layers[i].outSize == layers[i + 1].inSize
  }

  /** The buffers the code only writes element by element have one entry per neuron: every
      bias vector, and the values of every layer but the input layer (which `input` replaces
      wholesale). */
  predicate BuffersSized(layers: seq<Layer>)
  {
    forall i :: 0 <= i < |layers| ==>
      && |layers[i].biases| == layers[i].inSize
      && (i > 0 ==> |layers[i].values| == layers[i].inSize)
  }

  /** A non-empty chain of layers with matching sizes, as built before `init()`. */
  predicate Assembled(layers: seq<Layer>)
  {
    |layers| > 0 && Chained(layers) && SizesMatch(layers) && BuffersSized(layers)
  }

  /** An assembled chain whose every non-output layer has an `outSize` x `inSize` weight
      matrix: what the forward pass needs to stay in bounds. */
  predicate WellFormed(layers: seq<Layer>)
  {
    Assembled(layers) && forall i :: 0 <= i < |layers| - 1 ==> WeightShape(layers[i])
  }

  // ---------------------------------------------------------------------------
  // init and input.

  /** `init()`: `init_weights()` on every layer in chain order. Only weights change; the
      output layer keeps its (empty) matrix; an assembled chain becomes well formed. */
  method Init(net: Network) returns (r: Network)
    ensures |r.layers| == |net.layers|
    ensures forall i :: 0 <= i < |net.layers| ==> r.layers[i].(weights := net.layers[i].weights) == net.layers[i]
    ensures forall i :: 0 <= i < |net.layers| && net.layers[i].next.None? ==> r.layers[i] == net.layers[i]
    ensures forall i :: 0 <= i < |net.layers| && net.layers[i].next.Some? ==>
      WeightShape(r.layers[i]) && WeightsInRange(r.layers[i])
    ensures Assembled(net.layers) ==> WellFormed(r.layers)
  {
    var ls := net.layers;
    var i := 0;
    while i < |ls|
      invariant i <= |ls| == |net.layers|
      invariant forall k :: 0 <= k < |ls| ==> ls[k].(weights := net.layers[k].weights) == net.layers[k]
      invariant forall k :: i <= k < |ls| ==> ls[k] == net.layers[k]
      invariant forall k :: 0 <= k < i && net.layers[k].next.None? ==> ls[k] == net.layers[k]
      invariant forall k :: 0 <= k < i && net.layers[k].next.Some? ==> WeightShape(ls[k]) && WeightsInRange(ls[k])
    {
      var l := InitWeights(ls[i]);
      ls := ls[i := l];
      i := i + 1;
    }
    r := Network(ls);
  }

  /** `input(v)`: the input layer's values are replaced by v, with no length check; nothing
      else changes, so a well-formed network stays well formed. */
  function Input(net: Network, v: seq<real>): (r: Network)
    requires |net.layers| > 0
    ensures |r.layers| == |net.layers|
    ensures r.layers[0].values == v
    ensures r.layers[0].(values := net.layers[0].values) == net.layers[0]
    ensures forall i :: 0 < i < |net.layers| ==> r.layers[i] == net.layers[i]
    ensures WellFormed(net.layers) ==> WellFormed(r.layers)
  {
    Network(net.layers[0 := net.layers[0].(values := v)])
  }

  /** `get_output()`: the output layer's values, one per output neuron once the network has
      run forward. */
  function Output(net: Network): (r: seq<real>)
    requires |net.layers| > 0
    ensures WellFormed(net.layers) && |net.layers| > 1 ==> |r| == net.layers[|net.layers| - 1].inSize
  {
    net.layers[|net.layers| - 1].values
  }

  // ---------------------------------------------------------------------------
  // Forward pass.

  /** The two chains differ at most in the layers' values. */
  predicate SameExceptValues(a: seq<Layer>, b: seq<Layer>)
  {
    |a| == |b| && forall i :: 0 <= i < |a| ==> b[i].(values := a[i].values) == a[i]
  }

  /** Layer n's first `l.outSize` values are the activations computed from layer l. */
  predicate Activated(sigma: real -> real, l: Layer, n: Layer)
  {
    && l.outSize <= |l.weights| && l.outSize <= |n.values| && l.outSize <= |n.biases|
    && forall i :: 0 <= i < l.outSize ==>
      && |l.weights[i]| == |l.values|
      && n.values[i] == sigma(SumProducts(l.weights[i], l.values) + n.biases[i])
  }

  /** `dot` throws in the loop of layer l: it has a next layer, at least one row, and a value
      vector whose length differs from the rows'. */
  predicate DotThrows(l: Layer)
  {
    l.next.Some? && l.outSize > 0 && |l.values| != l.inSize
  }

  /** `Layer::forward_propogate()` on layer k, recursing along `next` until the output layer. */
  function ForwardFrom(sigma: real -> real, layers: seq<Layer>, k: nat): (r: Result<seq<Layer>>)
    requires WellFormed(layers) && k < |layers|
    decreases |layers| - k
    ensures r.Failure? <==> DotThrows(layers[k])
    ensures r.Failure? ==> r.error == DimensionMismatch
    ensures r.Success? ==> SameExceptValues(layers, r.value) && WellFormed(r.value)
    ensures r.Success? ==> forall m :: 0 <= m <= k ==> r.value[m] == layers[m]
    ensures r.Success? ==> forall m :: k <= m < |layers| - 1 ==> Activated(sigma, r.value[m], r.value[m + 1])
  {
    var l := layers[k];
    if l.next.None? then Success(layers)
    else
      var n := layers[k + 1];
      var vals :- FillNext(sigma, l, n.values, n.biases, 0);
      ForwardStep(sigma, layers, k, vals);
      ForwardFrom(sigma, layers[k + 1 := n.(values := vals)], k + 1)
  }

  /** One step of the walk: once layer k has filled the next layer's values, the chain is
      still well formed, only that layer's values changed, they are the activations of layer
      k, and they have the length the next step's `dot` needs. */
  lemma ForwardStep(sigma: real -> real, layers: seq<Layer>, k: nat, vals: seq<real>)
    requires WellFormed(layers) && k < |layers| && layers[k].next.Some?
    requires k + 1 < |layers|
    requires layers[k].outSize <= |layers[k + 1].values| && layers[k].outSize <= |layers[k + 1].biases|
    requires FillNext(sigma, layers[k], layers[k + 1].values, layers[k + 1].biases, 0) == Success(vals)
    ensures
      var next := layers[k + 1 := layers[k + 1].(values := vals)];
      && WellFormed(next) && SameExceptValues(layers, next)
      && !DotThrows(next[k + 1])
      && Activated(sigma, next[k], next[k + 1])
  {
    var next := layers[k + 1 := layers[k + 1].(values := vals)];
    assert BuffersSized(next);
    assert Chained(next);
  }

  /** `CNN::forward_propogate()`: the walk from the head. It throws exactly when the input
      layer's values have the wrong length (and there is a row to dot them with); otherwise
      only values change, and every layer after the head holds the activations of its
      predecessor's (already updated) values. */
  function Forward(sigma: real -> real, net: Network): (r: Result<Network>)
    requires WellFormed(net.layers)
    ensures r.Failure? <==> DotThrows(net.layers[0])
    ensures r.Failure? ==> r.error == DimensionMismatch
    ensures r.Success? ==> SameExceptValues(net.layers, r.value.layers) && WellFormed(r.value.layers)
    ensures r.Success? ==> r.value.layers[0] == net.layers[0]
    ensures r.Success? ==> forall m :: 0 <= m < |net.layers| - 1 ==>
      Activated(sigma, r.value.layers[m], r.value.layers[m + 1])
  {
    var ls :- ForwardFrom(sigma, net.layers, 0);
    Success(Network(ls))
  }

  /** The forward pass reads nothing but the weights, biases and input values: the values the
      other layers held before are overwritten entirely. So it is deterministic in those. */
  lemma ForwardIgnoresStaleValues(sigma: real -> real, a: Network, b: Network)
    requires WellFormed(a.layers) && WellFormed(b.layers)
    requires SameExceptValues(a.layers, b.layers)
    requires a.layers[0].values == b.layers[0].values
    ensures Forward(sigma, a) == Forward(sigma, b)
  {
    var ra := Forward(sigma, a);
    var rb := Forward(sigma, b);
    assert a.layers[0] == b.layers[0];
    if ra.Success? {
      var la, lb := ra.value.layers, rb.value.layers;
      var m := 0;
      while m < |la|
        invariant m <= |la| == |lb|
        invariant forall p :: 0 <= p < m ==> la[p] == lb[p]
      {
        if m > 0 {
          ActivationsDetermined(sigma, la[m - 1], la[m], lb[m]);
        }
        m := m + 1;
      }
      assert la == lb;
    }
  }

  /** A layer whose values are all written from its predecessor is determined by it. */
  lemma ActivationsDetermined(sigma: real -> real, l: Layer, n1: Layer, n2: Layer)
    requires Activated(sigma, l, n1) && Activated(sigma, l, n2)
    requires |n1.values| == |n2.values| == l.outSize && n1.(values := n2.values) == n2
    ensures n1 == n2
  {
    assert forall i :: 0 <= i < l.outSize ==> n1.values[i] == n2.values[i];
    assert n1.values == n2.values;
  }

  /** With all weights and biases zero, every layer after the input holds the activation of
      zero, whatever the input (compare the sigmoid's 0.5). */
  lemma ZeroNetworkGivesActivationOfZero(sigma: real -> real, net: Network)
    requires WellFormed(net.layers)
    requires !DotThrows(net.layers[0])
    requires forall m, i, j ::
      0 <= m < |net.layers| && 0 <= i < |net.layers[m].weights| && 0 <= j < |net.layers[m].weights[i]|
      ==> net.layers[m].weights[i][j] == 0.0
    requires forall m, i :: 0 <= m < |net.layers| && 0 <= i < |net.layers[m].biases| ==> net.layers[m].biases[i] == 0.0
    ensures Forward(sigma, net).Success?
    ensures forall m, i :: 0 < m < |net.layers| && 0 <= i < net.layers[m].inSize ==>
      Forward(sigma, net).value.layers[m].values[i] == sigma(0.0)
  {
    var r := Forward(sigma, net).value.layers;
    forall m, i | 0 < m < |net.layers| && 0 <= i < net.layers[m].inSize
      ensures r[m].values[i] == sigma(0.0)
    {
      assert Activated(sigma, r[m - 1], r[m]);
      SumProductsZeroLeft(r[m - 1].weights[i], r[m - 1].values);
    }
  }

  // ---------------------------------------------------------------------------
  // Backward pass.

  /** Every value vector the backward pass reads is long enough: those of layers with rows
      of weights, and the output layer's. */
  predicate Readable(layers: seq<Layer>)
  {
    forall m :: 0 <= m < |layers| && (layers[m].outSize > 0 || m + 1 == |layers|) ==>
      |layers[m].values| >= layers[m].inSize
  }

  predicate BackReady(layers: seq<Layer>)
  {
    WellFormed(layers) && Readable(layers)
  }

  /** The two chains differ at most in the layers' weights, and those keep their shape. */
  predicate SameExceptWeights(a: seq<Layer>, b: seq<Layer>)
  {
    && |a| == |b|
    && forall i :: 0 <= i < |a| ==>
      && b[i].(weights := a[i].weights) == a[i]
      && |b[i].weights| == |a[i].weights|
      && forall k :: 0 <= k < |a[i].weights| ==> |b[i].weights[k]| == |a[i].weights[k]|
  }

  /** The delta passed from a layer with delta `delta` back to its predecessor p, in terms of
      p's weights before the update. */
  function PassedDelta(sigma: real -> real, p: Layer, delta: seq<real>): (d: seq<real>)
    requires WeightShape(p) && |delta| == p.outSize
    requires p.outSize > 0 ==> |p.values| >= p.inSize
    ensures |d| == p.inSize
  {
    seq(p.inSize, j requires 0 <= j < p.inSize => LastRowDelta(sigma, p.weights, delta, p.values, p.outSize, j))
  }

  /** The deltas of layers 0..k when layer k starts the backward walk with `delta`, each
      derived from the original weights of the layer below it. */
  function DeltaChain(sigma: real -> real, layers: seq<Layer>, k: nat, delta: seq<real>): (c: seq<seq<real>>)
    requires BackReady(layers) && k < |layers| && |delta| == layers[k].inSize
    decreases k
    ensures |c| == k + 1 && c[k] == delta
    ensures forall m :: 0 <= m <= k ==> |c[m]| == layers[m].inSize
  {
    if k == 0 then [delta]
    else DeltaChain(sigma, layers, k - 1, PassedDelta(sigma, layers[k - 1], delta)) + [delta]
  }

  /** The deltas below k depend only on the layers below k (and the size of layer k-1). */
  lemma {:induction false} DeltaChainFrame(sigma: real -> real, a: seq<Layer>, b: seq<Layer>, k: nat, delta: seq<real>)
    requires BackReady(a) && BackReady(b) && k < |a| && k < |b|
    requires |delta| == a[k].inSize && a[k].inSize == b[k].inSize
    requires forall m :: 0 <= m < k ==> a[m] == b[m]
    ensures DeltaChain(sigma, a, k, delta) == DeltaChain(sigma, b, k, delta)
  {
    if k > 0 {
      DeltaChainFrame(sigma, a, b, k - 1, PassedDelta(sigma, a[k - 1], delta));
    }
  }

  /** Layer `after` is layer `before` with every weight w[i][j] grown by
      `0.1 * delta[i] * values[j]`, the update by the delta of the layer after it. */
  predicate UpdatedBy(before: Layer, after: Layer, delta: seq<real>)
  {
    && |after.weights| == |before.weights| <= |delta|
    && forall i :: 0 <= i < |before.weights| ==>
      && |after.weights[i]| == |before.weights[i]| <= |before.values|
      && forall j :: 0 <= j < |before.weights[i]| ==>
        after.weights[i][j] == before.weights[i][j] + LearningRate * delta[i] * before.values[j]
  }

  /** `Layer::back_propogate(delta)` on layer k, recursing along `prev` to the head. Only
      weights change, only those of layers before k, each exactly once by the delta of the
      layer after it. */
  function BackFrom(sigma: real -> real, layers: seq<Layer>, k: nat, delta: seq<real>): (r: seq<Layer>)
    requires BackReady(layers) && k < |layers| && |delta| == layers[k].inSize
    decreases k
    ensures SameExceptWeights(layers, r) && BackReady(r)
    ensures forall m :: k <= m < |layers| ==> r[m] == layers[m]
    ensures forall m :: 0 <= m < k ==> UpdatedBy(layers[m], r[m], DeltaChain(sigma, layers, k, delta)[m + 1])
  {
    var c := layers[k];
    if c.prev.None? then layers
    else
      var upd := StepUpdate(sigma, layers, k, delta);
      var layers' := layers[k - 1 := layers[k - 1].(weights := upd.0)];
      StepUpdateSound(sigma, layers, k, delta);
      StepKeepsChain(sigma, layers, k, delta);
      var r := BackFrom(sigma, layers', k - 1, upd.1);
      SameExceptWeightsTransitive(layers, layers', r);
      UpdatesCombine(layers, layers', r, k, DeltaChain(sigma, layers', k - 1, upd.1), delta);
      r
  }

  lemma SameExceptWeightsTransitive(a: seq<Layer>, b: seq<Layer>, c: seq<Layer>)
    requires SameExceptWeights(a, b) && SameExceptWeights(b, c)
    ensures SameExceptWeights(a, c)
  {
    forall i | 0 <= i < |a|
      ensures c[i].(weights := a[i].weights) == a[i]
    {
      assert b[i].(weights := a[i].weights) == a[i];
      assert c[i].(weights := b[i].weights) == b[i];
    }
  }

  /** The step's own update of layer k-1 and the recursive walk's updates of the layers
      below it together are the updates by the deltas `lower + [delta]`. */
  lemma UpdatesCombine(before: seq<Layer>, mid: seq<Layer>, after: seq<Layer>, k: nat,
                       lower: seq<seq<real>>, delta: seq<real>)
    requires 0 < k <= |before| == |mid| == |after| && |lower| == k
    requires forall m :: 0 <= m < k - 1 ==> mid[m] == before[m]
    requires UpdatedBy(before[k - 1], mid[k - 1], delta) && after[k - 1] == mid[k - 1]
    requires forall m :: 0 <= m < k - 1 ==> UpdatedBy(mid[m], after[m], lower[m + 1])
    ensures forall m :: 0 <= m < k ==> UpdatedBy(before[m], after[m], (lower + [delta])[m + 1])
  {
    forall m | 0 <= m < k
      ensures UpdatedBy(before[m], after[m], (lower + [delta])[m + 1])
    {
      if m < k - 1 {
        assert (lower + [delta])[m + 1] == lower[m + 1];
      } else {
        assert (lower + [delta])[m + 1] == delta;
      }
    }
  }

  /** The update of layer k-1's weights in one step of the walk, and the delta handed on;
      `StepUpdateSound` states what they are. */
  function StepUpdate(sigma: real -> real, layers: seq<Layer>, k: nat, delta: seq<real>): (r: (seq<seq<real>>, seq<real>))
    requires BackReady(layers) && 0 < k < |layers| && |delta| == layers[k].inSize
    ensures |r.0| == |layers[k - 1].weights| == layers[k].inSize
    ensures |r.1| == layers[k - 1].inSize
  {
    var p := layers[k - 1];
    BackRows(sigma, p.weights, delta, p.values, Zeros(p.inSize), layers[k].inSize, 0)
  }

  /** One step of the walk updates every row of layer k-1 by `delta` and hands on the
      chain's delta for layer k-1. */
  lemma StepUpdateSound(sigma: real -> real, layers: seq<Layer>, k: nat, delta: seq<real>)
    requires BackReady(layers) && 0 < k < |layers| && |delta| == layers[k].inSize
    ensures
      var upd := StepUpdate(sigma, layers, k, delta);
      var p' := layers[k - 1].(weights := upd.0);
      && SameExceptWeights(layers, layers[k - 1 := p'])
      && UpdatedBy(layers[k - 1], p', delta)
      && upd.1 == PassedDelta(sigma, layers[k - 1], delta)
  {
    var p := layers[k - 1];
    var upd := StepUpdate(sigma, layers, k, delta);
    assert WeightShape(p);
    assert |upd.1| == p.inSize;
    forall j | 0 <= j < p.inSize
      ensures upd.1[j] == PassedDelta(sigma, p, delta)[j]
    {
    }
  }

  /** After one step of the walk the chain is still ready, and the deltas further down are
      those of the original chain. */
  lemma StepKeepsChain(sigma: real -> real, layers: seq<Layer>, k: nat, delta: seq<real>)
    requires BackReady(layers) && 0 < k < |layers| && |delta| == layers[k].inSize
    ensures
      var upd := StepUpdate(sigma, layers, k, delta);
      var layers' := layers[k - 1 := layers[k - 1].(weights := upd.0)];
      && BackReady(layers')
      && |upd.1| == layers'[k - 1].inSize
      && DeltaChain(sigma, layers', k - 1, upd.1) + [delta] == DeltaChain(sigma, layers, k, delta)
  {
    var upd := StepUpdate(sigma, layers, k, delta);
    var layers' := layers[k - 1 := layers[k - 1].(weights := upd.0)];
    StepUpdateSound(sigma, layers, k, delta);
    assert SizesMatch(layers');
    assert BuffersSized(layers');
    assert Chained(layers');
    assert WeightShape(layers'[k - 1]);
    assert BackReady(layers');
    DeltaChainFrame(sigma, layers', layers, k - 1, upd.1);
  }

  /** The delta of the output layer: `(labels[i] - values[i]) * df(values[i])`. A neuron
      that already outputs its label gets no correction. */
  function OutputDelta(sigma: real -> real, t: Layer, labels: seq<real>): (d: seq<real>)
    requires |labels| >= t.inSize && |t.values| >= t.inSize
    ensures |d| == t.inSize
    ensures forall i :: 0 <= i < t.inSize && labels[i] == t.values[i] ==> d[i] == 0.0
  {
    seq(t.inSize, i requires 0 <= i < t.inSize => (labels[i] - t.values[i]) * Df(sigma, t.values[i]))
  }

  /** `CNN::back_propogate(labels)`: only weights change, the output layer's not at all, and
      every other layer's exactly once, by the delta the walk hands it. The labels are read
      without a length check, so they must cover the output layer. */
  function BackPropagate(sigma: real -> real, net: Network, labels: seq<real>): (r: Network)
    requires BackReady(net.layers)
    requires |labels| >= net.layers[|net.layers| - 1].inSize
    ensures SameExceptWeights(net.layers, r.layers) && BackReady(r.layers)
    ensures r.layers[|net.layers| - 1] == net.layers[|net.layers| - 1]
    ensures
      var t := |net.layers| - 1;
      var chain := DeltaChain(sigma, net.layers, t, OutputDelta(sigma, net.layers[t], labels));
      forall m :: 0 <= m < t ==> UpdatedBy(net.layers[m], r.layers[m], chain[m + 1])
  {
    var t := |net.layers| - 1;
    Network(BackFrom(sigma, net.layers, t, OutputDelta(sigma, net.layers[t], labels)))
  }

  /** The delta handed to a layer keeps only the last row's contribution: two deltas with the
      same last entry hand on the same delta, whatever their other entries. */
  lemma PassedDeltaUsesLastRowOnly(sigma: real -> real, p: Layer, d1: seq<real>, d2: seq<real>)
    requires WeightShape(p) && |d1| == |d2| == p.outSize > 0
    requires |p.values| >= p.inSize
    requires d1[|d1| - 1] == d2[|d2| - 1]
    ensures PassedDelta(sigma, p, d1) == PassedDelta(sigma, p, d2)
  {
    assert forall j :: 0 <= j < p.inSize ==>
      PassedDelta(sigma, p, d1)[j] == PassedDelta(sigma, p, d2)[j];
  }

  // ---------------------------------------------------------------------------
  // One training step.

  /** `after` is what `CNN::back_propogate(labels)` makes of `before`: only weights change,
      the output layer not at all, and every other layer once, by the delta the walk from
      the output delta hands it. */
  predicate Backpropagated(sigma: real -> real, before: Network, labels: seq<real>, after: Network)
  {
    && BackReady(before.layers)
    && |labels| >= before.layers[|before.layers| - 1].inSize
    && SameExceptWeights(before.layers, after.layers)
    && var t := |before.layers| - 1;
      && after.layers[t] == before.layers[t]
      && var chain := DeltaChain(sigma, before.layers, t, OutputDelta(sigma, before.layers[t], labels));
        forall m :: 0 <= m < t ==> UpdatedBy(before.layers[m], after.layers[m], chain[m + 1])
  }

  /** One iteration of the training loop: input, forward, backward. It fails exactly when the
      image cannot be dotted with the input layer's rows; otherwise the result is the
      backward pass applied to the forward pass of the image, and the network keeps its
      links, sizes and biases. */
  function Train(sigma: real -> real, net: Network, image: seq<real>, labels: seq<real>): (r: Result<Network>)
    requires WellFormed(net.layers)
    requires |labels| >= net.layers[|net.layers| - 1].inSize
    requires |net.layers| == 1 ==> |image| >= net.layers[0].inSize
    ensures r.Failure? <==> |net.layers| > 1 && net.layers[0].outSize > 0 && |image| != net.layers[0].inSize
    ensures r.Failure? ==> r.error == DimensionMismatch
    ensures r.Success? ==> WellFormed(r.value.layers) && SameFrame(net.layers, r.value.layers)
    ensures r.Success? ==>
      && Forward(sigma, Input(net, image)).Success?
      && Backpropagated(sigma, Forward(sigma, Input(net, image)).value, labels, r.value)
  {
    var fed := Input(net, image);
    var forward :- Forward(sigma, fed);
    ForwardIsBackReady(sigma, net, image);
    var back := BackPropagate(sigma, forward, labels);
    FrameKept(net.layers, forward.layers, back.layers);
    Success(back)
  }

  /** The two chains have the same links, sizes and biases: they differ at most in values
      and weights. */
  predicate SameFrame(a: seq<Layer>, b: seq<Layer>)
  {
    |a| == |b| && forall m :: 0 <= m < |a| ==>
      && b[m].biases == a[m].biases
      && b[m].prev == a[m].prev && b[m].next == a[m].next
      && b[m].inSize == a[m].inSize && b[m].outSize == a[m].outSize
  }

  /** Changing only values and then only weights keeps the frame. */
  lemma FrameKept(a: seq<Layer>, b: seq<Layer>, c: seq<Layer>)
    requires SameExceptValues(a, b) && SameExceptWeights(b, c)
    ensures SameFrame(a, c)
  {
    forall m | 0 <= m < |a|
      ensures c[m].biases == a[m].biases && c[m].prev == a[m].prev && c[m].next == a[m].next
      ensures c[m].inSize == a[m].inSize && c[m].outSize == a[m].outSize
    {
      assert b[m].(values := a[m].values) == a[m];
      assert c[m].(weights := b[m].weights) == b[m];
    }
  }

  /** After a successful forward pass every vector the backward pass reads is long enough. */
  lemma ForwardIsBackReady(sigma: real -> real, net: Network, image: seq<real>)
    requires WellFormed(net.layers)
    requires |net.layers| == 1 ==> |image| >= net.layers[0].inSize
    requires Forward(sigma, Input(net, image)).Success?
    ensures
      var out := Forward(sigma, Input(net, image)).value;
      && BackReady(out.layers)
      && SameExceptValues(net.layers, out.layers)
  {
    var out := Forward(sigma, Input(net, image)).value;
    assert out.layers[0].values == image;
    assert Readable(out.layers);
  }

}
