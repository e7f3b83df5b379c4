/** What CNN.cpp does with a trained network: turn the drawing grid into an image and
    classify it (`update`), and the training-and-evaluation run of `do_stuff`. */
module Inference {
  import opened Wrappers
  import opened VectorMath
  import opened Layers
  import opened Cnn
  import opened Idx
  import opened DrawingGrid

  /** Pixels of a 28 x 28 image. */
  const ImagePixels: nat := 784

  // ---------------------------------------------------------------------------
  // From the grid to an image.

  /** The image `update` builds: pixel 28 * y + x is grid cell (x, y), so the grid's columns
      become the image's columns and rows are stored one after another, as in the MNIST
      files. */
  function ImageOf(a: Grid): (image: seq<real>)
    requires |a| >= GridCells && forall x :: 0 <= x < GridCells ==> |a[x]| >= GridCells
    ensures |image| == ImagePixels
  {
    seq(ImagePixels, k requires 0 <= k < ImagePixels => a[k % GridCells][k / GridCells])
  }

  /** The two nested loops of `update` that copy the grid into `image`. */
  method ImageFromGrid(a: Grid) returns (image: seq<real>)
    requires |a| >= GridCells && forall x :: 0 <= x < GridCells ==> |a[x]| >= GridCells
    ensures |image| == ImagePixels
    ensures forall x, y :: 0 <= x < GridCells && 0 <= y < GridCells ==> image[GridCells * y + x] == a[x][y]
    ensures image == ImageOf(a)
  {
    image := Zeros(ImagePixels);
    var y := 0;
    while y < GridCells
      invariant 0 <= y <= GridCells && |image| == ImagePixels
      invariant forall i, j :: 0 <= i < GridCells && 0 <= j < y ==> image[GridCells * j + i] == a[i][j]
    {
      var x := 0;
      while x < GridCells
        invariant 0 <= x <= GridCells && |image| == ImagePixels
        invariant forall i, j :: 0 <= i < GridCells && 0 <= j < y ==> image[GridCells * j + i] == a[i][j]
        invariant forall i :: 0 <= i < x ==> image[GridCells * y + i] == a[i][y]
      {
        image := image[GridCells * y + x := a[x][y]];
        x := x + 1;
      }
      y := y + 1;
    }
    forall k | 0 <= k < ImagePixels
      ensures image[k] == ImageOf(a)[k]
    {
      assert k == GridCells * (k / GridCells) + k % GridCells;
    }
  }

  /** A drawing made only of painted and blank cells gives pixels in [0, 1], the range of the
      normalised training images. */
  lemma PaletteImageInUnitRange(a: Grid)
    requires |a| >= GridCells && forall x :: 0 <= x < GridCells ==> |a[x]| >= GridCells
    requires InPalette(a)
    ensures forall k :: 0 <= k < ImagePixels ==> 0.0 <= ImageOf(a)[k] <= 1.0
  {
    forall k | 0 <= k < ImagePixels
      ensures 0.0 <= ImageOf(a)[k] <= 1.0
    {
      assert ImageOf(a)[k] == a[k % GridCells][k / GridCells];
    }
  }

  /** After pressing C the network sees a blank image. */
  lemma ClearedGridGivesBlankImage(g: Grid)
    requires |g| >= GridCells && forall x :: 0 <= x < GridCells ==> |g[x]| >= GridCells
    ensures forall k :: 0 <= k < ImagePixels ==> ImageOf(Cleared(g))[k] == 0.0
  {
    forall k | 0 <= k < ImagePixels
      ensures ImageOf(Cleared(g))[k] == 0.0
    {
      assert ImageOf(Cleared(g))[k] == Cleared(g)[k % GridCells][k / GridCells];
    }
  }

  /** A click inside the drawing area lights the matching pixel of the image. */
  lemma PaintLightsPixel(g: Grid, gx: nat, gy: nat, erase: bool)
    requires Shaped(g) && gx < GridCells && gy < GridCells
    ensures ImageOf(Paint(g, gx, gy, erase))[GridCells * gy + gx] == Ink
  {
    var k := GridCells * gy + gx;
    assert k % GridCells == gx && k / GridCells == gy;
  }

  // ---------------------------------------------------------------------------
  // Reading the answer.

  /** v[i] is a largest entry and every entry before it is strictly smaller. */
  predicate FirstMax(v: seq<real>, i: nat)
  {
    i < |v| && (forall j :: 0 <= j < |v| ==> v[j] <= v[i]) && forall j :: 0 <= j < i ==> v[j] < v[i]
  }

  /** `std::max_element(v.begin(), v.end()) - v.begin()`: the position of the first largest
      entry, scanning left to right and moving only on a strictly larger one; 0 for an empty
      vector (`end() - begin()`). */
  function Argmax(v: seq<real>): (i: nat)
    ensures |v| == 0 ==> i == 0
    ensures |v| > 0 ==> FirstMax(v, i)
  {
    if |v| <= 1 then 0
    else
      var m := Argmax(v[..|v| - 1]);
      if v[m] < v[|v| - 1] then |v| - 1 else m
  }

  /** The first largest entry is unique, so `Argmax` is the only position that is one. */
  lemma FirstMaxUnique(v: seq<real>, i: nat)
    requires FirstMax(v, i)
    ensures i == Argmax(v)
  {
  }

  /** The answer read from a one-hot label is the label itself. */
  lemma ArgmaxOneHot(b: bv8)
    requires b as int < Classes
    ensures Argmax(OneHot(b)) == b as int
  {
    var v := OneHot(b);
    assert forall j :: 0 <= j < |v| ==> v[j] <= v[b as int];
    FirstMaxUnique(v, b as int);
  }

  // ---------------------------------------------------------------------------
  // Classifying one image.

  /** `dot` throws when the image is fed to the input layer: there is a next layer, the input
      layer has rows, and the image length differs from the input size. It is `DotThrows` of
      the input layer after `input(image)`, stated on the network and the image alone;
      `MismatchIsDotThrows` ties the two. */
  predicate Mismatch(net: Network, image: seq<real>)
  {
    |net.layers| > 1 && net.layers[0].outSize > 0 && |image| != net.layers[0].inSize
  }

  /** On a well-formed network, a mismatch is exactly `dot` throwing in the input layer once
      the image is its values. */
  lemma MismatchIsDotThrows(net: Network, image: seq<real>)
    requires WellFormed(net.layers)
    ensures Mismatch(net, image) <==> DotThrows(Input(net, image).layers[0])
  {
  }

  /** `input(image)`, `forward_propogate()`, and the position of the largest output. */
  function Predict(sigma: real -> real, net: Network, image: seq<real>): (r: Result<nat>)
    requires WellFormed(net.layers)
    ensures r.Failure? <==> Mismatch(net, image)
    ensures var f := Forward(sigma, Input(net, image));
      f.Success? ==>
        && r.Success?
        && (|Output(f.value)| > 0 ==> FirstMax(Output(f.value), r.value))
        && (|Output(f.value)| == 0 ==> r.value == 0)
    ensures r.Success? && |net.layers| > 1 && net.layers[|net.layers| - 1].inSize > 0 ==>
      r.value < net.layers[|net.layers| - 1].inSize
  {
    var fed := Input(net, image);
    var out :- Forward(sigma, fed);
    Success(Argmax(Output(out)))
  }

  /** Feeding an image to a network that already ran forward gives the same prediction as
      feeding it to the network before: the stale values of the previous image do not leak. */
  lemma PredictAfterForward(sigma: real -> real, net: Network, cur: Network, image: seq<real>)
    requires WellFormed(net.layers) && WellFormed(cur.layers)
    requires SameExceptValues(net.layers, cur.layers)
    ensures Forward(sigma, Input(cur, image)) == Forward(sigma, Input(net, image))
    ensures Predict(sigma, cur, image) == Predict(sigma, net, image)
  {
    ForwardIgnoresStaleValues(sigma, Input(cur, image), Input(net, image));
  }

  /** `update()`: the grid is copied into an image, fed to the network and propagated; the
      output drawn in the window is the output layer's values. Only values change. */
  method Update(sigma: real -> real, net: Network, grid: Grid) returns (r: Result<Network>)
    requires WellFormed(net.layers)
    requires |grid| >= GridCells && forall x :: 0 <= x < GridCells ==> |grid[x]| >= GridCells
    ensures r.Failure? <==> Mismatch(net, ImageOf(grid))
    ensures r.Success? ==> SameExceptValues(net.layers, r.value.layers) && WellFormed(r.value.layers)
    ensures r.Success? ==> r.value.layers[0].values == ImageOf(grid)
    ensures r.Success? ==> forall x, y :: 0 <= x < GridCells && 0 <= y < GridCells ==>
      r.value.layers[0].values[GridCells * y + x] == grid[x][y]
    ensures r.Success? ==> forall m :: 0 <= m < |net.layers| - 1 ==>
      Activated(sigma, r.value.layers[m], r.value.layers[m + 1])
    ensures r.Success? && |Output(r.value)| > 0 ==> Predict(sigma, net, ImageOf(grid)) == Success(Argmax(Output(r.value)))
  {
    var image := ImageFromGrid(grid);
    var fed := Input(net, image);
    r := Forward(sigma, fed);
  }

  // ---------------------------------------------------------------------------
  // The evaluation loop of do_stuff.

  /** The first and one-past-last index of the images the accuracy is measured on. */
  const TestFrom: nat := 20000
  const TestTo: nat := 21000
  const TestCount: nat := 1000

  /** Image i is classified as its label says. */
  predicate Hit(sigma: real -> real, net: Network, image: seq<real>, expected: seq<real>)
    requires WellFormed(net.layers)
  {
    Predict(sigma, net, image) == Success(Argmax(expected))
  }

  /** The indices in [lo, hi) that satisfy p. */
  function Matching(p: nat -> bool, lo: nat, hi: nat): set<nat>
  {
    set i: nat | lo <= i < hi && p(i)
  }

  /** Extending the range by one index adds one element exactly when that index matches. */
  lemma MatchingStep(p: nat -> bool, lo: nat, i: nat)
    requires lo <= i
    ensures |Matching(p, lo, i + 1)| == |Matching(p, lo, i)| + (if p(i) then 1 else 0)
  {
    if p(i) {
      assert Matching(p, lo, i + 1) == Matching(p, lo, i) + {i};
    } else {
      assert Matching(p, lo, i + 1) == Matching(p, lo, i);
    }
  }

  /** The hit test as a predicate on indices. */
  function HitAt(sigma: real -> real, net: Network, images: seq<seq<real>>, labels: seq<seq<real>>): nat -> bool
  {
    (i: nat) => WellFormed(net.layers) && i < |images| && i < |labels| && Hit(sigma, net, images[i], labels[i])
  }

  /** Test indices in [lo, hi) whose prediction matches the label's largest entry. */
  function Hits(sigma: real -> real, net: Network, images: seq<seq<real>>, labels: seq<seq<real>>, lo: nat, hi: nat): set<nat>
  {
    Matching(HitAt(sigma, net, images, labels), lo, hi)
  }

  /** One more index, `next` = i + 1, either is a hit or is not. */
  lemma HitsStep(sigma: real -> real, net: Network, images: seq<seq<real>>, labels: seq<seq<real>>, lo: nat, i: nat, next: nat)
    requires WellFormed(net.layers) && lo <= i < |images| && i < |labels| && next == i + 1
    ensures |Hits(sigma, net, images, labels, lo, next)| ==
      |Hits(sigma, net, images, labels, lo, i)| +
      (if Hit(sigma, net, images[i], labels[i]) then 1 else 0)
  {
    MatchingStep(HitAt(sigma, net, images, labels), lo, i);
  }

  /** At most hi - lo indices of [lo, hi) match. */
  lemma {:induction false} MatchingBounded(p: nat -> bool, lo: nat, hi: nat)
    requires lo <= hi
    decreases hi - lo
    ensures |Matching(p, lo, hi)| <= hi - lo
  {
    if hi > lo {
      MatchingBounded(p, lo, hi - 1);
      MatchingStep(p, lo, hi - 1);
    } else {
      assert Matching(p, lo, hi) == {};
    }
  }

  /** Some image with index in [lo, hi) mismatches the input layer. */
  function MismatchIn(net: Network, images: seq<seq<real>>, lo: nat, hi: nat): bool
    requires hi <= |images|
  {
    if hi <= lo then false else MismatchIn(net, images, lo, hi - 1) || Mismatch(net, images[hi - 1])
  }

  /** `MismatchIn` holds exactly when a mismatching image exists in the range. */
  lemma {:induction false} MismatchInExists(net: Network, images: seq<seq<real>>, lo: nat, hi: nat)
    requires hi <= |images|
    ensures MismatchIn(net, images, lo, hi) <==> exists i :: lo <= i < hi && Mismatch(net, images[i])
  {
    if hi > lo {
      MismatchInExists(net, images, lo, hi - 1);
      if Mismatch(net, images[hi - 1]) {
        assert lo <= hi - 1 < hi;
      }
    }
  }

  /** One more index, `next` = i + 1, mismatches or does not. */
  lemma MismatchInStep(net: Network, images: seq<seq<real>>, lo: nat, i: nat, next: nat)
    requires lo <= i < |images| && next == i + 1
    ensures MismatchIn(net, images, lo, next) <==> MismatchIn(net, images, lo, i) || Mismatch(net, images[i])
  {
  }

  /** A mismatch found in a range stays found when the range grows. */
  lemma {:induction false} MismatchInGrows(net: Network, images: seq<seq<real>>, lo: nat, i: nat, hi: nat)
    requires i <= hi <= |images| && MismatchIn(net, images, lo, i)
    decreases hi - i
    ensures MismatchIn(net, images, lo, hi)
  {
    if i < hi {
      MismatchInGrows(net, images, lo, i, hi - 1);
    }
  }

  /** One iteration of the evaluation loop on a network that already ran forward: `input`,
      `forward_propogate`, and the comparison of the two `max_element` positions. It fails
      exactly on a mismatching image, keeps everything but the values, and reports a hit
      exactly when the network before the loop would classify the image correctly. */
  method EvaluateOne(sigma: real -> real, net: Network, cur: Network, image: seq<real>, expected: seq<real>)
    returns (r: Result<(Network, bool)>)
    requires Reused(net, cur)
    ensures r.Failure? <==> Mismatch(net, image)
    ensures r.Success? ==> Reused(net, r.value.0)
    ensures r.Success? ==> (r.value.1 <==> Hit(sigma, net, image, expected))
  {
    PredictAfterForward(sigma, net, cur, image);
    var step := Forward(sigma, Input(cur, image));
    if step.Failure? {
      return Failure(step.error);
    }
    var guess := Argmax(Output(step.value));
    var actual := Argmax(expected);
    r := Success((step.value, guess == actual));
  }

  /** `cur` is `net` after some forward passes: same shape, only values differ. */
  predicate Reused(net: Network, cur: Network)
  {
    WellFormed(net.layers) && WellFormed(cur.layers) && SameExceptValues(net.layers, cur.layers)
  }

  /** The loop over images 20000 to 20999: each is fed forward through the same network and
      counted when its prediction equals the label's. It fails at the first image the input
      layer cannot take; otherwise the count is the number of hits. */
  method Evaluate(sigma: real -> real, net: Network, images: seq<seq<real>>, labels: seq<seq<real>>)
    returns (r: Result<nat>)
    requires WellFormed(net.layers) && TestTo <= |images| && TestTo <= |labels|
    ensures r.Failure? <==> MismatchIn(net, images, TestFrom, TestTo)
    ensures r.Success? ==> r.value == |Hits(sigma, net, images, labels, TestFrom, TestTo)|
    ensures r.Success? ==> r.value <= TestCount
  {
    var cur := net;
    var correct := 0;
    var i := TestFrom;
    while i < TestTo
      invariant TestFrom <= i <= TestTo
      invariant Reused(net, cur)
      invariant !MismatchIn(net, images, TestFrom, i)
      invariant correct == |Hits(sigma, net, images, labels, TestFrom, i)|
    {
      var step := EvaluateOne(sigma, net, cur, images[i], labels[i]);
      ghost var done := i;
      i := i + 1;
      MismatchInStep(net, images, TestFrom, done, i);
      if step.Failure? {
        MismatchInGrows(net, images, TestFrom, i, TestTo);
        return Failure(step.error);
      }
      HitsStep(sigma, net, images, labels, TestFrom, done, i);
      cur := step.value.0;
      if step.value.1 {
        correct := correct + 1;
      }
    }
    MatchingBounded(HitAt(sigma, net, images, labels), TestFrom, TestTo);
    r := Success(correct);
  }

  /** `correct / 1000.0f`. */
  function Accuracy(correct: nat): (a: real)
    requires correct <= TestCount
    ensures 0.0 <= a <= 1.0
    ensures a == 1.0 <==> correct == TestCount
  {
    correct as real / TestCount as real
  }

  // ---------------------------------------------------------------------------
  // The training run of do_stuff.

  /** Images per training pass and the number of passes. */
  const TrainCount: nat := 3000
  const Passes: nat := 3

  /** The chain of three layers of 784, 300 and 10 neurons that `do_stuff` assembles, well
      formed. The output layer's `out_size` of 10 is never used: it has no next layer. */
  predicate DigitNetwork(net: Network)
  {
    WellFormed(net.layers) && DigitSizes(net.layers)
  }

  /** The sizes of the three layers of the digit network. */
  predicate DigitSizes(layers: seq<Layer>)
  {
    && |layers| == 3
    && layers[0].inSize == ImagePixels && layers[0].outSize == 300
    && layers[1].inSize == 300 && layers[1].outSize == Classes
    && layers[2].inSize == Classes && layers[2].outSize == Classes
  }

  /** The digit network as `init()` leaves it: weights drawn from [-1, 1], the output layer's
      matrix still empty (it has no next layer), and the values and biases still the zeros of
      the constructors, 784 of them in the input layer. */
  predicate FreshDigitNetwork(net: Network)
  {
    DigitNetwork(net) && InitState(net.layers)
  }

  /** What the constructors and `init()` leave in the three layers: weights in [-1, 1], an
      empty output matrix, 784 input values, and zero values and biases. */
  predicate InitState(layers: seq<Layer>)
  {
    && |layers| == 3
    && (forall m :: 0 <= m < |layers| ==> WeightsInRange(layers[m]))
    && (forall m, k :: 0 <= m < |layers| && 0 <= k < |layers[m].values| ==> layers[m].values[k] == 0.0)
    && (forall m, k :: 0 <= m < |layers| && 0 <= k < |layers[m].biases| ==> layers[m].biases[k] == 0.0)
    && |layers[0].values| == ImagePixels
    && layers[2].weights == []
  }

  /** The three `make_shared<Layer>` calls and the three `add`s, followed by `init()`. */
  method Assemble() returns (net: Network)
    ensures DigitNetwork(net)
    ensures forall m :: 0 <= m < 2 ==> WeightsInRange(net.layers[m])
    ensures FreshDigitNetwork(net)
  {
    var ls := [NewLayer(ImagePixels, 300), NewLayer(300, Classes), NewLayer(Classes, Classes)];
    BuildIsChained(ls);
    var built := Build(ls);
    assert Assembled(built.layers);
    assert forall m :: 0 <= m < 3 ==> built.layers[m].values == ls[m].values && built.layers[m].biases == ls[m].biases;
    net := Init(built);
    assert forall m :: 0 <= m < 3 ==> net.layers[m].values == built.layers[m].values && net.layers[m].biases == built.layers[m].biases;
  }

  /** In a file of same-sized images, some image of a non-empty range mismatches exactly when
      the first does. */
  lemma UniformMismatch(net: Network, images: seq<seq<real>>, size: nat, lo: nat, hi: nat)
    requires forall i :: 0 <= i < |images| ==> |images[i]| == size
    requires lo < hi <= |images|
    ensures MismatchIn(net, images, lo, hi) <==> Mismatch(net, images[lo])
  {
    MismatchInExists(net, images, lo, hi);
  }

  /** A training step on the digit network fails exactly on an image that is not 784 pixels
      long, which is when the untrained network mismatches it too; otherwise the network
      keeps its shape. */
  lemma TrainKeepsDigitNetwork(sigma: real -> real, net: Network, cur: Network, image: seq<real>, expected: seq<real>)
    requires DigitNetwork(net) && DigitNetwork(cur) && |expected| == Classes
    ensures Train(sigma, cur, image, expected).Failure? <==> Mismatch(net, image)
    ensures Train(sigma, cur, image, expected).Success? ==> DigitNetwork(Train(sigma, cur, image, expected).value)
  {
    var r := Train(sigma, cur, image, expected);
    if r.Success? {
      assert SameFrame(cur.layers, r.value.layers);
      assert r.value.layers[0].inSize == cur.layers[0].inSize;
      assert r.value.layers[1].inSize == cur.layers[1].inSize;
      assert r.value.layers[2].inSize == cur.layers[2].inSize;
    }
  }

  /** Whether an image mismatches depends only on the input layer's sizes and the number of
      layers, so two networks of the same shape find the same mismatches. */
  lemma {:induction false} MismatchInSameShape(a: Network, b: Network, images: seq<seq<real>>, lo: nat, hi: nat)
    requires hi <= |images| && |a.layers| == |b.layers| > 0
    requires a.layers[0].inSize == b.layers[0].inSize && a.layers[0].outSize == b.layers[0].outSize
    ensures MismatchIn(a, images, lo, hi) == MismatchIn(b, images, lo, hi)
  {
    if hi > lo {
      MismatchInSameShape(a, b, images, lo, hi - 1);
    }
  }

  /** A range mismatches when its first image does or the rest of it does. */
  lemma MismatchInFront(net: Network, images: seq<seq<real>>, lo: nat, hi: nat)
    requires lo < hi <= |images|
    ensures MismatchIn(net, images, lo, hi) <==> Mismatch(net, images[lo]) || MismatchIn(net, images, lo + 1, hi)
  {
    MismatchInExists(net, images, lo, hi);
    MismatchInExists(net, images, lo + 1, hi);
  }

  /** The reference for a training loop: `Train` applied to images and labels `from` .. n-1
      in order, starting from `net` and stopping at the first failure. */
  function TrainRun(sigma: real -> real, net: Network, images: seq<seq<real>>, labels: seq<seq<real>>, from: nat, n: nat)
    : (r: Result<Network>)
    requires DigitNetwork(net) && from <= n <= |images| && n <= |labels|
    requires forall i :: from <= i < n ==> |labels[i]| == Classes
    decreases n - from
    ensures r.Failure? <==> MismatchIn(net, images, from, n)
    ensures r.Failure? ==> r.error == DimensionMismatch
    ensures r.Success? ==> DigitNetwork(r.value)
  {
    if from == n then Success(net)
    else
      TrainRunStep(sigma, net, images, labels, from, n);
      var next :- Train(sigma, net, images[from], labels[from]);
      TrainRun(sigma, next, images, labels, from + 1, n)
  }

  /** One step of `TrainRun`: the step fails exactly on a mismatching first image, and
      otherwise leaves a digit network that finds the same mismatches in the rest. */
  lemma TrainRunStep(sigma: real -> real, net: Network, images: seq<seq<real>>, labels: seq<seq<real>>, from: nat, n: nat)
    requires DigitNetwork(net) && from < n <= |images| && n <= |labels| && |labels[from]| == Classes
    ensures var t := Train(sigma, net, images[from], labels[from]);
      && (t.Failure? ==> t.error == DimensionMismatch && MismatchIn(net, images, from, n))
      && (t.Success? ==> DigitNetwork(t.value) && MismatchIn(net, images, from, n) == MismatchIn(t.value, images, from + 1, n))
  {
    TrainKeepsDigitNetwork(sigma, net, net, images[from], labels[from]);
    MismatchInFront(net, images, from, n);
    var t := Train(sigma, net, images[from], labels[from]);
    if t.Success? {
      MismatchInSameShape(net, t.value, images, from + 1, n);
    }
  }

  /** The reference for the training phase: `p` passes of `TrainRun` over the first 3000
      images, each starting from the network the previous one left. */
  function TrainPasses(sigma: real -> real, net: Network, images: seq<seq<real>>, labels: seq<seq<real>>, p: nat)
    : (r: Result<Network>)
    requires DigitNetwork(net) && TrainCount <= |images| && TrainCount <= |labels|
    requires forall i :: 0 <= i < TrainCount ==> |labels[i]| == Classes
    decreases p
    ensures r.Success? ==> DigitNetwork(r.value)
    ensures r.Failure? <==> p > 0 && MismatchIn(net, images, 0, TrainCount)
    ensures r.Failure? ==> r.error == DimensionMismatch
  {
    if p == 0 then Success(net)
    else
      var after :- TrainRun(sigma, net, images, labels, 0, TrainCount);
      MismatchInSameShape(net, after, images, 0, TrainCount);
      TrainPasses(sigma, after, images, labels, OneFewer(p))
  }

  /** `p - 1`, the passes still to make after one more. This is a proof device, not part of
      the model: naming the step makes the count a loop keeps and the count `TrainPasses`
      recurses on the same term, which the solver matches at once, where `p - 1` written
      twice leaves it an arithmetic equality to discover. */
  function OneFewer(p: nat): (q: nat)
    requires 0 < p
    ensures q < p
  {
    p - 1
  }

  /** A first pass that succeeds leaves the remaining passes to the network it made. */
  lemma TrainPassesFront(sigma: real -> real, net: Network, images: seq<seq<real>>, labels: seq<seq<real>>, p: nat)
    requires DigitNetwork(net) && TrainCount <= |images| && TrainCount <= |labels|
    requires forall i :: 0 <= i < TrainCount ==> |labels[i]| == Classes
    requires 0 < p
    ensures var first := TrainRun(sigma, net, images, labels, 0, TrainCount);
      first.Success? ==> TrainPasses(sigma, net, images, labels, p) == TrainPasses(sigma, first.value, images, labels, OneFewer(p))
  {
  }

  /** One of the `for (int i = 0; i < 3000; i++)` loops: `input->values = images[i]`, then a
      forward and a backward pass. It fails at the first image of the wrong length; otherwise
      the result is the reference run over the 3000 images. */
  method TrainPass(sigma: real -> real, net: Network, images: seq<seq<real>>, labels: seq<seq<real>>)
    returns (r: Result<Network>)
    requires DigitNetwork(net) && TrainCount <= |images| && TrainCount <= |labels|
    requires forall i :: 0 <= i < TrainCount ==> |labels[i]| == Classes
    ensures r.Failure? <==> MismatchIn(net, images, 0, TrainCount)
    ensures r.Success? ==> DigitNetwork(r.value)
    ensures r == TrainRun(sigma, net, images, labels, 0, TrainCount)
  {
    var cur := net;
    var i := 0;
    while i < TrainCount
      invariant 0 <= i <= TrainCount && DigitNetwork(cur)
      invariant TrainRun(sigma, cur, images, labels, i, TrainCount) == TrainRun(sigma, net, images, labels, 0, TrainCount)
    {
      TrainKeepsDigitNetwork(sigma, cur, cur, images[i], labels[i]);
      var step := Train(sigma, cur, images[i], labels[i]);
      if step.Failure? {
        return Failure(step.error);
      }
      cur := step.value;
      i := i + 1;
    }
    r := Success(cur);
  }

  /** What `do_stuff` reports: the trained network, the number of correct test predictions
      and the accuracy printed. */
  datatype Report = Report(net: Network, correct: nat, accuracy: real)

  /** `do_stuff`: read both files, assemble and initialise the network, train three passes
      over the first 3000 images, and measure the accuracy on images 20000 to 20999. The
      files must hold at least 21000 entries and valid label bytes; the run fails exactly when
      an image does not have 784 pixels. The network it reports is what three reference
      passes make of a network as `init()` leaves it. */
  method DoStuff(sigma: real -> real, imageFile: seq<bv8>, labelFile: seq<bv8>) returns (r: Result<Report>)
    requires HeaderWord(imageFile, 4) >= TestTo && HeaderWord(labelFile, 4) >= TestTo
    requires LabelBytesInRange(labelFile, LabelHeaderSize, HeaderWord(labelFile, 4))
    ensures r.Failure? <==> PixelsPerImage(HeaderWord(imageFile, 8), HeaderWord(imageFile, 12)) != ImagePixels
    ensures r.Success? ==> DigitNetwork(r.value.net)
    ensures r.Success? ==> exists start: Network ::
      && FreshDigitNetwork(start)
      && TrainPasses(sigma, start, ReadImages(imageFile).value, ReadLabels(labelFile).value, Passes) == Success(r.value.net)
    ensures r.Success? ==> r.value.correct == |Hits(sigma, r.value.net, ReadImages(imageFile).value, ReadLabels(labelFile).value, TestFrom, TestTo)|
    ensures r.Success? ==> r.value.correct <= TestCount && r.value.accuracy == Accuracy(r.value.correct)
  {
    var images := ReadImages(imageFile).value;
    var labels := ReadLabels(labelFile).value;
    var size := PixelsPerImage(HeaderWord(imageFile, 8), HeaderWord(imageFile, 12));
    var start := Assemble();
    var net :- TrainPhase(sigma, start, images, labels, size, Passes);
    UniformMismatch(net, images, size, TestFrom, TestTo);
    var evaluated := Evaluate(sigma, net, images, labels);
    // The images that trained without a mismatch have the same size as the test images.
    assert evaluated.Success?;
    r := Success(Report(net, evaluated.value, Accuracy(evaluated.value)));
  }

  /** The training passes of `do_stuff` (three of them, `passes == Passes`) on a file of
      images of `size` pixels: they fail exactly when there is a pass and the size is not
      784, and otherwise give the reference result. */
  method TrainPhase(sigma: real -> real, start: Network, images: seq<seq<real>>, labels: seq<seq<real>>, size: nat, passes: nat)
    returns (r: Result<Network>)
    requires DigitNetwork(start) && TrainCount <= |images| && TrainCount <= |labels|
    requires forall i :: 0 <= i < |images| ==> |images[i]| == size
    requires forall i :: 0 <= i < TrainCount ==> |labels[i]| == Classes
    ensures r.Failure? <==> passes > 0 && size != ImagePixels
    ensures r.Success? ==> DigitNetwork(r.value)
    ensures r == TrainPasses(sigma, start, images, labels, passes)
  {
    var net := start;
    UniformMismatch(start, images, size, 0, TrainCount);
    ghost var whole := TrainPasses(sigma, start, images, labels, passes);
    ghost var left := passes;
    var pass := 0;
    while pass < passes
      invariant 0 <= pass <= passes && left == passes - pass && DigitNetwork(net)
      invariant MismatchIn(net, images, 0, TrainCount) <==> size != ImagePixels
      invariant TrainPasses(sigma, net, images, labels, left) == whole
    {
      var trained := TrainPass(sigma, net, images, labels);
      if trained.Failure? {
        return trained;
      }
      TrainPassesFront(sigma, net, images, labels, left);
      net := trained.value;
      UniformMismatch(net, images, size, 0, TrainCount);
      pass, left := pass + 1, OneFewer(left);
    }
    r := Success(net);
  }
}
