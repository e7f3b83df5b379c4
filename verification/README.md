# A verified model of a tiny MNIST perceptron

The program is a small fully connected network for hand-written digits, with a Win32 window
for drawing them. It has two source files:

- CNN.cpp holds the network: a chain of `Layer`s inside a `CNN`. It also holds
  - the vector helpers `dot`, `cost`, `sum` and `df`;
  - the IDX loaders for the MNIST files;
  - `update()`, which classifies the drawing;
  - `do_stuff()`, which trains a network of three layers of 784, 300 and 10 neurons (784 -> 300 -> 10)
    on 3000 images three times
    and measures its accuracy on images 20000 to 20999.
- Window.h holds the 28 x 28 drawing grid. It is painted with the mouse and cleared with the
  C key.

The Dafny modules follow that structure:

| module | file | models |
|---|---|---|
| `Wrappers` | wrappers.dfy | `Option` and `Result`; the error kinds `DimensionMismatch` (what `dot` throws) and `LengthError` (what `std::vector` throws for a negative size) |
| `VectorMath` | vector_math.dfy | `dot`, `cost`, `sum`, `df` and `df(y, i)`; `std::accumulate` and `std::inner_product` as left folds, proved equal to reference sums |
| `Layers` | layer.dfy | `class Layer`: the constructor, `init_weights`, `add_tail`, and the loop bodies of `forward_propogate` and `back_propogate` |
| `Cnn` | cnn.dfy | `class CNN`: `add`, `head`, `tail`, `init`, `input`, `get_output`, and the forward and backward walks along the layer chain |
| `Idx` | idx.dfy | `reverseInt`, `read_images` and `read_labels` over the file's bytes; encoders that the decoders are proved to invert |
| `DrawingGrid` | grid.dfy | Window.h's grid, `handle_mouse` and the C-key clear |
| `Inference` | inference.dfy | `update()` and `do_stuff()` |

How the source's concepts are represented:

- **Numbers.** They are exact `real`s, not `float`s.
- **The activation.** The sigmoid is a parameter `sigma: real -> real`. Its derivative is
  `Df(sigma, x) = sigma(x) * (1 - sigma(x))`. Like `df` in the code, it applies `sigma` again
  to a value that has already been activated.
- **The layer chain.** A network is a sequence of layers. The `prev`/`next` pointers become
  positions in that sequence. `Cnn.Chained` states that the links agree with the positions.
  `Cnn.WellFormed` adds that sizes match and weight matrices have their shape.
- **Failures.** A `throw` becomes a `Result` failure. The forward and backward passes walk
  the chain by following the links, as the member functions do, and recurse along them.
- **Weight initialisation.** `std::uniform_real_distribution(-1, 1)` becomes an arbitrary
  choice of a value in [-1, 1].
- **Files.** A file is a `seq<bv8>`. A read past its end yields 0, because the variable read
  into is zero-initialised and `ifstream::read` stores nothing at end of file. The header
  words are loaded little-endian (an x86 host) and then byte-swapped by `reverseInt`.

## Quirks of the code

The model follows the code in each of these places, and a lemma states each one.

- **The backward delta.** `Layer::back_propogate` assigns `prev_delta[j]` inside the row
  loop (CNN.cpp:159), so only the last row's term survives. That term is computed with the
  already updated weight. `Layers.LastRowDelta` states this, and
  `Cnn.PassedDeltaUsesLastRowOnly` proves its consequence.
- **Unchecked lengths.** `input` (CNN.cpp:190-192) replaces the values without looking at
  their length, and `CNN::back_propogate` (CNN.cpp:177-184) indexes the labels without a
  check. The only failure is the `dot` of the next forward pass. So `Cnn.Input` cannot fail,
  `Cnn.BackPropagate` requires labels long enough, and the failure surfaces in `Cnn.Forward`.
- **Malformed files.** `read_images` and `read_labels` never check the magic number
  (CNN.cpp:234-235 and CNN.cpp:275-276), and a read past the end of the file leaves the zero the variable was
  initialised with (CNN.cpp:250-251). `Idx.MagicNumberIgnored`,
  `Idx.LabelMagicNumberIgnored` and `Idx.TruncationReadsAsZeros` state this.
- **Biases.** Nothing ever writes a bias after the constructor (CNN.cpp:93-96). `Cnn.Train`
  keeps them, and they are part of `Cnn.SameFrame`.
- **Erasing.** The right button passes an `erase` flag that `handle_mouse` ignores
  (Window.h:49-63). `DrawingGrid.EraseIsIgnored` states this.
- **The brush clamp.** `handle_mouse` clamps the right and bottom neighbours to column and
  row 27 rather than to the centre cell (Window.h:54-56). So a stroke right of the drawing
  area still half-inks column 27 (`DrawingGrid.StrokeBeyondGridMarksLastColumn`). The window
  can be resized (Window.h:209), and a click at y >= 498 in an enlarged window lands below
  row 27, yet still half-inks row 27 (`DrawingGrid.PointBelowGridMarksLastRow`).

## Model

| member | source | states |
|---|---|---|
| VectorMath.AccumulateIsSum | CNN.cpp:75-77 | the left fold of `std::accumulate` from `init` equals `init` plus the reference sum of the vector |
| VectorMath.InnerProductIsSumProducts | CNN.cpp:45-49 | the left fold of `std::inner_product` from `init` equals `init` plus the reference sum of pairwise products |
| VectorMath.Dot | CNN.cpp:45-49 | `dot` fails with `DimensionMismatch` exactly when the lengths differ; otherwise it is the sum of pairwise products |
| VectorMath.Cost | CNN.cpp:51-62 | `cost` fails exactly on a length mismatch; otherwise it is the sum of squared differences, never negative, and zero for equal vectors |
| VectorMath.Sum | CNN.cpp:75-77 | `sum` is the reference sum of the vector |
| VectorMath.Df | CNN.cpp:31-33 | `df(x)` is `sigmoid(x) * (1 - sigmoid(x))`; whenever the activation's value lies in [0, 1] the derivative lies in [0, 1/4] |
| VectorMath.LogisticSlopeBound | CNN.cpp:31-33 | s * (1 - s) is at most 1/4, and at least 0 for s in [0, 1] |
| VectorMath.DfAt | CNN.cpp:35-39 | `df(y, i)` has the length of y, holds the derivative at index i and zero everywhere else |
| VectorMath.SumOfDfAt | CNN.cpp:35-39 | summing `df(y, i)` gives back the single derivative it carries |
| VectorMath.SquaredErrorNonNegative | CNN.cpp:57-61 | the sum of squared differences is non-negative, and zero when the vectors are equal |
| VectorMath.SumOfNonNegative | CNN.cpp:61 | a sum of non-negative entries is non-negative |
| VectorMath.SumOfSingleton | CNN.cpp:35-39 | a vector that is zero except at one index sums to the entry at that index |
| VectorMath.SumProductsZeroLeft | CNN.cpp:48 | a dot product with an all-zero row is zero |
| Layers.NewLayer | CNN.cpp:93-96 | a new layer is unlinked, has values and biases of `in_size` zeros, and no weights |
| Layers.InitWeights | CNN.cpp:98-115 | with no next layer nothing changes; otherwise the matrix gets `out_size` rows of `in_size` entries, each in [-1, 1], and nothing but the weights changes |
| Layers.AddTail | CNN.cpp:129-132 | `self` points forward to the new layer, which points back to `self`; nothing else in either changes |
| Layers.FillNext | CNN.cpp:138-142 | the loop fails exactly when some row from i on differs in length from the values; otherwise entry k of the next layer is `activation(dot(row k, values) + bias k)` for the rows run, and every other entry is untouched |
| Layers.BackRows | CNN.cpp:153-161 | rows i..n-1 of the previous layer's weights each grow by `0.1 * delta[k] * values[j]` and the other rows are kept; the delta handed back is the last row's, or the starting one when no row runs |
| Layers.BackRowsStep | CNN.cpp:156-160 | updating one row, then rows i+1..n-1, is the same as updating rows i..n-1 |
| Cnn.Head | CNN.cpp:211 | `head()` is null exactly for an empty network; in a chained network the head has no predecessor |
| Cnn.Tail | CNN.cpp:213 | `tail()` is null exactly for an empty network; in a chained network the tail has no successor |
| Cnn.Add | CNN.cpp:204-207 | `add` appends the layer and makes it the tail; when there was a tail, that tail links forward to the new layer, which links back to it; no other layer changes |
| Cnn.AddKeepsChained | CNN.cpp:204-207 | adding an unlinked layer to a chained network keeps every link pointing at the neighbour by position |
| Cnn.BuildIsChained | CNN.cpp:337-340 | any sequence of `add`s of new layers yields a chained network holding those layers in order, with only their links set |
| Cnn.Init | CNN.cpp:186-188 | `init` changes only weights; the output layer keeps its matrix, every other layer gets a shaped matrix with entries in [-1, 1], and an assembled chain becomes well formed |
| Cnn.Input | CNN.cpp:190-192 | `input` replaces the head's values with the vector, without a length check; nothing else changes, and well-formedness is kept |
| Cnn.Output | CNN.cpp:200-202 | plain definition of `get_output()`, the output layer's values; in a well-formed chain of more than one layer it has one entry per output neuron |
| Cnn.ForwardFrom | CNN.cpp:134-145 | the walk from layer k fails exactly when layer k's `dot` throws; otherwise only values change, layers up to k are kept, and each later layer holds the activations of its predecessor |
| Cnn.ForwardStep | CNN.cpp:138-144 | after one layer fills the next, the chain is still well formed, only that layer's values changed, they are the activations, and the next `dot` cannot throw |
| Cnn.Forward | CNN.cpp:173-175 | `forward_propogate` fails exactly when the input values have the wrong length and there are rows to dot; otherwise only values change, the input layer is kept, and every layer after it holds the activations of its predecessor |
| Cnn.ForwardIgnoresStaleValues | CNN.cpp:134-145 | two networks that differ only in values, but share the input values, give the same forward result: old activations never leak |
| Cnn.ActivationsDetermined | CNN.cpp:138-142 | a layer whose values are all written from its predecessor is determined by that predecessor |
| Cnn.ZeroNetworkGivesActivationOfZero | CNN.cpp:138-142 | with all weights and biases zero, every neuron after the input holds `activation(0)`, whatever the input |
| Cnn.DeltaChain | CNN.cpp:147-166 | the walk from layer k produces one delta per layer 0..k, each as long as its layer, ending with the starting delta |
| Cnn.DeltaChainFrame | CNN.cpp:147-166 | the deltas below layer k depend only on the layers below k |
| Cnn.BackFrom | CNN.cpp:147-166 | `back_propogate` from layer k changes only weights, only those of layers before k, each once by the delta of the layer after it, and the chain stays ready |
| Cnn.SameExceptWeightsTransitive | CNN.cpp:147-166 | two passes that change only weights together change only weights |
| Cnn.UpdatesCombine | CNN.cpp:147-166 | the step's update of layer k-1 and the walk's updates of the layers below it are together the updates by the whole delta chain |
| Cnn.StepUpdate | CNN.cpp:150-161 | plain definition of one step of the walk; the updated matrix has one row per neuron of layer k and the handed-on delta one entry per neuron of layer k-1; `Cnn.StepUpdateSound` states what they hold |
| Cnn.StepUpdateSound | CNN.cpp:150-161 | one step updates every row of layer k-1 by the delta and hands on exactly the chain's delta for layer k-1 |
| Cnn.StepKeepsChain | CNN.cpp:147-166 | after one step the chain is still ready, and the remaining deltas are those computed from the original weights |
| Cnn.OutputDelta | CNN.cpp:178-181 | the output delta has one entry per output neuron, and is zero for a neuron whose value already equals its label |
| Cnn.BackPropagate | CNN.cpp:177-184 | `CNN::back_propogate` changes only weights, never the output layer's, and updates every other layer once by the delta the walk hands it |
| Cnn.PassedDeltaUsesLastRowOnly | CNN.cpp:156-160 | two deltas with the same last entry hand back the same delta: only the last row counts |
| Cnn.Train | CNN.cpp:345-350 | one training step fails, with `DimensionMismatch`, exactly when the image cannot be dotted with the input layer's rows; otherwise the forward pass succeeds and the result is that network after `back_propogate`: only weights change, the output layer's not at all, every other layer's once by the delta the walk from the output delta hands it, and links, sizes and biases are kept |
| Cnn.FrameKept | CNN.cpp:346-349 | a forward pass followed by a backward pass keeps links, sizes and biases |
| Cnn.ForwardIsBackReady | CNN.cpp:348-349 | after a successful forward pass every vector the backward pass reads is long enough |
| Idx.BytesDetermineWord | CNN.cpp:216-225 | a 32-bit word is determined by its four bytes |
| Idx.LoadWord | CNN.cpp:234 | a 4-byte read on a little-endian host puts the byte at offset p + k into byte k of the word |
| Idx.ReverseInt | CNN.cpp:216-225 | `reverseInt` moves byte k of its argument to byte 3 - k |
| Idx.ReverseIntInvolution | CNN.cpp:216-225 | swapping the bytes twice gives back the word |
| Idx.HeaderWordIsBigEndian | CNN.cpp:234-241 | a header field read and swapped is the big-endian signed value of the four file bytes |
| Idx.Normalize | CNN.cpp:253 | a pixel byte divided by 255 lies in [0, 1] |
| Idx.NormalizeInjective | CNN.cpp:253 | distinct pixel bytes give distinct intensities |
| Idx.PixelsOfNonNegativeShape | CNN.cpp:248-249 | for non-negative dimensions the row and column loops read rows * cols pixels |
| Idx.ReadImageBlocks | CNN.cpp:247-261 | `count` images of `size` pixels, pixel k of image i being the normalised byte at `pos + i * size + k` |
| Idx.ReadImages | CNN.cpp:226-267 | `read_images` fails exactly for a negative count; otherwise it yields `count` images of rows * cols pixels, each the normalised byte at `16 + i * size + k` |
| Idx.OneHot | CNN.cpp:283-288 | a label vector has 10 entries, 1.0 at the label and 0.0 elsewhere |
| Idx.ReadLabelBytes | CNN.cpp:282-289 | label i is the one-hot vector of the byte at `pos + i` |
| Idx.ReadLabels | CNN.cpp:269-295 | `read_labels` fails exactly for a negative count; otherwise it yields `count` one-hot vectors, one per byte after the 8-byte header |
| Idx.ImageBlocksDependOnBytes | CNN.cpp:247-261 | the images read from `pos` depend only on the bytes from `pos` on |
| Idx.LabelBytesDependOnBytes | CNN.cpp:282-289 | the labels read from `pos` depend only on the bytes from `pos` on |
| Idx.MagicNumberIgnored | CNN.cpp:234-235 | image files that differ only in the magic number decode to the same images |
| Idx.LabelMagicNumberIgnored | CNN.cpp:275-276 | label files that differ only in the magic number decode to the same labels |
| Idx.TruncationReadsAsZeros | CNN.cpp:250-251 | a short file decodes exactly like the same file padded with zero bytes |
| Idx.DigitsOf | CNN.cpp:216-225 | a number below 2^31 splits into four base-256 digits that recompose it |
| Idx.EncodeWord | CNN.cpp:216-225 | the four bytes written for n read back, big-endian, as n |
| Idx.HeaderWordOfEncoded | CNN.cpp:234-241 | a header field written with `EncodeWord` anywhere in a file is read back as the number |
| Idx.FlattenLength | CNN.cpp:247-261 | concatenating images of `size` bytes gives count * size bytes |
| Idx.FlattenIndex | CNN.cpp:247-261 | byte k of image i sits at i * size + k of the concatenation |
| Idx.ImageHeader | CNN.cpp:229-241 | the 16-byte image header holds the count, rows and columns at offsets 4, 8 and 12 |
| Idx.EncodedImageHeader | CNN.cpp:236-241 | the header of an encoded image file reads back as the count, rows and columns |
| Idx.PixelsAfterHeader | CNN.cpp:247-261 | after a 16-byte header, pixel k of image i sits at offset 16 + i * size + k |
| Idx.EncodedImagesHeld | CNN.cpp:226-267 | an encoded image file announces its images and holds each pixel where the decoder reads it |
| Idx.DecodeHeldImages | CNN.cpp:226-267 | a file that holds images decodes successfully to those images, normalised |
| Idx.ImagesRoundTrip | CNN.cpp:226-267 | decoding an encoded image file gives back every image with every pixel normalised |
| Idx.LabelsRoundTrip | CNN.cpp:269-295 | decoding an encoded label file gives back the one-hot vector of every label |
| DrawingGrid.NewGrid | Window.h:217-218 | the grid starts as 640 columns of 480 zero cells |
| DrawingGrid.CellOf | Window.h:50-51 | the cell index c of window coordinate p satisfies 480c <= 28p < 480(c + 1), and c < 28 exactly when p < 480 |
| DrawingGrid.Max | Window.h:58-61 | the `max` macro gives one of its arguments, at least both |
| DrawingGrid.Before | Window.h:53-55 | the left and top neighbours are the previous cell, or 0 at the edge |
| DrawingGrid.After | Window.h:54-56 | the right and bottom neighbours are the next cell, but never past 27 |
| DrawingGrid.Write | Window.h:62 | writing a cell sets it and keeps every other cell and the shape |
| DrawingGrid.Brush | Window.h:58 | brushing a cell raises it to at least 0.5 and keeps every other cell |
| DrawingGrid.Paint | Window.h:53-62 | painting sets the centre to 1, raises the four clamped neighbours to at least 0.5, and keeps every other cell and the shape |
| DrawingGrid.HandleMouse | Window.h:49-63 | a click at any point whose cell lies inside the 640 x 480 array, including points of an enlarged window, keeps the grid's shape and sets the cell under the pointer to 1 |
| DrawingGrid.EraseIsIgnored | Window.h:49-63 | the right button (erase) leaves the same grid as the left |
| DrawingGrid.PaintOnlyBrightens | Window.h:53-62 | painting never darkens a cell and changes at most the centre and its four neighbours |
| DrawingGrid.PaintKeepsPalette | Window.h:58-62 | a grid of 0, 0.5 and 1 stays one after painting |
| DrawingGrid.StrokeBeyondGridMarksLastColumn | Window.h:54 | a stroke right of column 28 still half-inks column 27 on its row, which is not its neighbour |
| DrawingGrid.StrokeBelowGridMarksLastRow | Window.h:56 | a stroke below row 28 still half-inks row 27 in its column, which is not its neighbour |
| DrawingGrid.PointBelowGridMarksLastRow | Window.h:49-61 | a click at y >= 498 (possible once the window is enlarged) lands below row 28 and half-inks row 27 in its column |
| DrawingGrid.Clear | Window.h:117-124 | the C key blanks the 28 x 28 drawing area and keeps every other cell |
| DrawingGrid.ClearedIdempotent | Window.h:119-123 | clearing twice is clearing once, and clearing keeps the palette |
| Inference.ImageFromGrid | CNN.cpp:313-319 | the copy loops put grid cell (x, y) at pixel 28 * y + x |
| Inference.PaletteImageInUnitRange | CNN.cpp:315-319 | a drawing of 0, 0.5 and 1 gives pixels in [0, 1] |
| Inference.ClearedGridGivesBlankImage | CNN.cpp:315-319 | after the C key the network sees an all-zero image |
| Inference.PaintLightsPixel | CNN.cpp:315-319 | a click inside the drawing area sets the matching image pixel to 1 |
| Inference.Argmax | CNN.cpp:377-378 | `max_element` gives the first position of a largest entry, or 0 for an empty vector |
| Inference.FirstMaxUnique | CNN.cpp:377-378 | only one position is the first largest entry, and it is `Argmax`'s |
| Inference.ArgmaxOneHot | CNN.cpp:378 | the answer read from a one-hot label is the label |
| Inference.Predict | CNN.cpp:371-377 | classifying an image fails exactly when it mismatches the input layer; otherwise the answer is the first position of a largest output entry (0 for an empty output), a position of the output layer |
| Inference.PredictAfterForward | CNN.cpp:370-377 | a network that already ran forward classifies like the network before it did |
| Inference.Update | CNN.cpp:311-326 | `update` fails exactly on a mismatch; otherwise the head holds the grid's image, only values change, every later layer holds the activations of its predecessor, and the output's largest entry is the prediction |
| Inference.MatchingStep | CNN.cpp:380-382 | extending the range by one index adds one match exactly when that index matches |
| Inference.HitsStep | CNN.cpp:380-382 | one more test image adds one to the count exactly when it is classified correctly |
| Inference.MatchingBounded | CNN.cpp:368-389 | a range of n indices has at most n matches |
| Inference.MismatchIsDotThrows | CNN.cpp:134-140 | on a well-formed network, an image mismatches exactly when `dot` throws in the input layer once the image is its values |
| Inference.MismatchInExists | CNN.cpp:370-373 | `MismatchIn` holds exactly when some image in the range mismatches |
| Inference.MismatchInGrows | CNN.cpp:370-373 | a mismatch found in a range stays found as the range grows |
| Inference.EvaluateOne | CNN.cpp:371-382 | one evaluation step fails exactly on a mismatch, changes only values, and reports a hit exactly when the untouched network classifies the image as labelled |
| Inference.Evaluate | CNN.cpp:368-389 | the evaluation loop fails exactly when some test image mismatches; otherwise `correct` is the number of hits, at most 1000 |
| Inference.Accuracy | CNN.cpp:391 | the accuracy lies in [0, 1] and is 1 exactly when all 1000 test images are hits |
| Inference.Assemble | CNN.cpp:332-341 | the network built and initialised is the well-formed chain of 784, 300 and 10 neurons, with weights in [-1, 1], the output layer's matrix left empty, 784 input values, and every value and bias zero |
| Inference.UniformMismatch | CNN.cpp:345-346 | in a file of same-sized images a range mismatches exactly when its first image does |
| Inference.TrainKeepsDigitNetwork | CNN.cpp:345-350 | a training step on the digit network fails exactly on an image that is not 784 pixels, and otherwise keeps the network's shape |
| Inference.MismatchInSameShape | CNN.cpp:345-349 | networks with the same number of layers and the same input-layer sizes find the same mismatching images |
| Inference.MismatchInFront | CNN.cpp:345-349 | a range mismatches exactly when its first image or the rest of it does |
| Inference.TrainRun | CNN.cpp:345-350 | the reference for a training loop, `Train` over images `from`..n-1: it fails, with `DimensionMismatch`, exactly when some image in the range mismatches, and otherwise leaves a digit network |
| Inference.TrainRunStep | CNN.cpp:346-349 | one training step on the digit network fails exactly when the first image mismatches, and otherwise leaves a digit network that finds the same mismatches in the rest of the range |
| Inference.TrainPasses | CNN.cpp:345-364 | p passes of `TrainRun` over the first 3000 images fail, with `DimensionMismatch`, exactly when p > 0 and one of those images mismatches the starting network |
| Inference.TrainPass | CNN.cpp:345-350 | the loop over images 0..2999 gives the reference run `TrainRun` over them: it fails exactly when one of those images mismatches, and otherwise leaves a digit network |
| Inference.TrainPhase | CNN.cpp:345-364 | the loop over the passes (three in `do_stuff`) gives the reference `TrainPasses` for that many passes, and fails exactly when there is a pass and the images are not 784 pixels |
| Inference.DoStuff | CNN.cpp:328-391 | the whole run fails exactly when the images are not 784 pixels; otherwise it reports the network three reference passes make of a freshly assembled one (weights in [-1, 1], an empty output matrix, 784 input values, values and biases zero), its number of hits on images 20000 to 20999, and that number divided by 1000 |

## Left out

- The Win32 user interface is not modelled: `create_window` (apart from sizing the grid),
  the `WndProc` message loop (apart from the C key), `PaintWindow`, `draw_results` and
  `bind_handler`. These are drawing and event plumbing. The mouse handler's coordinates
  become parameters.
- File I/O is not modelled. Each file is given as its bytes. The branch where a file fails
  to open returns nothing from a non-void function, which is undefined behaviour, so it is
  not modelled.
- `error(a, b)` (CNN.cpp:64-73) is not modelled. It returns nothing from a non-void
  function and is never called.
- Printing is not modelled: `print_weights`, `print_output`, `print_image`, the progress
  `printf`s and `printf2`. `print_weights` indexes the matrix transposed (`in_size` rows of
  `out_size`), which does not match the shape `init_weights` gives it.
- `sigmoid_fast` is not modelled, because it is never called. `sigmoid` itself becomes the
  parameter `sigma`, because `exp` has no counterpart over the reals in Dafny.
- Single-precision `float` rounding is not modelled; all arithmetic is exact over `real`.
- The random number generator is not modelled. `init_weights` draws each weight with an
  arbitrary choice in [-1, 1].
- The background thread running `do_stuff` while the window is live is not modelled. The
  model runs it as a single sequential computation.
- The unused `weight_size` and `bias_size` members are not modelled.
- VectorMath.Cost: proves only that the cost is non-negative and zero for equal vectors. It
  does not prove the converse (a zero cost means equal vectors), because that needs strict
  positivity of real squares inside a sum.
- Idx.ReadLabels: requires every label byte to be below 10. A larger byte writes outside
  the 10-entry vector, which is undefined behaviour.
- Idx.ReadImages: a huge count that makes the allocation fail (`bad_alloc`) is not
  modelled. Only the negative count's `length_error` is.
- Idx.LoadWord: assumes a little-endian host, as the code does.
- Inference.DoStuff: the reported network is three reference passes from some network as
  `init()` leaves it, not from one particular network, because the initial weights are an
  arbitrary choice in [-1, 1].
- Inference.DoStuff: requires both files to announce at least 21000 entries. With fewer,
  `images[i]` is read out of bounds, which is undefined behaviour.
- DrawingGrid.HandleMouse: takes only points whose cell lies inside the 640 x 480 array
  (x < 10972, y < 8229). Beyond that `grid[grid_x][grid_y]` is written out of bounds, which
  is undefined behaviour. Coordinates are non-negative because the window never captures the
  mouse and only receives client-area coordinates (Window.h:135-178). For every accepted
  coordinate the exact quotient in `CellOf` agrees with the single-precision one.
- Inference.Update: does not model `draw_results`. It returns the network whose output the
  window would draw: every layer after the input holds the activations of its predecessor.
