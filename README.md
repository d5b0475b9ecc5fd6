# ImageEncryptor: reversible pixel operations, Arnold permutation, sequence generators, registries

This project models the integer core of the ImageEncryptor image cipher in Dafny:

- **The sequence-driven pixel operations of `operation.py`.** These are the row shuffle, column shuffle, diffusion and compositional operation.
  - Each is a method on an image buffer (`array3<Byte>`, indexed height × width × channel) and a value iterator (`Stream.ValueStream`: a fixed list of generator values and a cursor).
  - Each method is proved against a value-level meaning, `OperationSpec.Spec`.
  - Each is proved to pull exactly `get_cost` values.
  - The shuffles work in place on the caller's buffer and hand it back. Diffusion works on a flattened copy and returns a new buffer, leaving its input alone.
  - The main theorem is `OperationSpec.RoundTrip`. For every operation, including nested compositional ones, calling it in reverse mode on the values of a forward call, in reversed order, restores the image.
  - Two further results hold:
    - a forward diffusion pass equals an independent running-sum definition (`ForwardPass`);
    - a single pass has the avalanche property (`Avalanche`).
- **The Arnold cat-map encryptor of `encrypt.py`.**
  - The forward matrix is [[1, b], [a, ab + 1]] and the decryption matrix is [[ab + 1, −b], [−a, 1]]. They are mutual inverses because the determinant is 1 (`ArnoldInverse`), and the index map is a bijection of Z_N × Z_N (`ForwardBijective`).
  - `encrypt` and `decrypt` are the source's triple loops into a zero buffer. Proved facts about them:
    - the result is a gather through the inverse matrix;
    - the result is all zeros when `shuffle_times` is 0;
    - the two directions undo each other, in both orders.
  - A non-square image, which the source rejects by printing a message and exiting, is a `Failure` result.
- **The sequence generator `ChaosSystem` of `sequence.py` and its near-copy in `chaos.py`.**
  - They are classes over three lists: maps, initial values and current states.
  - A map is any `S -> S`, and `extract_element` is any `seq<S> -> V`.
  - `get_sequence` is proved equal to an independent definition `Generated` and leaves every field alone.
  - After a reset, n calls of `next` replay `get_sequence(n)` (`NextReplaysSequence`).
  - The reverse iterator holds the reversed sequence. The one in `sequence.py` resets the states; the one in `chaos.py` changes nothing.
- **The name registries of `registry.py`.**
  - A `Registry` is a class over a `map<string, C>`.
  - `register` overwrites and returns the class.
  - `get_class` yields the entry or the `ValueError` message.
  - `build` applies a constructor parameter `make` to the looked-up class and fails exactly when the lookup does.

### Layout

| file | module | contents |
|---|---|---|
| `util.dfy` | `Util` | bytes, `Result`, list reversal, slices, concatenation of chunks |
| `tensor.dfy` | `Tensor` | images as values, C-order flatten/reshape, row and column swaps |
| `stream.dfy` | `Stream` | the value iterator |
| `operation_spec.dfy` | `OperationSpec` | operations as data, costs, the value-level meaning, round-trip and diffusion lemmas |
| `operation.dfy` | `Operation` | the operation methods on buffers |
| `encrypt.dfy` | `Encrypt` | the Arnold matrices, their lemmas, the encryptor class |
| `sequence.dfy` | `Sequence` | the generator of `sequence.py` with its value-level rounds |
| `chaos.dfy` | `Chaos` | the generator of `chaos.py` |
| `registry.dfy` | `Registry` | the name registry |

### Modelling choices

- **Operation values.** An operation object is a value of `OperationSpec.Op`:
  - `RowShuffle(times)`;
  - `ColumnShuffle(times)`;
  - `Diffusion(times)`;
  - `Compositional(ops, times)`.

  `Operation.Apply` plays `op(rgb, it, reverse)`.
- **Folds.** The shuffles and the diffusion are folds of single steps over a visit list, `Visit(n, times, reverse)`:
  - `times` copies of `range(n)`;
  - or copies of `reversed(range(n))` in reverse mode.

  The round trip follows from three facts:
  - the reverse visit list is the forward one reversed;
  - each reverse step undoes its forward step;
  - the iterator values are read in reversed order.
- **Uninterpreted helpers.** `utils.discrete` is a parameter `disc: V -> int`, since it is not part of this model; so is `utils.extract_element`.
- **Exact arithmetic.** Bytes are integers 0..255 and the diffusion arithmetic is exact, reduced modulo 256.
  - Python's `%` with a positive modulus agrees with Dafny's Euclidean `%`. So the decryption map and `discrete(v) % extent` reduce negative values as the model does.
  - In the reverse diffusion the source subtracts on a uint8 array, which wraps or promotes depending on the type `discrete` returns. Reduction modulo 256 commutes with that wrap, so the resulting byte agrees with the model's exact reduction, although the intermediate values differ.
- **Modulo edge cases.**
  - A shuffle's `% rgb.shape[...]` on an axis of extent 0 raises an exception: `ZeroDivisionError` for a Python integer draw, or an `IndexError` on the empty axis for a numpy integer draw. The predicate `Runnable` states when that cannot happen, and the shuffle methods require it.
  - The Arnold loops never reduce modulo 0, because they run only when N > 0.
- **The arity check in `add_mapping`.** It compares the initial value with the type object `list` by identity. No state value is that object, so the warning never prints, and `AddMapping` appends unconditionally.

## Model

| member | source | states |
|---|---|---|
| Stream.ValueStream.Next | operation.py:25-26 | `next(it)` returns the value under the cursor and advances the cursor by one |
| Operation.SwapRowsInPlace | operation.py:27 | after the column loop, the buffer holds its old image with rows x and y of channel d exchanged |
| Operation.SwapColumnsInPlace | operation.py:41 | the buffer holds its old image with columns x and y of channel d exchanged |
| Operation.Shuffle | operation.py:22-27 | the loop pulls exactly 2·C·times values. The buffer then holds the fold of row (or column) swaps over the channels visited in order, or in descending order in reverse mode. Each swap draws two indices from two consecutive values |
| Operation.RowShuffle | operation.py:21-28 | `RowShuffleOperation.__call__` hands back the caller's own buffer (`r == a`), shuffled in place to `Spec(RowShuffle(times))` of the values it pulled. It pulls exactly `get_cost` values |
| Operation.ColumnShuffle | operation.py:36-42 | the same for columns |
| Operation.FlattenBuffer | operation.py:52 | `rgb.flatten()` is a fresh one-dimensional array holding the image in C order |
| Operation.ReshapeBuffer | operation.py:66 | `flt.reshape(shape)` is a buffer of that shape holding the stream in C order. numpy returns a view of `flt`, which is itself a fresh copy, and the model returns a fresh buffer, which nothing can tell apart |
| Operation.DiffusePasses | operation.py:53-65 | the `times` passes over the flattened stream pull len·times values. The stream ends as the fold of diffusion steps over the visited positions, ascending per pass, or descending in reverse mode |
| Operation.Diffusion | operation.py:50-66 | `DiffusionOperation.__call__` returns a fresh buffer of the input's shape and changes only the iterator, so the input stays as it was. The buffer holds `Spec(Diffusion(times))` of the values pulled, and exactly `get_cost` values are pulled |
| Operation.Apply | operation.py:83-86 | `rgb = op(rgb, it, reverse)` for every operation kind: same shape, exactly `Cost(op)` values pulled, result = `Spec(op)`. A shuffle hands back the caller's buffer; a diffusion hands back a fresh buffer and leaves the caller's unchanged; in general the result is fresh exactly when `Copies(op)` holds (some diffusion runs) and is the caller's buffer otherwise |
| Operation.Compositional | operation.py:79-87 | `times` repetitions of the operation list pull `times · Σ cost` values, and the result is `Repeat` of the chain; it is a fresh buffer when `times > 0` and some operation of the list copies, and the caller's buffer otherwise |
| Operation.RunChain | operation.py:81-86 | one repetition runs `op_list` in order, or `reversed(op_list)` in reverse mode, and yields `Chain` of the values it pulls, in a fresh buffer exactly when some operation of the list copies |
| Operation.RunForward | operation.py:82-83 | `for op in op_list` threads the image through the operations in list order, each on its own run of values |
| Operation.RunBackward | operation.py:85-86 | `for op in reversed(op_list)` runs the last operation first, on the first values, each in reverse mode |
| Operation.GetCost | operation.py:89-93 | `get_cost` of any operation, with the compositional `cnt` accumulated in a loop, equals `Cost(op)`: 2·C·times, H·W·C·times, or times · Σ of the sub-costs |
| OperationSpec.CostSumAppend | operation.py:91-92 | the summed cost of two concatenated operation lists is the sum of their costs |
| OperationSpec.DrawIndex | operation.py:25-26 | an index drawn as `discrete(v) % extent` is always inside the axis |
| OperationSpec.VisitFits | operation.py:22-31 | a runnable shuffle visits only existing channels on a non-empty axis, and its cost 2·C·times is two values per visit |
| OperationSpec.VisitReverse | operation.py:23 | the reverse-mode visit order (`reversed(range(C))` per repetition) is exactly the forward visit order reversed |
| OperationSpec.VisitAt | operation.py:22-23 | visit number n·rep + j is position j of repetition rep, or n − 1 − j in reverse mode |
| OperationSpec.SwapFoldUndo | operation.py:22-27 | replaying the swaps over the reversed visit list with the reversed values restores the image |
| OperationSpec.DiffStepUndo | operation.py:56-65 | the reverse step at position i (subtract, mod 256) undoes the forward step at i (add, mod 256) with the same value, including at position 0 |
| OperationSpec.DiffFoldUndo | operation.py:53-65 | replaying the diffusion steps over the reversed positions with the reversed values restores the byte stream |
| OperationSpec.ShuffleRoundTrip | operation.py:21-42 | a shuffle in reverse mode on the reversed values of a forward shuffle restores the image |
| OperationSpec.DiffusionRoundTrip | operation.py:50-66 | a diffusion in reverse mode on the reversed values of a forward call restores the image, flatten and reshape included |
| OperationSpec.ChainForwardSnoc | operation.py:82-83 | running one more operation at the end of the forward list applies it to the chain's result, on the values after the chain's |
| OperationSpec.ChainBackwardCons | operation.py:85-86 | in reverse order, operation j runs after all the operations behind it, on the last `Cost(ops[j])` values |
| OperationSpec.RepeatSnoc | operation.py:80-86 | one more repetition applies the chain once more, to the result of the previous repetitions, on the following values |
| OperationSpec.ChainUndo | operation.py:81-86 | running `reversed(op_list)` in reverse mode on the reversed values undoes one forward repetition |
| OperationSpec.RepeatUndo | operation.py:79-87 | reverse mode undoes all `times` repetitions of a compositional operation |
| OperationSpec.RoundTrip | operation.py:21-87 | `op(op(img, s, False), reversed(s), True) == img` for every operation whenever |s| = `get_cost`. This holds for nested compositions too |
| OperationSpec.ForwardPass | operation.py:55-59 | one forward diffusion pass equals the reference running sum `Diffused`: byte i is (output i−1 + input i + draw i) mod 256, and byte 0 has no predecessor |
| OperationSpec.Avalanche | operation.py:55-59 | if two inputs differ only at byte k, a single pass gives outputs that agree before k and differ at every position from k on |
| Tensor.SwapRowsAt | operation.py:27 | a row swap exchanges rows x and y of channel d; every other channel, row and cell is unchanged |
| Tensor.SwapColumnsAt | operation.py:41 | a column swap exchanges columns x and y of channel d; every other cell is unchanged |
| Tensor.SwapRowsUndo | operation.py:27 | a row swap is undone by itself, in either index order |
| Tensor.SwapColumnsUndo | operation.py:41 | a column swap is undone by itself, in either index order |
| Tensor.Digits | operation.py:52 | every flat position below H·W·C is the C-order offset of an in-range (row, column, channel) triple |
| Tensor.DigitsUnique | operation.py:52 | that triple is unique: the offset of any in-range triple has exactly that triple as its digits, so C order is a bijection between samples and positions |
| Tensor.ReshapeFlatten | operation.py:52-66 | reshaping the flattened image back to its shape gives the image |
| Tensor.FlattenReshape | operation.py:52-66 | flattening a reshaped stream gives the stream |
| Encrypt.MapRow | encrypt.py:29 | the new row `(p·i + q·j) mod N` is inside the image |
| Encrypt.MapCol | encrypt.py:30 | the new column `(r·i + s·j) mod N` is inside the image |
| Encrypt.ArnoldInverse | encrypt.py:43-44 | the decryption matrix [[ab+1, −b], [−a, 1]] is the inverse of the encryption matrix [[1, b], [a, ab+1]] on both sides |
| Encrypt.MapUndo | encrypt.py:29-30 | when m2·m1 = I, mapping (i, j) by m1 and then by m2, each mod N, gives back (i, j) |
| Encrypt.ForwardBijective | encrypt.py:27-31 | the encryption index map is one-to-one on Z_N × Z_N, and its image covers every cell. So each output cell is written exactly once per repetition and the output is a permutation of the input pixels |
| Encrypt.EncryptMoves | encrypt.py:29-31 | `encrypt` moves the whole channel vector of pixel (i, j) to ((i + b·j) mod N, (a·i + (ab+1)·j) mod N) |
| Encrypt.DecryptEncrypt | encrypt.py:20-46 | `decrypt(encrypt(img)) == img` for a square image when both repetition counts are at least 1 |
| Encrypt.EncryptDecrypt | encrypt.py:20-46 | `encrypt(decrypt(img)) == img` under the same conditions |
| Encrypt.Undone | encrypt.py:31 | gathering through m2 and then through m1, where m2·m1 = I, restores the image |
| Encrypt.CopyPixel | encrypt.py:31 | `result[x, y, :] = rgb[i, j, :]` overwrites exactly the channel vector at (x, y) |
| Encrypt.Permute | encrypt.py:25-31 | the loops into the zero buffer return a fresh buffer of the input's shape. It is all zeros after 0 repetitions, and otherwise the input with each pixel moved by the matrix. Every repetition reads the unchanged input, so k ≥ 1 repetitions give the result of one |
| Encrypt.ArnoldEncryptor.constructor | encrypt.py:15-18 | the encryptor keeps a, b and `shuffle_times` |
| Encrypt.ArnoldEncryptor.Encrypt | encrypt.py:20-32 | fails exactly when height ≠ width. Otherwise it returns a fresh buffer holding the zero image (`shuffle_times` = 0) or the input with pixel (i, j) moved to the forward map of (i, j) |
| Encrypt.ArnoldEncryptor.Decrypt | encrypt.py:34-46 | fails exactly when height ≠ width. Otherwise it returns a fresh buffer moved by the inverse map, so its pixel (x, y) is the input pixel at the forward map of (x, y) |
| Sequence.IterateAdd | sequence.py:108-110 | a rounds followed by b rounds are a + b rounds |
| Sequence.GeneratedShift | sequence.py:106-115 | generating n values from the states after k rounds gives elements k..k+n of the sequence from the initial values |
| Sequence.GeneratedPrefix | sequence.py:106-115 | a shorter `get_sequence` is a prefix of a longer one |
| Sequence.ChaosSystem.constructor | sequence.py:85-88 | a new system has three empty lists |
| Sequence.ChaosSystem.AddMapping | sequence.py:90-97 | appends the map to `map_list` and the initial value to both `inital_value` and `current_status`, keeping the three lists of equal length. It never rejects |
| Sequence.ChaosSystem.GetSequence | sequence.py:100-115 | returns `length` values; value k is `extract_element` of the states after k + 1 rounds from `inital_value`. No field changes |
| Sequence.ChaosSystem.Next | sequence.py:118-124 | applies every map once to its own current state, stores the new states and returns their `extract_element`. The maps and initial values stay |
| Sequence.ChaosSystem.GetNext | sequence.py:126-127 | the same as `next(self)` |
| Sequence.ChaosSystem.Reset | sequence.py:129-130 | the current states become the initial values (so a second reset changes nothing) |
| Sequence.ChaosSystem.GetReverseIterator | sequence.py:132-135 | resets the states and returns a fresh iterator, at its start, over `reversed(get_sequence(length))` |
| Sequence.NextReplaysSequence | sequence.py:118-130 | after `reset()`, n calls of `next` return exactly `get_sequence(n)`, in order, and leave the states n rounds on |
| Chaos.ChaosSystem.constructor | chaos.py:57-60 | a new system has three empty lists |
| Chaos.ChaosSystem.AddMapping | chaos.py:62-67 | appends to all three lists, keeping their lengths equal; the arity warning never fires |
| Chaos.ChaosSystem.GetChaosSequence | chaos.py:74-81 | returns `length` values computed from `inital_value` (the same `Generated` as `sequence.py`) and changes no field |
| Chaos.ChaosSystem.Next | chaos.py:86-89 | advances every map's current state once and returns the extracted value |
| Chaos.ChaosSystem.GetNextChaos | chaos.py:91-92 | the same as `next(self)` |
| Chaos.ChaosSystem.Reset | chaos.py:94-95 | restores the current states to the initial values |
| Chaos.ChaosSystem.GetReverseIterator | chaos.py:97-99 | returns an iterator over `reversed(get_chaos_sequence(length))` without resetting: no field changes, unlike `sequence.py` |
| Registry.Lookup | registry.py:11-15 | finds the entry for a registered name; a missing name gives the error message `Unregistered Encryptor: <name>` |
| Registry.LookupAfterRegister | registry.py:7 | after registering, the name finds the new class; every other name finds what it found before |
| Registry.Registry.constructor | registry.py:2-3 | a new registry is empty |
| Registry.Registry.Register | registry.py:5-9 | stores the class under the name, overwriting any earlier entry and leaving all others, and returns the class itself. Only this registry changes, so the three module-level registries stay independent |
| Registry.Registry.GetClass | registry.py:11-15 | returns the most recently registered class for the name, or the `ValueError` for an unregistered name |
| Registry.Registry.Build | registry.py:17-19 | fails exactly when `get_class` fails, with the same message; otherwise it is the constructor applied to the looked-up class |

## Left out

- The chaotic map bodies (Logistic, Tent, Arnold with `math.modf`) are floating point. They are the generic parameter `S -> S`.
- `utils.discrete` and `utils.extract_element` are not part of this model. They are the parameters `disc` and `extract`.
- trans.py (DCT, FFT and wavelet transforms), evaluate.py (floating-point metrics, a wall-clock timer), attack.py and `RandomSystem` of sequence.py (global `random` state), main.py (demo wiring) and utils.py (image file I/O and display) are not modelled: they are numerics, randomness, clocks or I/O.
- The `print` and `exit(-1)` of `encrypt` and `decrypt` on a non-square image become a `Failure` result carrying the message. The process exit is not modelled.
- Operation.Shuffle: `times` is a natural number in every operation. A negative `times` in Python runs no repetition but reports a negative `get_cost`, and that case is not modelled.
- Operation.RowShuffle: a shuffle with `times > 0` on an image with channels but no rows (no columns for the column shuffle) raises an exception in the source (`ZeroDivisionError` or `IndexError`, depending on the type of the draw). The model requires `Runnable` instead of modelling the exception.
- Operation.Compositional: when a diffusion runs inside the chain, the result is a fresh buffer. The contract does not say what the caller's buffer then holds: the shuffles that run before the first diffusion (in execution order) have permuted it in place. The same holds for Operation.Apply, Operation.RunChain, Operation.RunForward and Operation.RunBackward.
- Operation.Apply: an iterator that runs out (`StopIteration`) is excluded by requiring at least `get_cost` values to remain.
- numpy's uint8 promotion, overflow and warning behaviour is not modelled. Bytes are integers 0..255, and every diffusion sum or difference is exact before the reduction modulo 256.
- Registry.Registry.Build: the `*args, **kwargs` constructor call is reflection. It is the parameter `make`, which stands for the class applied to those arguments.
- Registry.Registry.GetClass: the source also treats a name registered with the value `None` as missing. A generic class value has no `None`, so that case is not modelled.
- The registry names the operation and sequence modules import (`operation_registry`, `sequence_registry`) are not defined in registry.py, which defines `encryptor_registry`, `chaos_operation_registry` and `chaos_mapping_registry`. The decorator registrations are therefore not modelled; the registry class itself is.
- Sequence.ChaosSystem.AddMapping: the source appends the same initial object to two lists. Their aliasing matters only for a map that mutates its state in place, and states here are values, so it is not modelled.
- Sequence.ChaosSystem.GetSequence, Sequence.ChaosSystem.GetReverseIterator, Chaos.ChaosSystem.GetChaosSequence, Chaos.ChaosSystem.GetReverseIterator and Encrypt.ArnoldEncryptor.constructor take `length` and `shuffle_times` as natural numbers. In the source a negative count makes `range` empty: the sequence is `[]`, the reverse iterator is empty, and `encrypt`/`decrypt` return the zero image. The model does not cover negative counts.
- Default arguments are not modelled; every call passes all its arguments. The source's defaults are `times=1` (operations), `reverse=False` (`__call__`), `length=100` (`get_sequence`, `get_chaos_sequence`) and `a=1, b=1, shuffle_times=1` (`ArnoldEncryptor`).
- The empty base classes `BaseOperation` and `BaseEncryptor`, and the chaos-map and sequence base classes, carry no behaviour and are not modelled.
