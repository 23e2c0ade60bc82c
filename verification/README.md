# Byte-order conversion of SavedModel function-library constants

This project models, in Dafny, the endianness conversion that the
TensorFlow SavedModel utilities apply to the constants of a model's
function library (`tensorflow/python/saved_model/utils_impl.py`):

- `byte_swappable`: the fixed list of the fifteen element types whose
  elements are multi-byte numbers (module `DTypes`).
- `byte_swap_tensor_content`: swapping one tensor in place. The element
  count is the product of the dimension sizes. The chunk size is
  `int(len(content) / count)`. The content is cut into chunks of that
  size, and each chunk is re-encoded with
  `int.from_bytes(chunk, from).to_bytes(chunksize, to)`. Integer reading
  and writing in a byte order is in module `Endian`. The per-tensor swap
  is in module `TensorSwap`, first as the function `SwapTensorContent` of
  the tensor's fields, then as the method `Tensor.ByteSwapContent` that
  updates the content in place.
- `swap_function_tensor_content`: the nested walk over every function of
  the library and every node of each function. Each tensor held by a
  "Const" node is swapped in place (module `FunctionWalk`). Nodes and
  functions are values. Tensors are objects, so the walk changes the
  objects the nodes refer to, as the source mutates protobuf messages
  through references. The walk takes the list of functions, which the
  source reaches as `meta_graph_def.graph_def.library.function`.

What is proved:

- The swap list holds exactly the types whose elements are at least two
  bytes wide.
- Re-encoding a full chunk reverses it when the two byte orders differ
  and leaves it alone when they agree. A short chunk is zero-padded on
  its most significant side.
- When the content length is a multiple of a positive chunk size, the
  swap succeeds and keeps the length. When the byte orders differ it
  reverses each chunk in place; when they agree, or the type is not on
  the list, the content is unchanged. Swapping back restores the
  content.
- The exact conditions under which the swap raises, and which exception
  it raises.
- A negative element count empties the content when the content is at
  least as long as the count's magnitude; a shorter content makes the
  chunk size zero and the swap raises.
- A length that is not a multiple of the chunk size leaves a short
  tail. The whole chunks in front are swapped as above, and the tail is
  re-encoded to a full chunk with zero padding.
- The walk selects exactly the constant nodes of every function. It
  swaps their tensors in order and touches no other tensor. A raised
  exception stops it with the earlier tensors swapped and the later ones
  unchanged.

## Behaviour at the edges

- A dimension of size zero makes the element count zero. With non-empty
  content, the division raises `ZeroDivisionError`.
- Content shorter than the magnitude of the element count makes the
  chunk size zero, and `range` raises on a zero step.
- Dimension sizes are signed 64-bit values in the shape message. A
  negative element count (a dimension of -1) with content at least as
  long as the count's magnitude makes the step negative, the range
  empty, and the content becomes empty. With shorter content the chunk
  size is zero and the swap raises as above.
- The length is never checked against the element count. The division
  truncates, and the short final chunk is padded by `to_bytes`. A
  float32 tensor of shape [3] holding 10 bytes therefore comes out with
  12 bytes (`ShortFinalChunkPadded`, `ShortFinalChunkContents`).
- The chunk size is the whole element, so a complex64 or complex128
  element is reversed end to end as one number, which moves the bytes
  of its real part to where its imaginary part was
  (`Complex64WholeElementReversed`).

## Model

| member | source | states |
|---|---|---|
| DTypes.SwappableIffMultiByte | tensorflow/python/saved_model/utils_impl.py:282-287 | a type is on the swap list exactly when its elements are at least two bytes wide, so one-byte and variable-width types are never swapped |
| DTypes.IsByteSwappable | tensorflow/python/saved_model/utils_impl.py:302 | `tensor.dtype in byte_swappable`; `SwappableIffMultiByte` states which types it admits |
| DTypes.ByteSwappableHasFifteenTypes | tensorflow/python/saved_model/utils_impl.py:282-287 | the list names fifteen pairwise distinct types |
| Endian.FromBytes | tensorflow/python/saved_model/utils_impl.py:317 | `int.from_bytes(chunk, order)` as an unsigned value is below 256 to the power of the chunk length; `ToBytes` and `LittleBytesOfValue` state that writing it back restores the bytes |
| Endian.Recode | tensorflow/python/saved_model/utils_impl.py:317-318 | the per-chunk expression always gives exactly `size` bytes; `RecodePadding` and `RecodeFullChunk` give its bytes |
| Endian.ToBytes | tensorflow/python/saved_model/utils_impl.py:317-318 | `to_bytes(size, order)` of a value that fits gives `size` bytes that `from_bytes` in the same order reads back as the value |
| Endian.LittleBytesOfValue | tensorflow/python/saved_model/utils_impl.py:317-318 | writing back the little-endian reading of at most `size` bytes restores them, followed by zero bytes |
| Endian.RecodePadding | tensorflow/python/saved_model/utils_impl.py:317-318 | a chunk of at most `size` bytes comes out as its bytes (reversed when the orders differ), zero-padded on the most significant side of the target order, for each of the four order pairs |
| Endian.RecodeFullChunk | tensorflow/python/saved_model/utils_impl.py:317-318 | a full chunk is reversed when the byte orders differ and unchanged when they agree |
| Endian.RecodeRoundTrip | tensorflow/python/saved_model/utils_impl.py:317-318 | re-encoding a full chunk from A to B and then from B to A restores it |
| TensorSwap.Product | tensorflow/python/saved_model/utils_impl.py:306-308 | the product of the dimension sizes; `ElementCount` proves the loop computes it, `ProductZeroIff` and `ProductPositive` state when it is zero or positive |
| TensorSwap.ElementCount | tensorflow/python/saved_model/utils_impl.py:306-308 | the loop's running product over the dimensions equals their product; a scalar has one element |
| TensorSwap.ProductZeroIff | tensorflow/python/saved_model/utils_impl.py:306-308 | the element count is zero exactly when some dimension is zero |
| TensorSwap.ProductPositive | tensorflow/python/saved_model/utils_impl.py:306-308 | with every dimension positive the element count is positive |
| TensorSwap.TruncDiv | tensorflow/python/saved_model/utils_impl.py:309 | `int(len / count)` has the sign of the count, or is zero |
| TensorSwap.TruncDivBounds | tensorflow/python/saved_model/utils_impl.py:309 | the magnitude of `int(len / count)` is the largest q with q times the count's magnitude at most `len` (rounding toward zero) |
| TensorSwap.TruncDivZeroIff | tensorflow/python/saved_model/utils_impl.py:309 | the chunk size is zero exactly when the content is shorter than the magnitude of the element count |
| TensorSwap.Chunks | tensorflow/python/saved_model/utils_impl.py:311-314 | the chunks concatenate back to the content; each is non-empty and at most `size` bytes long; all but the last are exactly `size` bytes |
| TensorSwap.ChunksCount | tensorflow/python/saved_model/utils_impl.py:311-314 | the number of chunks is the length divided by the step, rounded up |
| TensorSwap.Flatten | tensorflow/python/saved_model/utils_impl.py:316 | `b"".join`; `Chunks` states that joining the chunks gives the content back, `FlattenUniformLength` that joining n chunks of `size` bytes gives n times `size` bytes |
| TensorSwap.SwapChunks | tensorflow/python/saved_model/utils_impl.py:311-320 | the joined re-encoded chunks; `SwapChunksStep`, `SwapChunksSplit` and `SwapChunksWhole` state its bytes |
| TensorSwap.SwapChunksSplit | tensorflow/python/saved_model/utils_impl.py:311-320 | content of whole chunks followed by a short tail swaps to the swap of the whole chunks followed by the tail re-encoded to a full chunk |
| TensorSwap.RecodeAll | tensorflow/python/saved_model/utils_impl.py:316-320 | every re-encoded chunk is exactly `chunksize` bytes, one per input chunk |
| TensorSwap.SwapTensorContent | tensorflow/python/saved_model/utils_impl.py:300-320 | the swap raises exactly when the type is swappable, the content is non-empty, and the count is zero or larger in magnitude than the length; it raises `ZeroDivision` exactly when the count is zero; an unlisted type or empty content is left unchanged |
| TensorSwap.SwapChunksWhole | tensorflow/python/saved_model/utils_impl.py:311-320 | on content made of whole chunks, the re-encoding changes nothing when the orders agree and reverses every chunk in place when they differ |
| TensorSwap.SwapChunksStep | tensorflow/python/saved_model/utils_impl.py:311-320 | the first chunk is re-encoded ahead of, and independently of, the rest |
| TensorSwap.SwapSingleChunk | tensorflow/python/saved_model/utils_impl.py:311-320 | content no longer than the chunk size is one chunk, re-encoded to the full chunk size |
| TensorSwap.ChunkwiseReversedTwice | tensorflow/python/saved_model/utils_impl.py:311-320 | reversing every chunk twice restores the content |
| TensorSwap.SwapWholeChunks | tensorflow/python/saved_model/utils_impl.py:300-320 | when the length is a multiple of a positive chunk size `int(len / count)`, the swap succeeds and keeps the length; it changes nothing for unlisted types or equal orders, and otherwise reverses each chunk in place |
| TensorSwap.SwapWholeChunksRoundTrip | tensorflow/python/saved_model/utils_impl.py:300-320 | swapping such content from A to B and back from B to A restores it |
| TensorSwap.SwapWellFormed | tensorflow/python/saved_model/utils_impl.py:300-320 | when the length is a multiple of a positive element count, the swap succeeds and keeps the length; it changes nothing for unlisted types or equal orders, and otherwise reverses each `len / count`-byte element in place |
| TensorSwap.SwapRoundTrip | tensorflow/python/saved_model/utils_impl.py:300-320 | swapping from A to B and back from B to A restores such content |
| TensorSwap.NegativeCountEmptiesContent | tensorflow/python/saved_model/utils_impl.py:309-320 | a negative element count with content at least as long as its magnitude gives a negative step, an empty range and an empty content |
| TensorSwap.NegativeCountShortContentRaises | tensorflow/python/saved_model/utils_impl.py:309-313 | a negative element count larger in magnitude than a non-empty content gives chunk size zero, and the swap raises the zero-step error |
| TensorSwap.ShortFinalChunkPadded | tensorflow/python/saved_model/utils_impl.py:309-320 | when the length is not a multiple of a positive chunk size, the swap succeeds and the content grows by less than one chunk to a whole number of chunks |
| TensorSwap.ShortFinalChunkContents | tensorflow/python/saved_model/utils_impl.py:309-320 | content of w bytes of whole chunks and a shorter tail: the swap succeeds, the whole chunks come out unchanged (equal orders) or each reversed in place, and the tail comes out as its bytes, reversed when the orders differ, with zero padding on the target order's most significant side |
| TensorSwap.Float32BigToLittle | tensorflow/python/saved_model/utils_impl.py:300-320 | float32 shape [2] bytes 00 00 00 01 00 00 00 02, big to little endian, become 01 00 00 00 02 00 00 00 |
| TensorSwap.Float32ShortContent | tensorflow/python/saved_model/utils_impl.py:300-320 | float32 shape [2] with five bytes a b c d e, big to little endian, becomes b a d c e 0 |
| TensorSwap.Complex64WholeElementReversed | tensorflow/python/saved_model/utils_impl.py:300-320 | a one-element complex64 tensor, big to little endian, has all eight bytes reversed as one chunk, so its two 4-byte parts trade places |
| TensorSwap.Tensor.ByteSwapContent | tensorflow/python/saved_model/utils_impl.py:300-320 | in place: on success the content becomes what `SwapTensorContent` gives and the outcome is a pass; on an exception the content is unchanged and the outcome carries the error |
| FunctionWalk.ConstTensors | tensorflow/python/saved_model/utils_impl.py:294-296 | the tensors of the "Const" nodes that have a value, in node order; `ConstTensorsSound`, `ConstTensorsComplete` and `ConstTensorsNext` state this |
| FunctionWalk.LibraryConstTensors | tensorflow/python/saved_model/utils_impl.py:291-296 | the constant tensors of every function, function by function; `LibraryConstTensorsSound` and `LibraryConstTensorsComplete` state this |
| FunctionWalk.ConstTensorsSound | tensorflow/python/saved_model/utils_impl.py:294-297 | every tensor swapped in a function is the value of one of its "Const" nodes, and there are no more of them than nodes |
| FunctionWalk.ConstTensorsComplete | tensorflow/python/saved_model/utils_impl.py:294-297 | every "Const" node with a value has its tensor among those swapped |
| FunctionWalk.LibraryConstTensorsSound | tensorflow/python/saved_model/utils_impl.py:290-297 | every tensor swapped in the library is the value of a "Const" node of some function |
| FunctionWalk.LibraryConstTensorsComplete | tensorflow/python/saved_model/utils_impl.py:290-297 | every "Const" node with a value, in any function, has its tensor among those swapped |
| FunctionWalk.ConstTensorsNext | tensorflow/python/saved_model/utils_impl.py:294-296 | node j's constant comes right after those of the nodes before it, in node order |
| FunctionWalk.ComposeRanges | tensorflow/python/saved_model/utils_impl.py:292-297 | two walks over adjacent runs of tensors make one walk over their union |
| FunctionWalk.SwapNode | tensorflow/python/saved_model/utils_impl.py:295-297 | a "Const" node's tensor is swapped and no other tensor changes; a failed swap leaves every tensor unchanged; a non-constant node changes nothing |
| FunctionWalk.SwapNodeTensorContent | tensorflow/python/saved_model/utils_impl.py:293-297 | the constants of one function are swapped in node order and no other tensor changes; the walk passes after all of them, or stops at the first whose swap raises, with the later ones untouched |
| FunctionWalk.SwapFunction | tensorflow/python/saved_model/utils_impl.py:292-297 | one function's constants extend the run of swapped tensors, and the failing tensor is reported when a swap raises |
| FunctionWalk.FunctionPlaced | tensorflow/python/saved_model/utils_impl.py:292-295 | the constants of function i come right after those of the functions before it in the library's list of constants |
| FunctionWalk.SwapNextFunction | tensorflow/python/saved_model/utils_impl.py:292-297 | one turn of the outer loop: the run of swapped constants is extended by function i's, or ends at the one whose swap raises |
| FunctionWalk.SwapFunctionTensorContent | tensorflow/python/saved_model/utils_impl.py:290-297 | every constant of the library is swapped from its original content, function by function, and no other tensor changes; on an exception, the tensors before the failing one are swapped and it and those after it keep their content |

## Left out

- Byte orders are the two values of `Endianness`. The source passes the strings "big" and "little" to `int.from_bytes`, which raises on any other string; that error path is not modelled.
- TensorSwap.TruncDiv: the source computes `int(len / count)` in floating point. The model uses exact truncating division, so it does not capture the rounding of very large lengths or counts.
- A "Const" node without a "value" attribute is modelled as a no-op. In the source, reading `node.attr["value"]` inserts an empty attribute into the node's protobuf map. The resulting empty tensor of invalid type is not swapped, but the map insertion itself is not modelled.
- FunctionWalk.SwapFunctionTensorContent requires the constant tensors to be distinct objects (`Distinct`). Protobuf messages are owned by exactly one parent, so the source cannot alias them. The model does not cover two nodes sharing one tensor.
- Protobuf decoding and encoding, the MetaGraphDef wrapper around the function library, and the node and function names (which the walk never reads) are not modelled.
- The rest of `utils_impl.py` is outside this model: the TensorInfo builders, `get_tensor_from_tensor_info` and `get_element_from_tensor_info`, and the SavedModel path helpers. They build protobuf messages, look up graph elements and join file paths, and carry no byte-order logic.
