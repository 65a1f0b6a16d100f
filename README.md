# Image compressor: pixel reshaping

This project models the two reshaping routines of the image cluster
compressor, which sit between the image codec and the k-means model:

- `image_to_data` reads a flat, channel-interleaved buffer of 8-bit
  samples (`width * height` pixels of `channels` samples each). It builds a
  freshly allocated table with one row of `channels` doubles per pixel.
  Channel `j` of pixel `i` is byte `i * channels + j`. When any allocation
  fails, it frees every block it allocated and returns NULL.
- `data_to_image` does the reverse, in place. It writes component `j` of
  row `i`, cast to `uint8_t` (truncated toward zero), into byte
  `i * channels + j` of the caller's buffer.

The model has three modules:

- `Memory` (memory.dfy): an `Allocator` class standing for `malloc`/`free`.
  An allocation may fail, nondeterministically. A ghost set `live` records
  the blocks the program owns, and a ghost counter `failures` counts the
  allocations that returned NULL.
- `PixelData` (pixel_data.dfy): the value-level picture.
  - `byte` stands for `uint8_t`.
  - `FlatIndex` is the index map `(i, j) -> i * channels + j`.
  - `Truncate` is the `(uint8_t)` cast of a double.
  - `ToVectors` and `FromVectors` are the two reshapes, on sequences.
  - The lemmas cover the index map, the reshapes and their round trips.
- `ImageCompressor` (image_compressor.dfy): the two routines as methods
  over arrays, with the same loops as the C code.
  - Each inner loop is a method of its own: `LoadPixel`, `StorePixel`
    and `FreeRows`. The body of the outer loop of `data_to_image` is
    `PackPixel`.
  - Each method is proved against the value-level reshapes.
  - `ImageRoundTrip` composes the two routines.

Doubles are modelled as `real`, and `width`, `height` and `channels` as
`nat`.

## Model

| member | source | states |
|---|---|---|
| `Memory.Allocator.AllocRowPointers` | src/image_compressor.c:31 | `malloc` of the row-pointer table. It either fails, returning null, owning nothing new and counting one more failure, or returns a fresh table of the requested length that is now owned, with the failure count unchanged. |
| `Memory.Allocator.AllocDoubles` | src/image_compressor.c:41 | `malloc` of one pixel's row of doubles. It either fails, returning null, owning nothing new and counting one more failure, or returns a fresh row of the requested length that is now owned, with the failure count unchanged. |
| `Memory.Allocator.Free` | src/image_compressor.c:48 | `free` of an owned block. The block stops being owned; nothing else changes, the failure count included. |
| `PixelData.FlatIndex` | src/image_compressor.c:57 | The index expression `i * channels + j` of both routines. It carries no contract of its own; the five lemmas after it state its properties. |
| `PixelData.FlatIndexDecodes` | src/image_compressor.c:57 | For `j < channels`, the index decodes back to pixel `i` as its quotient and channel `j` as its remainder by `channels`. |
| `PixelData.FlatIndexInBounds` | src/image_compressor.c:57 | For `i < width*height` and `j < channels`, the index `i*channels + j` is below `width*height*channels`, so it stays inside the buffer. |
| `PixelData.FlatIndexInjective` | src/image_compressor.c:77 | Distinct `(i, j)` with `j < channels` give distinct indices, so no slot is written twice. |
| `PixelData.FlatIndexOrder` | src/image_compressor.c:75-78 | The nested loops visit indices in increasing order: `(a, b)` maps below `(i, j)` exactly when it comes first lexicographically. |
| `PixelData.FlatIndexSplit` | src/image_compressor.c:75-78 | Every index below `width*height*channels` is `i*channels + j` for some pixel `i < width*height` and channel `j < channels`, so the loops reach every slot of the packed region. |
| `PixelData.Truncate` | src/image_compressor.c:77 | The `(uint8_t)` cast of a double. Defined for values in (-1, 256). The result is the largest byte not above a non-negative value, and 0 for a value in (-1, 0). |
| `PixelData.AsReals` | src/image_compressor.c:57 | The `(double)` conversion of each byte of one pixel: same length, and every entry is a whole number in [0, 255] whose floor is the byte. |
| `PixelData.Truncated` | src/image_compressor.c:77 | The `(uint8_t)` cast applied to each component of one row. Component `k` becomes `Truncate` of component `k`, so `Truncate`'s contract describes every byte. |
| `PixelData.ToVectors` | src/image_compressor.c:28-62 | The table `image_to_data` builds, as values: `width*height` vectors of length `channels`, each entry an integral value in [0, 255]. |
| `PixelData.ToVectorsAt` | src/image_compressor.c:56-58 | Entry `[i][j]` of that table is byte `i*channels + j` of the image, as a real. |
| `PixelData.FromVectors` | src/image_compressor.c:70-80 | The bytes `data_to_image` writes, as values: `|vectors| * channels` bytes. |
| `PixelData.FromVectorsAt` | src/image_compressor.c:76-78 | Byte `i*channels + j` of the packed buffer is the truncation of component `j` of vector `i`. |
| `PixelData.PackedAgrees` | src/image_compressor.c:75-79 | A buffer whose bytes `i*channels + j` each hold the truncation of `[i][j]` starts with exactly the packed vectors. |
| `PixelData.PackStep` | src/image_compressor.c:75-79 | One pass of the outer loop of `data_to_image`, on values. A buffer packed up to pixel `i` in which pixel `i`'s slots now hold its truncated row, with every other byte unchanged, is packed up to pixel `i + 1`. The bytes beyond stay the original's. |
| `PixelData.FromVectorsPrefix` | src/image_compressor.c:75-79 | Packing the first `i + 1` vectors is packing the first `i` followed by vector `i`, truncated. |
| `PixelData.TruncateByteValue` | src/image_compressor.c:77 | The cast is the identity on integral values in [0, 255]. |
| `PixelData.BufferRoundTrip` | src/image_compressor.c:56-78 | Reading `width*height` pixels into vectors and packing them back gives exactly the first `width*height*channels` bytes of the image. |
| `PixelData.RestoredBuffer` | src/image_compressor.c:56-78 | A buffer whose first `width*height*channels` bytes were overwritten with the packed vectors read from them, the rest kept, is the buffer it started as. |
| `PixelData.VectorRoundTrip` | src/image_compressor.c:56-78 | Vectors of integral values in [0, 255] survive packing and reading back unchanged. |
| `PixelData.HalfwayTruncatesDown` | src/image_compressor.c:77 | The cast truncates rather than rounds: (127.5, 0.75, 255.9) packs to (127, 0, 255). |
| `ImageCompressor.ImageToData` | src/image_compressor.c:28-62 | It returns null exactly when one allocation failed: the failure count rose by one and the owned blocks are as before. Otherwise it returns a fresh table and no allocation failed. On success the table has `width*height` distinct fresh rows of length `channels`, entry `[i][j]` equals byte `i*channels + j`, the table equals `ToVectors` of the image, and the owned blocks gained exactly the table and its rows. The image is only read. |
| `ImageCompressor.FreeRows` | src/image_compressor.c:47-49 | The cleanup loop frees each of the first `count` rows once and nothing else. |
| `ImageCompressor.LoadPixel` | src/image_compressor.c:56-58 | After the inner loop of `image_to_data`, each of the row's `channels` slots `j` holds byte `i*channels + j` of the image. |
| `ImageCompressor.LoadedRowsCastable` | src/image_compressor.c:57 | Rows read from an 8-bit image hold values that the `(uint8_t)` cast accepts. |
| `ImageCompressor.DataToImage` | src/image_compressor.c:70-80 | The first `width*height*channels` bytes become `FromVectors` of the table's rows, and every byte beyond them keeps its old value. Only the image is modified; the table and its rows are not. |
| `ImageCompressor.PackPixel` | src/image_compressor.c:75-79 | One pass of the outer loop of `data_to_image`: a buffer packed up to pixel `i` from the table's rows becomes one packed up to pixel `i + 1`, and the bytes beyond keep the original's values. |
| `ImageCompressor.StorePixel` | src/image_compressor.c:76-78 | After the inner loop of `data_to_image`, byte `i*channels + j` holds the truncation of slot `j` of the row for every `j < channels`, and every byte outside pixel `i`'s slots keeps its old value. |
| `ImageCompressor.ImageRoundTrip` | src/image_compressor.c:28-80 | Running `image_to_data` and then, if it succeeded, `data_to_image` on its table leaves every byte of the image as it was. |

## Left out

- The k-means model, its training and its prediction are not part of this model. They come from `k_means.h`, whose source is not available.
- `compress_image` is declared in src/image_compressor.h but has no body, so there is nothing to model.
- Image decoding and encoding through stb_image and stb_image_write are foreign I/O code and are left out.
- The `fprintf(stderr, ...)` diagnostics on allocation failure are output only; the failure shows up as the null result.
- `malloc`/`free` are modelled as ownership of blocks (the ghost set `live`), not as a heap layout.
  - Whether `malloc(0)` returns NULL is left open: both outcomes are allowed.
- C `int` arithmetic is not modelled. `width`, `height` and `channels` are natural numbers, and the routines require `width*height*channels <= image.Length`. An overflow of `width * height` or `i * channels + j` is outside the model.
- `double` is modelled as an exact `real`: rounding of floating-point values, NaN and infinities are not modelled. The conversion of a byte to `double` is exact in both.
- `Truncate`: the `(uint8_t)` cast is undefined in C when the truncated value does not fit in 8 bits. The precondition is therefore -1 < x < 256, as C defines the cast, rather than [0, 256); values in (-1, 0) truncate to 0.
- `ImageToData`: the C code stores the pointer `malloc` returned into slot `i` before testing it for NULL. The model tests it first and stores only a non-null row. After a failure the table itself is freed, so the difference cannot be observed.
- `DataToImage`: the precondition requires every entry of the table to be within the cast's defined range. The C code has no such check; values outside that range are undefined behaviour there.
- `FlatIndex`: it carries no postcondition of its own. A postcondition on it would be instantiated at every use, and the arithmetic it adds pushes the proofs that use it past the verifier's resource limit. Its properties are the lemmas `FlatIndexOrder`, `FlatIndexInjective`, `FlatIndexInBounds`, `FlatIndexSplit` and `FlatIndexDecodes`.
- `Truncated`: it carries no postcondition of its own, for the same reason. Its bytes are described by `Truncate`'s contract and by the lemmas `FromVectorsAt` and `PackedAgrees`.
