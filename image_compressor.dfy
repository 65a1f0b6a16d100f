/**
 * The two reshaping routines of the image compressor, over arrays, as the
 * C code runs them: `image_to_data` builds a table of freshly allocated
 * per-pixel rows from an interleaved 8-bit buffer, and `data_to_image`
 * writes such a table back into the buffer in place.  Each is proved
 * against the value-level reshapes of module PixelData.
 */
module ImageCompressor {
  import opened PixelData
  import opened Memory

  /** The first `pixels` entries of the table point to rows of at least `channels` doubles. */
  ghost predicate RowsReady(table: array<array?<real>>, pixels: nat, channels: nat)
    reads table
  {
    pixels <= table.Length &&
    forall i | 0 <= i < pixels :: table[i] != null && channels <= table[i].Length
  }

  /** The first `channels` doubles of each of the first `pixels` rows of the table. */
  ghost function Rows(table: array<array?<real>>, pixels: nat, channels: nat): (rows: seq<seq<real>>)
    requires RowsReady(table, pixels, channels)
    reads table, set i | 0 <= i < pixels :: table[i]
    ensures |rows| == pixels && forall i | 0 <= i < pixels :: |rows[i]| == channels
    ensures forall i, j | 0 <= i < pixels && 0 <= j < channels :: rows[i][j] == table[i][j]
  {
    if pixels == 0 then [] else Rows(table, pixels - 1, channels) + [table[pixels - 1][..channels]]
  }

  lemma RowsAt(table: array<array?<real>>, pixels: nat, channels: nat, i: nat)
    requires RowsReady(table, pixels, channels) && i < pixels
    ensures Rows(table, pixels, channels)[i] == table[i][..channels]
  {
  }

  lemma RowsCastable(table: array<array?<real>>, pixels: nat, channels: nat)
    requires RowsReady(table, pixels, channels)
    requires forall i, j | 0 <= i < pixels && 0 <= j < channels :: InByteCastRange(table[i][j])
    ensures Shaped(Rows(table, pixels, channels), channels) && Castable(Rows(table, pixels, channels))
  {
  }

  /** Rows loaded from an 8-bit image hold byte values, which the narrowing cast accepts. */
  lemma LoadedRowsCastable(table: array<array?<real>>, image: seq<byte>, pixels: nat, channels: nat)
    requires RowsReady(table, pixels, channels) && pixels * channels <= |image|
    requires Rows(table, pixels, channels) == ToVectors(image, pixels, channels)
    ensures forall i, j | 0 <= i < pixels && 0 <= j < channels :: InByteCastRange(table[i][j])
  {
  }

  /** The rows a sequence of row pointers points to, as heap blocks. */
  ghost function RowBlocks(rows: seq<array?<real>>): set<object>
  {
    set i | 0 <= i < |rows| && rows[i] != null :: rows[i] as object
  }

  lemma RowBlocksAppend(rows: seq<array?<real>>, row: array<real>)
    ensures RowBlocks(rows + [row]) == RowBlocks(rows) + {row}
  {
    var extended := rows + [row];
    assert extended[|rows|] == row;
    forall o | o in RowBlocks(rows)
      ensures o in RowBlocks(extended)
    {
      var i :| 0 <= i < |rows| && rows[i] != null && o == rows[i];
      assert extended[i] == rows[i];
    }
  }

  lemma RowBlocksDropFirst(rows: seq<array?<real>>)
    requires rows != [] && rows[0] != null
    requires forall i | 1 <= i < |rows| :: rows[i] != rows[0]
    ensures rows[0] in RowBlocks(rows)
    ensures RowBlocks(rows[1..]) == RowBlocks(rows) - {rows[0]}
  {
  }

  /**
   * `image_to_data`: allocate a table of `width * height` row pointers,
   * then, pixel by pixel, a row of `channels` doubles holding that pixel's
   * channel values.  If any allocation fails, every block allocated so far
   * is freed and NULL is returned, so the heap owns exactly what it owned
   * before.  The image buffer is only read.
   */
  method ImageToData(image: array<byte>, width: nat, height: nat, channels: nat, heap: Allocator)
    returns (table: array?<array?<real>>)
    requires width * height * channels <= image.Length
    modifies heap
    ensures table == null ==> heap.live == old(heap.live) && heap.failures == old(heap.failures) + 1
    ensures table != null ==>
      && fresh(table) && table.Length == width * height
      && RowsReady(table, width * height, channels)
      && (forall i | 0 <= i < width * height :: fresh(table[i]) && table[i].Length == channels)
      && (forall i, k | 0 <= i < k < width * height :: table[i] != table[k])
      && (forall i, j | 0 <= i < width * height && 0 <= j < channels ::
            FlatIndex(i, j, channels) < image.Length && table[i][j] == image[FlatIndex(i, j, channels)] as real)
      && Rows(table, width * height, channels) == ToVectors(image[..], width * height, channels)
      && heap.live == old(heap.live) + {table} + RowBlocks(table[..])
      && heap.failures == old(heap.failures)
  {
    var pixels := width * height;
    table := heap.AllocRowPointers(pixels);
    if table == null {
      return;
    }
    ghost var before := old(heap.live);
    for i := 0 to pixels
      invariant table.Length == pixels
      invariant forall a | 0 <= a < i :: table[a] != null && fresh(table[a]) && table[a].Length == channels
      invariant forall a, b | 0 <= a < b < i :: table[a] != table[b]
      invariant forall a, j | 0 <= a < i && 0 <= j < channels ::
        FlatIndex(a, j, channels) < image.Length && table[a][j] == image[FlatIndex(a, j, channels)] as real
      invariant heap.live == before + {table} + RowBlocks(table[..i])
      invariant heap.failures == old(heap.failures)
    {
      var row := heap.AllocDoubles(channels);
      if row == null {
        FreeRows(heap, table, i);
        assert heap.live == before + {table};
        heap.Free(table);
        return null;
      }
      ghost var built := table[..i];
      assert FlatIndex(i + 1, 0, channels) <= pixels * channels by {
        MulMonotone(i + 1, pixels, channels);
      }
      table[i] := row;
      assert table[..i] == built;
      LoadPixel(image, row, i, channels);
      assert table[..i + 1] == built + [row];
      RowBlocksAppend(built, row);
    }
    forall i | 0 <= i < pixels
      ensures Rows(table, pixels, channels)[i] == ToVectors(image[..], pixels, channels)[i]
    {
      forall j | 0 <= j < channels
        ensures Rows(table, pixels, channels)[i][j] == ToVectors(image[..], pixels, channels)[i][j]
      {
        ToVectorsAt(image[..], pixels, channels, i, j);
      }
    }
    assert table[..] == table[..pixels];
  }

  /**
   * The cleanup loop of `image_to_data`: free the first `count` rows of
   * the table, each of them once.
   */
  method FreeRows(heap: Allocator, table: array<array?<real>>, count: nat)
    requires count <= table.Length
    requires forall a | 0 <= a < count :: table[a] != null
    requires forall a, b | 0 <= a < b < count :: table[a] != table[b]
    requires RowBlocks(table[..count]) <= heap.live
    modifies heap
    ensures heap.live == old(heap.live) - RowBlocks(table[..count]) && heap.failures == old(heap.failures)
  {
    assert table[0..count] == table[..count];
    for k := 0 to count
      invariant RowBlocks(table[k..count]) <= heap.live
      invariant heap.live == old(heap.live) - RowBlocks(table[..count]) + RowBlocks(table[k..count])
      invariant heap.failures == old(heap.failures)
    {
      RowBlocksDropFirst(table[k..count]);
      assert table[k..count][1..] == table[k + 1..count];
      heap.Free(table[k]);
    }
  }

  /**
   * The inner loop of `image_to_data`: channel `j` of pixel `i`, byte
   * `i * channels + j` of the image, converted to a double, stored in
   * slot `j` of the pixel's row.
   */
  method LoadPixel(image: array<byte>, row: array<real>, i: nat, channels: nat)
    requires row.Length == channels
    requires FlatIndex(i + 1, 0, channels) <= image.Length
    modifies row
    ensures forall j | 0 <= j < channels ::
      FlatIndex(i, j, channels) < image.Length && row[j] == image[FlatIndex(i, j, channels)] as real
  {
    FlatIndexNext(i, 0, channels);
    for j := 0 to channels
      invariant forall c | 0 <= c < j ::
        FlatIndex(i, c, channels) < image.Length && row[c] == image[FlatIndex(i, c, channels)] as real
    {
      row[j] := image[FlatIndex(i, j, channels)] as real;
    }
  }

  /**
   * `data_to_image`: for every pixel `i` and channel `j`, write channel `j`
   * of row `i` of the table, truncated to 8 bits, into byte
   * `i * channels + j` of the image.  The first `width * height * channels`
   * bytes become the packed rows; the bytes after them, and the table,
   * are left as they were.
   */
  method DataToImage(table: array<array?<real>>, image: array<byte>, width: nat, height: nat, channels: nat)
    requires RowsReady(table, width * height, channels)
    requires forall i, j | 0 <= i < width * height && 0 <= j < channels :: InByteCastRange(table[i][j])
    requires width * height * channels <= image.Length
    modifies image
    ensures Castable(Rows(table, width * height, channels))
    ensures image[..] ==
      FromVectors(Rows(table, width * height, channels), channels) + old(image[..])[width * height * channels..]
  {
    var pixels := width * height;
    ghost var vectors := Rows(table, pixels, channels);
    RowsCastable(table, pixels, channels);
    for i := 0 to pixels
      invariant PackedUpTo(image[..], old(image[..]), vectors, channels, i)
    {
      PackPixel(table, image, pixels, channels, i, old(image[..]), vectors);
    }
    assert vectors[..pixels] == vectors;
  }

  /**
   * One pass of the outer loop of `data_to_image`: row `i` of the table,
   * truncated, stored over bytes `i * channels` to `(i + 1) * channels`,
   * which advances the packing by one pixel.
   */
  method PackPixel(table: array<array?<real>>, image: array<byte>, pixels: nat, channels: nat, i: nat,
                   ghost original: seq<byte>, ghost vectors: seq<seq<real>>)
    requires RowsReady(table, pixels, channels) && i < pixels
    requires pixels * channels <= |original|
    requires vectors == Rows(table, pixels, channels)
    requires PackedUpTo(image[..], original, vectors, channels, i)
    modifies image
    ensures PackedUpTo(image[..], original, vectors, channels, i + 1)
  {
    assert FlatIndex(i + 1, 0, channels) <= pixels * channels by {
      MulMonotone(i + 1, pixels, channels);
    }
    FlatIndexNext(i, 0, channels);
    ghost var before := image[..];
    StorePixel(table[i], image, i, channels);
    PackStep(before, image[..], original, vectors, channels, i);
  }

  /**
   * The inner loop of `data_to_image`: the `channels` components of one
   * row, truncated, stored at bytes `i * channels + j`; no other byte
   * changes.
   */
  method StorePixel(row: array<real>, image: array<byte>, i: nat, channels: nat)
    requires channels <= row.Length
    requires forall j | 0 <= j < channels :: InByteCastRange(row[j])
    requires FlatIndex(i + 1, 0, channels) <= image.Length
    modifies image
    ensures forall j | 0 <= j < channels :: image[FlatIndex(i, j, channels)] == Truncate(row[j])
    ensures forall k | 0 <= k < image.Length && !(FlatIndex(i, 0, channels) <= k < FlatIndex(i + 1, 0, channels)) ::
      image[k] == old(image[k])
  {
    ghost var base := FlatIndex(i, 0, channels);
    FlatIndexNext(i, 0, channels);
    for j := 0 to channels
      invariant forall c | 0 <= c < j :: image[FlatIndex(i, c, channels)] == Truncate(row[c])
      invariant forall k | 0 <= k < image.Length && !(base <= k < base + j) :: image[k] == old(image[k])
    {
      image[FlatIndex(i, j, channels)] := Truncate(row[j]);
    }
  }

  /**
   * The two routines compose to the identity on the buffer: reading an
   * image into rows and writing those rows straight back leaves every
   * byte as it was, whether or not the allocations succeed.
   */
  method ImageRoundTrip(image: array<byte>, width: nat, height: nat, channels: nat, heap: Allocator)
    returns (table: array?<array?<real>>)
    requires width * height * channels <= image.Length
    modifies image, heap
    ensures image[..] == old(image[..])
  {
    ghost var original := image[..];
    table := ImageToData(image, width, height, channels, heap);
    if table != null {
      LoadedRowsCastable(table, original, width * height, channels);
      DataToImage(table, image, width, height, channels);
      RestoredBuffer(original, image[..], width * height, channels);
    }
  }
}
