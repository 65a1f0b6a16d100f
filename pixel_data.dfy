/**
 * The pixel-data adapter of the image compressor, on values: a packed,
 * channel-interleaved 8-bit image buffer, and the per-pixel channel
 * vectors (rows of C doubles) that the clustering engine works on.
 *
 * `ToVectors` and `FromVectors` define the two reshapes by chunking the
 * buffer one pixel at a time; the lemmas below connect that definition
 * to the index arithmetic `i * channels + j` that the C code uses, and
 * prove that the two reshapes are inverse to each other on whole-number
 * byte values.
 */
module PixelData {

  /** C's `uint8_t`. */
  newtype byte = b: int | 0 <= b < 256

  /** Position of channel `j` of pixel `i` in a buffer with `channels` interleaved channels per pixel. */
  function FlatIndex(i: nat, j: nat, channels: nat): nat
  {
    i * channels + j
  }

  lemma MulMonotone(x: nat, y: nat, c: nat)
    requires x <= y
    ensures x * c <= y * c
  {
  }

  /** The slots of pixel `i + 1` start right after those of pixel `i`. */
  lemma FlatIndexNext(i: nat, j: nat, channels: nat)
    ensures FlatIndex(i + 1, j, channels) == channels + FlatIndex(i, j, channels)
  {
  }

  /**
   * Flat positions are ordered exactly as the (pixel, channel) pairs are
   * ordered lexicographically.
   */
  lemma FlatIndexOrder(a: nat, b: nat, i: nat, j: nat, channels: nat)
    requires b < channels && j < channels
    ensures FlatIndex(a, b, channels) < FlatIndex(i, j, channels) <==> a < i || (a == i && b < j)
  {
    if a < i {
      MulMonotone(a + 1, i, channels);
      FlatIndexNext(a, 0, channels);
      assert FlatIndex(a, b, channels) < FlatIndex(a + 1, 0, channels) <= FlatIndex(i, j, channels);
    } else if i < a {
      MulMonotone(i + 1, a, channels);
      FlatIndexNext(i, 0, channels);
      assert FlatIndex(i, j, channels) < FlatIndex(i + 1, 0, channels) <= FlatIndex(a, b, channels);
    }
  }

  /** Distinct (pixel, channel) pairs land on distinct buffer positions. */
  lemma FlatIndexInjective(a: nat, b: nat, i: nat, j: nat, channels: nat)
    requires b < channels && j < channels
    requires FlatIndex(a, b, channels) == FlatIndex(i, j, channels)
    ensures a == i && b == j
  {
    FlatIndexOrder(a, b, i, j, channels);
    FlatIndexOrder(i, j, a, b, channels);
  }

  /** Every (pixel, channel) pair of an image of `pixels` pixels lies inside its `pixels * channels` bytes. */
  lemma FlatIndexInBounds(i: nat, j: nat, pixels: nat, channels: nat)
    requires i < pixels && j < channels
    ensures FlatIndex(i, j, channels) < pixels * channels
  {
    FlatIndexOrder(i, j, pixels, 0, channels);
  }

  /** Every position of the first `pixels * channels` bytes is the flat index of some (pixel, channel) pair. */
  lemma FlatIndexSplit(k: nat, pixels: nat, channels: nat)
    requires k < pixels * channels
    ensures channels > 0
    ensures k / channels < pixels && k % channels < channels
    ensures FlatIndex(k / channels, k % channels, channels) == k
  {
  }

  /** A flat position decodes back to its pixel (the quotient) and channel (the remainder). */
  lemma FlatIndexDecodes(i: nat, j: nat, channels: nat)
    requires j < channels
    ensures FlatIndex(i, j, channels) / channels == i && FlatIndex(i, j, channels) % channels == j
  {
    var k := FlatIndex(i, j, channels);
    FlatIndexInBounds(i, j, i + 1, channels);
    FlatIndexSplit(k, i + 1, channels);
    FlatIndexInjective(k / channels, k % channels, i, j, channels);
  }

  /**
   * The C conversion `(uint8_t) x` of a double: the fractional part is
   * discarded (truncation toward zero), and the conversion is defined
   * only when the truncated value fits in 8 bits.
   */
  predicate InByteCastRange(x: real)
  {
    -1.0 < x < 256.0
  }

  function Truncate(x: real): (b: byte)
    requires InByteCastRange(x)
    ensures 0.0 <= x ==> b as real <= x < b as real + 1.0
    ensures x < 0.0 ==> b == 0
  {
    if x < 0.0 then 0 else x.Floor as byte
  }

  /** A double that holds a whole number in [0, 255], as every value read from a `uint8_t` does. */
  predicate IsByteValue(x: real)
  {
    0.0 <= x <= 255.0 && x.Floor as real == x
  }

  /** The conversion `(double) image[k]`, channel by channel. */
  function AsReals(s: seq<byte>): (r: seq<real>)
    ensures |r| == |s|
    ensures forall k | 0 <= k < |r| :: IsByteValue(r[k]) && r[k].Floor == s[k] as int
  {
    seq(|s|, k requires 0 <= k < |s| => s[k] as real)
  }

  /** Truncation to `uint8_t`, channel by channel. */
  function Truncated(v: seq<real>): seq<byte>
    requires forall k | 0 <= k < |v| :: InByteCastRange(v[k])
  {
    seq(|v|, k requires 0 <= k < |v| => Truncate(v[k]))
  }

  /** Every vector has exactly `channels` components. */
  predicate Shaped(vectors: seq<seq<real>>, channels: nat)
  {
    forall i | 0 <= i < |vectors| :: |vectors[i]| == channels
  }

  /** Every component may be converted to `uint8_t`. */
  predicate Castable(vectors: seq<seq<real>>)
  {
    forall i, j | 0 <= i < |vectors| && 0 <= j < |vectors[i]| :: InByteCastRange(vectors[i][j])
  }

  /**
   * The first `pixels * channels` bytes of an interleaved image, split
   * into one vector of `channels` doubles per pixel.
   */
  function ToVectors(image: seq<byte>, pixels: nat, channels: nat): (vectors: seq<seq<real>>)
    requires pixels * channels <= |image|
    ensures |vectors| == pixels && Shaped(vectors, channels)
    ensures forall i, j | 0 <= i < pixels && 0 <= j < channels :: IsByteValue(vectors[i][j])
    decreases pixels
  {
    if pixels == 0 then
      []
    else
      assert pixels * channels == (pixels - 1) * channels + channels;
      [AsReals(image[..channels])] + ToVectors(image[channels..], pixels - 1, channels)
  }

  /** The vectors packed back into an interleaved buffer, each component truncated to 8 bits. */
  function FromVectors(vectors: seq<seq<real>>, channels: nat): (image: seq<byte>)
    requires Shaped(vectors, channels) && Castable(vectors)
    ensures |image| == |vectors| * channels
  {
    if vectors == [] then
      []
    else
      Truncated(vectors[0]) + FromVectors(vectors[1..], channels)
  }

  /** Truncating one more component appends its truncation. */
  lemma TruncatedSnoc(v: seq<real>, j: nat)
    requires j < |v| && forall k | 0 <= k < |v| :: InByteCastRange(v[k])
    ensures Truncated(v[..j + 1]) == Truncated(v[..j]) + [Truncate(v[j])]
  {
  }

  /** Packing one more vector appends its truncated components. */
  lemma {:induction false} FromVectorsSnoc(vectors: seq<seq<real>>, v: seq<real>, channels: nat)
    requires Shaped(vectors, channels) && Castable(vectors)
    requires |v| == channels && forall k | 0 <= k < |v| :: InByteCastRange(v[k])
    ensures Shaped(vectors + [v], channels) && Castable(vectors + [v])
    ensures FromVectors(vectors + [v], channels) == FromVectors(vectors, channels) + Truncated(v)
  {
    var extended := vectors + [v];
    forall i | 0 <= i < |extended|
      ensures |extended[i]| == channels
      ensures forall j | 0 <= j < |extended[i]| :: InByteCastRange(extended[i][j])
    {
      if i < |vectors| {
        assert extended[i] == vectors[i];
      }
    }
    if vectors == [] {
      assert extended[1..] == [];
    } else {
      var rest := vectors[1..];
      assert extended[0] == vectors[0];
      assert extended[1..] == rest + [v];
      FromVectorsSnoc(rest, v, channels);
      assert FromVectors(extended, channels) == Truncated(vectors[0]) + (FromVectors(rest, channels) + Truncated(v));
    }
  }

  /** Packing the first `i + 1` vectors extends the packing of the first `i` by vector `i`, truncated. */
  lemma FromVectorsPrefix(vectors: seq<seq<real>>, channels: nat, i: nat)
    requires Shaped(vectors, channels) && Castable(vectors)
    requires i < |vectors|
    ensures Shaped(vectors[..i], channels) && Castable(vectors[..i])
    ensures Shaped(vectors[..i + 1], channels) && Castable(vectors[..i + 1])
    ensures FromVectors(vectors[..i + 1], channels) == FromVectors(vectors[..i], channels) + Truncated(vectors[i])
  {
    assert vectors[..i + 1] == vectors[..i] + [vectors[i]];
    FromVectorsSnoc(vectors[..i], vectors[i], channels);
  }

  /**
   * Packing in place has reached vector `i`: the buffer holds the first
   * `i` vectors packed, followed by what `original` holds from byte
   * `i * channels` on.
   */
  predicate PackedUpTo(buffer: seq<byte>, original: seq<byte>, vectors: seq<seq<real>>, channels: nat, i: nat)
  {
    && Shaped(vectors, channels) && Castable(vectors)
    && i <= |vectors| && FlatIndex(i, 0, channels) <= |original|
    && Shaped(vectors[..i], channels) && Castable(vectors[..i])
    && buffer == FromVectors(vectors[..i], channels) + original[FlatIndex(i, 0, channels)..]
  }

  /**
   * A buffer that agrees with `before` everywhere except on `|stored|`
   * bytes from `lo`, where it holds `stored`, is that splice of `before`.
   */
  lemma Splice(before: seq<byte>, after: seq<byte>, stored: seq<byte>, lo: nat)
    requires |after| == |before| && lo + |stored| <= |before|
    requires forall t | 0 <= t < |stored| :: after[lo + t] == stored[t]
    requires forall k | 0 <= k < |after| && !(lo <= k < lo + |stored|) :: after[k] == before[k]
    ensures after == before[..lo] + stored + before[lo + |stored|..]
  {
    var spliced := before[..lo] + stored + before[lo + |stored|..];
    forall k | 0 <= k < |after|
      ensures after[k] == spliced[k]
    {
      if lo <= k < lo + |stored| {
        assert after[lo + (k - lo)] == stored[k - lo];
      }
    }
  }

  /**
   * One step of packing in place: storing vector `i`, truncated, over
   * bytes `i * channels` to `(i + 1) * channels` advances the packing by
   * one vector.
   */
  lemma PackStep(before: seq<byte>, after: seq<byte>, original: seq<byte>, vectors: seq<seq<real>>, channels: nat, i: nat)
    requires PackedUpTo(before, original, vectors, channels, i)
    requires i < |vectors| && |after| == |before| && FlatIndex(i, 0, channels) + channels <= |after|
    requires forall j | 0 <= j < channels :: after[FlatIndex(i, j, channels)] == Truncate(vectors[i][j])
    requires forall k | 0 <= k < |after| && !(FlatIndex(i, 0, channels) <= k < FlatIndex(i, 0, channels) + channels) ::
      after[k] == before[k]
    ensures PackedUpTo(after, original, vectors, channels, i + 1)
  {
    FromVectorsPrefix(vectors, channels, i);
    var lo, hi := FlatIndex(i, 0, channels), FlatIndex(i + 1, 0, channels);
    FlatIndexNext(i, 0, channels);
    var stored := Truncated(vectors[i]);
    forall t | 0 <= t < |stored|
      ensures after[lo + t] == stored[t]
    {
      assert lo + t == FlatIndex(i, t, channels);
    }
    Splice(before, after, stored, lo);
    assert |before| == |original|;
    assert before[..lo] == FromVectors(vectors[..i], channels);
    assert before[hi..] == original[hi..];
  }

  /** Component `j` of vector `i` is the byte at flat position `i * channels + j`. */
  lemma {:induction false} ToVectorsAt(image: seq<byte>, pixels: nat, channels: nat, i: nat, j: nat)
    requires pixels * channels <= |image|
    requires i < pixels && j < channels
    ensures FlatIndex(i, j, channels) < pixels * channels
    ensures ToVectors(image, pixels, channels)[i][j] == image[FlatIndex(i, j, channels)] as real
  {
    FlatIndexInBounds(i, j, pixels, channels);
    FlatIndexNext(pixels - 1, 0, channels);
    var rest := image[channels..];
    var head := AsReals(image[..channels]);
    var tail := ToVectors(rest, pixels - 1, channels);
    assert ToVectors(image, pixels, channels) == [head] + tail;
    if i == 0 {
      assert FlatIndex(i, j, channels) == j;
      assert head[j] == image[j] as real;
    } else {
      var k := FlatIndex(i - 1, j, channels);
      ToVectorsAt(rest, pixels - 1, channels, i - 1, j);
      assert tail[i - 1][j] == rest[k] as real;
      FlatIndexNext(i - 1, j, channels);
      assert rest[k] == image[channels + k];
    }
  }

  /** Byte `i * channels + j` of the packed buffer is component `j` of vector `i`, truncated. */
  lemma {:induction false} FromVectorsAt(vectors: seq<seq<real>>, channels: nat, i: nat, j: nat)
    requires Shaped(vectors, channels) && Castable(vectors)
    requires i < |vectors| && j < channels
    ensures FlatIndex(i, j, channels) < |vectors| * channels
    ensures FromVectors(vectors, channels)[FlatIndex(i, j, channels)] == Truncate(vectors[i][j])
  {
    FlatIndexInBounds(i, j, |vectors|, channels);
    var packed := FromVectors(vectors, channels);
    var head := Truncated(vectors[0]);
    var rest := vectors[1..];
    var tail := FromVectors(rest, channels);
    assert packed == head + tail;
    assert |head| == channels;
    if i == 0 {
      assert FlatIndex(i, j, channels) == j;
      assert packed[j] == head[j];
    } else {
      var k := FlatIndex(i - 1, j, channels);
      assert rest[i - 1] == vectors[i];
      FromVectorsAt(rest, channels, i - 1, j);
      assert tail[k] == Truncate(vectors[i][j]);
      FlatIndexNext(i - 1, j, channels);
      assert packed[channels + k] == tail[k];
    }
  }

  /**
   * A buffer holds the packed vectors exactly when, for every pixel `i`
   * and channel `j`, its byte `i * channels + j` is component `j` of
   * vector `i`, truncated.
   */
  lemma PackedAgrees(image: seq<byte>, vectors: seq<seq<real>>, channels: nat)
    requires Shaped(vectors, channels) && Castable(vectors)
    requires |vectors| * channels <= |image|
    requires forall i, j | 0 <= i < |vectors| && 0 <= j < channels ::
      FlatIndex(i, j, channels) < |image| && image[FlatIndex(i, j, channels)] == Truncate(vectors[i][j])
    ensures image[..|vectors| * channels] == FromVectors(vectors, channels)
  {
    var packed := FromVectors(vectors, channels);
    forall k | 0 <= k < |vectors| * channels
      ensures image[k] == packed[k]
    {
      FlatIndexSplit(k, |vectors|, channels);
      var i, j := k / channels, k % channels;
      assert k == FlatIndex(i, j, channels);
      FromVectorsAt(vectors, channels, i, j);
      assert packed[k] == Truncate(vectors[i][j]);
      assert image[k] == Truncate(vectors[i][j]);
    }
  }

  /** Truncating a whole number in [0, 255] gives that number back. */
  lemma TruncateByteValue(x: real)
    requires IsByteValue(x)
    ensures InByteCastRange(x) && Truncate(x) as real == x
  {
  }

  /**
   * Round trip from the buffer side: splitting the first `pixels * channels`
   * bytes into vectors and packing them again restores those bytes exactly.
   */
  lemma {:induction false} BufferRoundTrip(image: seq<byte>, pixels: nat, channels: nat)
    requires pixels * channels <= |image|
    ensures Castable(ToVectors(image, pixels, channels))
    ensures FromVectors(ToVectors(image, pixels, channels), channels) == image[..pixels * channels]
  {
    var vectors := ToVectors(image, pixels, channels);
    forall i, j | 0 <= i < |vectors| && 0 <= j < |vectors[i]|
      ensures InByteCastRange(vectors[i][j])
    {
      TruncateByteValue(vectors[i][j]);
    }
    if pixels > 0 {
      FlatIndexNext(pixels - 1, 0, channels);
      var rest := image[channels..];
      var head := AsReals(image[..channels]);
      BufferRoundTrip(rest, pixels - 1, channels);
      assert vectors[0] == head && vectors[1..] == ToVectors(rest, pixels - 1, channels);
      forall k | 0 <= k < channels
        ensures Truncate(head[k]) == image[k]
      {
        TruncateByteValue(head[k]);
      }
      assert Truncated(head) == image[..channels];
      assert FromVectors(vectors, channels) == Truncated(head) + FromVectors(vectors[1..], channels);
      assert rest[..(pixels - 1) * channels] == image[channels..pixels * channels];
      assert image[..pixels * channels] == image[..channels] + image[channels..pixels * channels];
    }
  }

  /**
   * Writing the vectors read from a buffer back over its first
   * `pixels * channels` bytes restores the buffer.
   */
  lemma RestoredBuffer(original: seq<byte>, after: seq<byte>, pixels: nat, channels: nat)
    requires pixels * channels <= |original|
    requires Castable(ToVectors(original, pixels, channels))
    requires after == FromVectors(ToVectors(original, pixels, channels), channels) + original[pixels * channels..]
    ensures after == original
  {
    BufferRoundTrip(original, pixels, channels);
    assert original[..pixels * channels] + original[pixels * channels..] == original;
  }

  /**
   * Round trip from the vector side: vectors of whole numbers in [0, 255]
   * survive packing and splitting unchanged.  (Fractional components do
   * not: truncation drops them.)
   */
  lemma {:induction false} VectorRoundTrip(vectors: seq<seq<real>>, channels: nat)
    requires Shaped(vectors, channels)
    requires forall i, j | 0 <= i < |vectors| && 0 <= j < channels :: IsByteValue(vectors[i][j])
    ensures Castable(vectors)
    ensures ToVectors(FromVectors(vectors, channels), |vectors|, channels) == vectors
  {
    forall i, j | 0 <= i < |vectors| && 0 <= j < |vectors[i]|
      ensures InByteCastRange(vectors[i][j])
    {
      TruncateByteValue(vectors[i][j]);
    }
    if vectors != [] {
      var image := FromVectors(vectors, channels);
      VectorRoundTrip(vectors[1..], channels);
      assert image[..channels] == Truncated(vectors[0]);
      assert image[channels..] == FromVectors(vectors[1..], channels);
      forall j | 0 <= j < channels
        ensures AsReals(Truncated(vectors[0]))[j] == vectors[0][j]
      {
        TruncateByteValue(vectors[0][j]);
      }
      assert AsReals(Truncated(vectors[0])) == vectors[0];
      assert vectors == [vectors[0]] + vectors[1..];
    }
  }

  /**
   * Truncation, not rounding: a pixel whose vector is (127.5, 0.75, 255.9)
   * packs to the bytes (127, 0, 255).
   */
  lemma HalfwayTruncatesDown()
    ensures FromVectors([[127.5, 0.75, 255.9]], 3) == [127, 0, 255]
  {
  }
}
