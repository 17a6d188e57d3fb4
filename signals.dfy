/**
  The decoded media the analyzers work on, and the signals they derive from it,
  as specification functions with their properties proved.

  - Image: the array a decoder yields for an RGB(A) picture, as rows of pixels,
    each pixel its channel bytes (R, G, B, then any alpha).
  - Audio: the raw PCM frame bytes, read as signed 16-bit samples in the host's native byte order, taken to be little-endian.
  - Video: the sampled frames, each as rows of pixels of channel bytes.
 */
module Signals {
  import opened Wrappers

  newtype byte = x: int | 0 <= x < 256

  /** A pixel of an image with at least the three colour channels R, G, B. */
  type Pixel = p: seq<byte> | |p| >= 3 witness [0, 0, 0]

  /** A decoded image: rows of pixels, in row-major order. */
  type Image = seq<seq<Pixel>>

  /** A decoded video frame: rows of pixels, each pixel its channel bytes. */
  type Frame = seq<seq<seq<byte>>>

  // ---------------------------------------------------------------------------
  // Image: the least-significant-bit plane

  /** `str(b & 1)` for an unsigned byte. */
  function Bit(b: byte): (c: char)
    ensures c == '0' || c == '1'
    ensures c == '1' <==> b as int % 2 == 1
  {
    if b as int % 2 == 1 then '1' else '0'
  }

  /** The three bits one pixel contributes: R, then G, then B; further channels are ignored. */
  function PixelBits(p: Pixel): string
  {
    [Bit(p[0]), Bit(p[1]), Bit(p[2])]
  }

  /** The pixels of an image in row-major order. */
  function Flatten(image: Image): seq<Pixel>
  {
    if |image| == 0 then [] else Flatten(image[..|image| - 1]) + image[|image| - 1]
  }

  /**
    Row-major order keeps every pixel and adds none: a pixel is in the
    flattened image exactly when it is in one of its rows, and the first row
    comes first.
   */
  lemma {:induction false} FlattenSpec(image: Image)
    ensures forall i, p :: 0 <= i < |image| && p in image[i] ==> p in Flatten(image)
    ensures forall p :: p in Flatten(image) ==> exists i :: 0 <= i < |image| && p in image[i]
    ensures |image| > 0 ==> image[0] <= Flatten(image)
  {
    if |image| > 0 {
      var init := image[..|image| - 1];
      var last := image[|image| - 1];
      FlattenSpec(init);
      assert Flatten(image) == Flatten(init) + last;
      if |init| > 0 {
        assert image[0] == init[0];
        assert Flatten(init) <= Flatten(image);
      }
      forall p | p in Flatten(image) ensures exists i :: 0 <= i < |image| && p in image[i] {
        if p in Flatten(init) {
          var i :| 0 <= i < |init| && p in init[i];
          assert image[i] == init[i];
        } else {
          assert p in image[|image| - 1];
        }
      }
      forall i, p | 0 <= i < |image| && p in image[i] ensures p in Flatten(image) {
        if i < |init| {
          assert init[i] == image[i];
        }
      }
    }
  }

  /** The bit string of a run of pixels: the three bits of each pixel, in order. */
  function LsbBits(pixels: seq<Pixel>): string
  {
    if |pixels| == 0 then [] else LsbBits(pixels[..|pixels| - 1]) + PixelBits(pixels[|pixels| - 1])
  }

  /** The least-significant-bit plane of an image: three '0'/'1' characters per pixel. */
  function LsbPlane(image: Image): (r: string)
    ensures |r| == 3 * |Flatten(image)|
    ensures forall i :: 0 <= i < |r| ==> r[i] == '0' || r[i] == '1'
  {
    LsbBitsSpec(Flatten(image));
    LsbBits(Flatten(image))
  }

  /** Three characters per pixel; character 3k+c is channel c (R, G, B) of pixel k, `& 1`. */
  lemma {:induction false} LsbBitsSpec(pixels: seq<Pixel>)
    ensures |LsbBits(pixels)| == 3 * |pixels|
    ensures forall i :: 0 <= i < |LsbBits(pixels)| ==> LsbBits(pixels)[i] == Bit(pixels[i / 3][i % 3])
  {
    if |pixels| > 0 {
      var init := pixels[..|pixels| - 1];
      LsbBitsSpec(init);
      var rest := LsbBits(init);
      assert forall i :: 0 <= i < |rest| ==> i / 3 < |init|;
      assert forall i :: |rest| <= i < |rest| + 3 ==> i / 3 == |init| && i % 3 == i - |rest|;
    }
  }

  /**
    The bit string of an image has three characters per pixel, each '0' or '1';
    character 3k+c is channel c (R, G, B) of the k-th pixel in row-major order, `& 1`.
   */
  lemma LsbPlaneSpec(image: Image)
    ensures |LsbPlane(image)| == 3 * |Flatten(image)|
    ensures forall i :: 0 <= i < |LsbPlane(image)| ==> LsbPlane(image)[i] == Bit(Flatten(image)[i / 3][i % 3])
    ensures forall i :: 0 <= i < |LsbPlane(image)| ==> LsbPlane(image)[i] == '0' || LsbPlane(image)[i] == '1'
  {
    LsbBitsSpec(Flatten(image));
  }

  /** One more pixel of the current row appends its R, G and B bits, in that order. */
  lemma LsbBitsAppend(done: seq<Pixel>, row: seq<Pixel>, c: nat)
    requires c < |row|
    ensures LsbBits(done + row[..c + 1]) ==
              LsbBits(done + row[..c]) + [Bit(row[c][0])] + [Bit(row[c][1])] + [Bit(row[c][2])]
  {
    var next := done + row[..c + 1];
    assert next[..|next| - 1] == done + row[..c];
  }

  /** A row that is started but has no pixel taken yet adds nothing. */
  lemma RowStart(image: Image, r: nat)
    requires r < |image|
    ensures LsbBits(Flatten(image[..r]) + image[r][..0]) == LsbBits(Flatten(image[..r]))
  {
    assert Flatten(image[..r]) + image[r][..0] == Flatten(image[..r]);
  }

  /** A finished row extends the row-major order by all of its pixels. */
  lemma RowDone(image: Image, r: nat)
    requires r < |image|
    ensures LsbBits(Flatten(image[..r]) + image[r][..|image[r]|]) == LsbBits(Flatten(image[..r + 1]))
  {
    assert image[..r + 1][..r] == image[..r];
    assert image[r][..|image[r]|] == image[r];
  }

  /** Once every row is done the bits are the image's bit plane. */
  lemma ImageDone(image: Image)
    ensures LsbBits(Flatten(image[..|image|])) == LsbPlane(image)
  {
    assert image[..|image|] == image;
  }

  /** Every row of the image holds exactly `width` pixels. */
  predicate Rectangular(image: Image, width: nat)
  {
    forall r :: 0 <= r < |image| ==> |image[r]| == width
  }

  /** A W-by-H image has W*H pixels. */
  lemma {:induction false} FlattenLength(image: Image, width: nat)
    requires Rectangular(image, width)
    ensures |Flatten(image)| == |image| * width
  {
    if |image| > 0 {
      var init := image[..|image| - 1];
      FlattenLength(init, width);
      assert Flatten(image) == Flatten(init) + image[|image| - 1];
    }
  }

  /** Pixel (row, col) of a W-wide image is the (row*W + col)-th in row-major order. */
  lemma {:induction false} FlattenAt(image: Image, width: nat, row: nat, col: nat)
    requires Rectangular(image, width) && row < |image| && col < width
    ensures row * width + col < |Flatten(image)| && Flatten(image)[row * width + col] == image[row][col]
  {
    FlattenLength(image, width);
    var init := image[..|image| - 1];
    assert Flatten(image) == Flatten(init) + image[|image| - 1];
    if row < |init| {
      MulLess(row, |init|, width, col);
      FlattenLength(init, width);
      FlattenAt(init, width, row, col);
    } else {
      assert row * width == |init| * width;
    }
  }

  lemma MulLess(row: nat, rows: nat, width: nat, col: nat)
    requires row < rows && col < width
    ensures row * width + col < rows * width
  {
    var k := rows - row - 1;
    assert rows * width == row * width + width + k * width;
  }

  /** In a W-wide image, characters 3(row*W + col) + c, for c = 0, 1, 2, are the R, G, B bits of pixel (row, col). */
  lemma LsbPlaneAt(image: Image, width: nat, row: nat, col: nat, c: nat)
    requires Rectangular(image, width) && row < |image| && col < width && c < 3
    ensures 3 * (row * width + col) + c < |LsbPlane(image)|
    ensures LsbPlane(image)[3 * (row * width + col) + c] == Bit(image[row][col][c])
  {
    FlattenAt(image, width, row, col);
    LsbPlaneSpec(image);
    var k := row * width + col;
    assert (3 * k + c) / 3 == k && (3 * k + c) % 3 == c;
  }

  /** The bit string of a W-by-H image has exactly W*H*3 characters. */
  lemma LsbPlaneLength(image: Image, width: nat)
    requires Rectangular(image, width)
    ensures |LsbPlane(image)| == |image| * width * 3
  {
    FlattenLength(image, width);
  }

  /** An image without pixels gives the empty bit string, and only such an image does. */
  lemma LsbPlaneEmpty(image: Image)
    ensures LsbPlane(image) == [] <==> Flatten(image) == []
  {
    LsbPlaneSpec(image);
  }

  // ---------------------------------------------------------------------------
  // Audio: little-endian 16-bit samples and the indices of odd samples

  predicate IsInt16(x: int)
  {
    -0x8000 <= x < 0x8000
  }

  /** The signed 16-bit value of the two bytes `lo`, `hi` (two's complement, little-endian). */
  function Int16Of(lo: byte, hi: byte): (v: int)
    ensures IsInt16(v)
    ensures v % 2 == lo as int % 2
  {
    var u := lo as int + 0x100 * hi as int;
    if u >= 0x8000 then u - 0x1_0000 else u
  }

  /** `np.frombuffer(bytes, dtype=int16)` on a little-endian host: fails unless the length is a multiple of two. */
  function DecodeInt16(bytes: seq<byte>): (r: Option<seq<int>>)
    ensures r.Some? <==> |bytes| % 2 == 0
    ensures r.Some? ==> |r.value| == |bytes| / 2
    ensures r.Some? ==> forall i :: 0 <= i < |r.value| ==> IsInt16(r.value[i])
  {
    if |bytes| % 2 != 0 then None
    else Some(seq(|bytes| / 2, i requires 0 <= i < |bytes| / 2 => Int16Of(bytes[2 * i], bytes[2 * i + 1])))
  }

  /** The two bytes a 16-bit sample is stored as, low byte first. */
  function Int16Bytes(x: int): (r: seq<byte>)
    requires IsInt16(x)
    ensures |r| == 2
  {
    var u := if x < 0 then x + 0x1_0000 else x;
    [(u % 0x100) as byte, (u / 0x100) as byte]
  }

  /** The byte buffer a sequence of 16-bit samples is stored as. */
  function EncodeInt16(samples: seq<int>): (r: seq<byte>)
    requires forall i :: 0 <= i < |samples| ==> IsInt16(samples[i])
    ensures |r| == 2 * |samples|
  {
    if |samples| == 0 then [] else EncodeInt16(samples[..|samples| - 1]) + Int16Bytes(samples[|samples| - 1])
  }

  lemma Int16RoundTrip(x: int)
    requires IsInt16(x)
    ensures Int16Of(Int16Bytes(x)[0], Int16Bytes(x)[1]) == x
  {
  }

  lemma Int16BytesRoundTrip(lo: byte, hi: byte)
    ensures Int16Bytes(Int16Of(lo, hi)) == [lo, hi]
  {
  }

  lemma {:induction false} EncodeInt16At(samples: seq<int>, i: nat)
    requires forall j :: 0 <= j < |samples| ==> IsInt16(samples[j])
    requires i < |samples|
    ensures EncodeInt16(samples)[2 * i] == Int16Bytes(samples[i])[0]
    ensures EncodeInt16(samples)[2 * i + 1] == Int16Bytes(samples[i])[1]
  {
    if i < |samples| - 1 {
      EncodeInt16At(samples[..|samples| - 1], i);
    }
  }

  lemma DecodeAt(bytes: seq<byte>, i: nat)
    requires |bytes| % 2 == 0 && i < |bytes| / 2
    ensures DecodeInt16(bytes).value[i] == Int16Of(bytes[2 * i], bytes[2 * i + 1])
  {
  }

  lemma Halve(n: nat)
    ensures (2 * n) % 2 == 0 && (2 * n) / 2 == n
  {
  }

  lemma {:induction false} DecodeEncodeAt(samples: seq<int>, i: nat)
    requires forall j :: 0 <= j < |samples| ==> IsInt16(samples[j])
    requires i < |samples|
    ensures DecodeInt16(EncodeInt16(samples)).value[i] == samples[i]
  {
    var bytes := EncodeInt16(samples);
    DecodeAt(bytes, i);
    EncodeInt16At(samples, i);
    Int16RoundTrip(samples[i]);
  }

  /** Decoding the bytes that store a sample sequence gives that sequence back. */
  lemma {:induction false} DecodeEncode(samples: seq<int>)
    requires forall i :: 0 <= i < |samples| ==> IsInt16(samples[i])
    ensures DecodeInt16(EncodeInt16(samples)) == Some(samples)
  {
    var bytes := EncodeInt16(samples);
    Halve(|samples|);
    assert |bytes| % 2 == 0;
    var decoded := DecodeInt16(bytes).value;
    assert |decoded| == |samples|;
    forall i | 0 <= i < |samples|
      ensures decoded[i] == samples[i]
    {
      DecodeEncodeAt(samples, i);
    }
    assert decoded == samples;
  }

  /** The sample at index i is odd exactly when the low byte it is stored in is odd. */
  lemma DecodeParity(bytes: seq<byte>, i: nat)
    requires |bytes| % 2 == 0 && i < |bytes| / 2
    ensures DecodeInt16(bytes).value[i] % 2 == bytes[2 * i] as int % 2
  {
  }

  /** `j < k ==> s[j] < s[k]`: the sequence is strictly increasing, so it has no duplicates. */
  predicate StrictlyIncreasing(s: seq<nat>)
  {
    forall j, k :: 0 <= j < k < |s| ==> s[j] < s[k]
  }

  /**
    `np.where(samples % 2 != 0)[0]`: the indices of the odd samples, in increasing order.
    numpy's `%` floors and Dafny's is Euclidean; for the divisor 2 both give 1 for every
    odd sample, negative ones included, so the test `% 2 != 0` is the same.
   */
  function OddIndices(samples: seq<int>): (r: seq<nat>)
    ensures forall i :: i in r <==> 0 <= i < |samples| && samples[i] % 2 != 0
    ensures StrictlyIncreasing(r)
    ensures forall k :: 0 <= k < |r| ==> r[k] < |samples|
  {
    if |samples| == 0 then []
    else
      var n := |samples| - 1;
      var init := samples[..n];
      var rest := OddIndices(init);
      assert forall i :: 0 <= i < n ==> init[i] == samples[i];
      if samples[n] % 2 != 0 then rest + [n] else rest
  }

  lemma SameElementsSameEmptiness(a: seq<nat>, b: seq<nat>)
    requires forall x :: x in a <==> x in b
    ensures |a| == 0 <==> |b| == 0
  {
    if |a| > 0 {
      assert a[0] in b;
    }
    if |b| > 0 {
      assert b[0] in a;
    }
  }

  /** Two strictly increasing sequences with the same elements are equal. */
  lemma {:induction false} IncreasingUnique(a: seq<nat>, b: seq<nat>)
    requires StrictlyIncreasing(a) && StrictlyIncreasing(b)
    requires forall x :: x in a <==> x in b
    ensures a == b
  {
    SameElementsSameEmptiness(a, b);
    if |a| > 0 {
      assert a[0] in b;
      assert b[0] in a;
      var j :| 0 <= j < |b| && b[j] == a[0];
      var k :| 0 <= k < |a| && a[k] == b[0];
      assert a[0] == b[0];
      forall x
        ensures x in a[1..] <==> x in b[1..]
      {
        if x in a[1..] {
          var i :| 1 <= i < |a| && a[i] == x;
          assert a[0] < x && x in b;
          var m :| 0 <= m < |b| && b[m] == x;
          assert m != 0 && b[1..][m - 1] == x;
        }
        if x in b[1..] {
          var i :| 1 <= i < |b| && b[i] == x;
          assert b[0] < x && x in a;
          var m :| 0 <= m < |a| && a[m] == x;
          assert m != 0 && a[1..][m - 1] == x;
        }
      }
      IncreasingUnique(a[1..], b[1..]);
      assert a == [a[0]] + a[1..];
      assert b == [b[0]] + b[1..];
    }
  }

  /** The characterisation of OddIndices determines its result: membership plus order. */
  lemma OddIndicesUnique(samples: seq<int>, r: seq<nat>)
    requires StrictlyIncreasing(r)
    requires forall i :: i in r <==> 0 <= i < |samples| && samples[i] % 2 != 0
    ensures r == OddIndices(samples)
  {
    IncreasingUnique(r, OddIndices(samples));
  }

  /** An all-even buffer has no odd indices. */
  lemma OddIndicesAllEven(samples: seq<int>)
    requires forall i :: 0 <= i < |samples| ==> samples[i] % 2 == 0
    ensures OddIndices(samples) == []
  {
  }

  /** An all-odd buffer of length N gives every index 0 .. N-1. */
  lemma {:induction false} OddIndicesAllOdd(samples: seq<int>)
    requires forall i :: 0 <= i < |samples| ==> samples[i] % 2 != 0
    ensures OddIndices(samples) == seq(|samples|, i => i)
  {
    var all: seq<nat> := seq(|samples|, i => i);
    assert forall i :: i in all <==> 0 <= i < |samples| by {
      forall i | 0 <= i < |samples| ensures i in all { assert all[i] == i; }
    }
    OddIndicesUnique(samples, all);
  }

  /** `[0, 1, 2, 3, -3, -4]` has its odd samples, -3 included, at indices 1, 3 and 4. */
  lemma OddIndicesExample()
    ensures OddIndices([0, 1, 2, 3, -3, -4]) == [1, 3, 4]
  {
    var s := [0, 1, 2, 3, -3, -4];
    var r: seq<nat> := [1, 3, 4];
    forall i
      ensures i in r <==> 0 <= i < |s| && s[i] % 2 != 0
    {
      if 0 <= i < |s| {
        assert i == 0 || i == 1 || i == 2 || i == 3 || i == 4 || i == 5;
      }
    }
    OddIndicesUnique(s, r);
  }

  // ---------------------------------------------------------------------------
  // Video: the energy of a frame

  /** The number of channel values in a pixel row and in a frame. */
  function RowValueCount(row: seq<seq<byte>>): nat
  {
    if |row| == 0 then 0 else |row[0]| + RowValueCount(row[1..])
  }

  function ValueCount(frame: Frame): nat
  {
    if |frame| == 0 then 0 else RowValueCount(frame[0]) + ValueCount(frame[1..])
  }

  /** The sum of the channel values of one pixel. */
  function PixelSum(p: seq<byte>): (r: nat)
    ensures r <= 255 * |p|
    ensures (forall i :: 0 <= i < |p| ==> p[i] == 0) <==> r == 0
  {
    if |p| == 0 then 0 else p[0] as nat + PixelSum(p[1..])
  }

  function RowSum(row: seq<seq<byte>>): (r: nat)
    ensures r <= 255 * RowValueCount(row)
  {
    if |row| == 0 then 0 else PixelSum(row[0]) + RowSum(row[1..])
  }

  /** `frame.sum()`: the sum of every channel value of every pixel, unbounded. */
  function FrameSum(frame: Frame): (r: nat)
    ensures r <= 255 * ValueCount(frame)
  {
    if |frame| == 0 then 0 else RowSum(frame[0]) + FrameSum(frame[1..])
  }
}
