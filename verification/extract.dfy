/**
 * Pixel extraction from a decoded RGB24 frame: the plane is a flat byte
 * buffer whose rows are `stride` bytes apart; a pixel is copied only when its
 * three bytes lie inside its row's chunk, and every other pixel keeps the
 * black of a freshly created image buffer.
 */
module Extract {
  import opened Pixels

  /** `data.chunks(stride)`: consecutive `stride`-byte pieces, the last one possibly shorter. */
  function Chunks(data: seq<Byte>, stride: nat): (chunks: seq<seq<Byte>>)
    requires stride > 0
    ensures forall k :: 0 <= k < |chunks| ==> 0 < |chunks[k]| <= stride
    decreases |data|
  {
    if |data| == 0 then []
    else if |data| <= stride then [data]
    else [data[..stride]] + Chunks(data[stride..], stride)
  }

  /**
   * Chunk `k` exists exactly when its start is inside the buffer, and it is
   * the buffer from there up to the next chunk's start or the end.
   */
  lemma {:induction false} ChunkAt(data: seq<Byte>, stride: nat, k: nat)
    requires stride > 0
    ensures k < |Chunks(data, stride)| <==> Offset(stride, k) < |data|
    ensures k < |Chunks(data, stride)| ==>
              Chunks(data, stride)[k] == data[Offset(stride, k)..Min(Offset(stride, k + 1), |data|)]
    decreases |data|
  {
    var cs := Chunks(data, stride);
    assert Offset(stride, k + 1) == stride + Offset(stride, k);
    if k == 0 {
      if 0 < |data| <= stride {
        assert cs == [data];
        assert data[0..|data|] == data;
      }
    } else if |data| <= stride {
      assert |cs| <= 1;
      assert Offset(stride, k) >= stride;
    } else {
      var rest := data[stride..];
      ChunkAt(rest, stride, k - 1);
      assert cs == [data[..stride]] + Chunks(rest, stride);
      var lo := Offset(stride, k - 1);
      assert Offset(stride, k) == stride + lo;
      if k < |cs| {
        var hi := Min(Offset(stride, k), |rest|);
        assert stride + hi == Min(Offset(stride, k + 1), |data|);
        SliceShift(data, stride, lo, hi);
      }
    }
  }

  /** A slice of a suffix is the slice of the whole buffer shifted by the suffix's start. */
  lemma SliceShift(data: seq<Byte>, d: nat, lo: nat, hi: nat)
    requires d <= |data| && lo <= hi <= |data| - d
    ensures data[d..][lo..hi] == data[d + lo..d + hi]
  {
  }

  /** The smaller of `a` and `b`. */
  function Min(a: int, b: int): int {
    if a < b then a else b
  }

  /**
   * The pixel the frame holds at column `x` of row `y`, read straight from the
   * flat buffer: bytes `y * stride + 3x .. y * stride + 3x + 2`, provided they
   * stay inside row `y` and inside the buffer; black otherwise.
   */
  function SourcePixel(data: seq<Byte>, stride: nat, x: nat, y: nat): Rgb
  {
    var at := y * stride + 3 * x;
    if 3 * x + 2 < stride && at + 2 < |data| then Rgb(data[at], data[at + 1], data[at + 2])
    else Black
  }

  /** The copy rule of the loop body, restated on the flat buffer. */
  lemma ChunkPixel(data: seq<Byte>, stride: nat, y: nat, x: nat)
    requires stride > 0
    ensures y < |Chunks(data, stride)| ==>
              SourcePixel(data, stride, x, y) ==
                var row := Chunks(data, stride)[y];
                if 3 * x + 2 < |row| then Rgb(row[3 * x], row[3 * x + 1], row[3 * x + 2]) else Black
    ensures y >= |Chunks(data, stride)| ==> SourcePixel(data, stride, x, y) == Black
  {
    ChunkAt(data, stride, y);
    OffsetProduct(stride, y);
    OffsetProduct(stride, y + 1);
  }

  /**
   * `ffmpeg_frame_to_image`: walks the first `height` chunks and, within
   * each, the columns `0..width`, copying a pixel only when `3x + 2` is inside
   * the chunk. The result is always `width` x `height`.
   */
  method FrameToImage(data: seq<Byte>, width: nat, height: nat, stride: nat) returns (img: Image)
    requires stride > 0
    ensures img.Valid() && img.width == width && img.height == height
    ensures forall y, x :: 0 <= y < height && 0 <= x < width ==>
              img.pixels[y][x] == SourcePixel(data, stride, x, y)
  {
    var chunks := Chunks(data, stride);
    var taken := if |chunks| < height then |chunks| else height;
    var grid := BlankImage(width, height).pixels;
    var y := 0;
    while y < taken
      invariant 0 <= y <= taken
      invariant |grid| == height
      invariant forall k :: 0 <= k < height ==> |grid[k]| == width
      invariant forall k, i :: 0 <= k < height && 0 <= i < width ==>
                  grid[k][i] == if k < y then SourcePixel(data, stride, i, k) else Black
    {
      var row := chunks[y];
      var x := 0;
      while x < width
        invariant 0 <= x <= width
        invariant |grid| == height
        invariant forall k :: 0 <= k < height ==> |grid[k]| == width
        invariant forall k, i :: 0 <= k < height && 0 <= i < width ==>
                    grid[k][i] == if k < y || (k == y && i < x) then SourcePixel(data, stride, i, k) else Black
      {
        var idx := x * 3;
        ChunkPixel(data, stride, y, x);
        if idx + 2 < |row| {
          grid := grid[y := grid[y][x := Rgb(row[idx], row[idx + 1], row[idx + 2])]];
        }
        x := x + 1;
      }
      y := y + 1;
    }
    forall k, i | taken <= k < height && 0 <= i < width
      ensures SourcePixel(data, stride, i, k) == Black
    {
      ChunkPixel(data, stride, k, i);
    }
    img := Image(width, height, grid);
  }
}
