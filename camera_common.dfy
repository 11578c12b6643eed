/**
  The integer parts of the camera daemon's shared code: the RGB buffer size
  rule, the frame queue that `acquire` pops, the crop-and-scale copy of the
  current RGB frame into an output image, the luminance histogram and its
  upper-median scan that choose the exposure target, and the rectangle the
  driver camera samples for auto exposure.
*/
module CameraCommon {
  import opened Common

  // ---------------------------------------------------------------------
  // Buffer sizes

  /**
    `CameraBuf::init`: the RGB buffer has the frame's size, except that on a
    non-TICI device a bayer sensor is debayered at half size (rounded down).
  */
  function RgbSize(frameWidth: nat, frameHeight: nat, tici: bool, bayer: bool): (r: (nat, nat))
    ensures tici || !bayer ==> r == (frameWidth, frameHeight)
    ensures !tici && bayer ==> 2 * r.0 <= frameWidth < 2 * r.0 + 2 && 2 * r.1 <= frameHeight < 2 * r.1 + 2
  {
    if !tici && bayer then (frameWidth / 2, frameHeight / 2) else (frameWidth, frameHeight)
  }

  /** The RGB buffer differs from the frame exactly when it is halved and the frame is not empty. */
  lemma RgbSizeHalvedIff(frameWidth: nat, frameHeight: nat, tici: bool, bayer: bool)
    requires frameWidth > 0
    ensures RgbSize(frameWidth, frameHeight, tici, bayer).0 < frameWidth <==> !tici && bayer
  {
  }

  // ---------------------------------------------------------------------
  // The frame queue

  /**
    The buffers of one camera: the frame id of each buffer's metadata, the
    queue of filled buffer indices, and the buffer now being processed.
    `released` lists, in order, the buffers handed back through the release
    callback.
  */
  class CameraBuf {
    var frameIds: seq<int>
    var queue: seq<nat>
    var curBufIdx: nat
    var curFrameId: int
    var released: seq<nat>
    const hasReleaseCallback: bool
    const rgbWidth: nat
    const rgbHeight: nat

    /** Every queued index names a buffer. */
    ghost predicate Valid()
      reads this
    {
      forall k :: 0 <= k < |queue| ==> queue[k] < |frameIds|
    }

    /** `CameraBuf::init`: `count` buffers with zeroed metadata, nothing queued, and the RGB size rule applied. */
    constructor (count: nat, frameWidth: nat, frameHeight: nat, tici: bool, bayer: bool, releaseCallback: bool)
      ensures Valid()
      ensures |frameIds| == count && (forall i :: 0 <= i < count ==> frameIds[i] == 0)
      ensures queue == [] && released == [] && hasReleaseCallback == releaseCallback
      ensures (rgbWidth, rgbHeight) == RgbSize(frameWidth, frameHeight, tici, bayer)
    {
      frameIds := seq(count, _ => 0);
      queue := [];
      curBufIdx := 0;
      curFrameId := 0;
      released := [];
      hasReleaseCallback := releaseCallback;
      var size := RgbSize(frameWidth, frameHeight, tici, bayer);
      rgbWidth, rgbHeight := size.0, size.1;
    }

    /** The camera driver filling a buffer's metadata before it queues the buffer. */
    method SetFrameId(idx: nat, frameId: int)
      requires Valid() && idx < |frameIds|
      modifies this
      ensures Valid()
      ensures frameIds == old(frameIds)[idx := frameId]
      ensures queue == old(queue) && curBufIdx == old(curBufIdx) && curFrameId == old(curFrameId)
      ensures released == old(released)
    {
      frameIds := frameIds[idx := frameId];
    }

    /** `CameraBuf::queue`: the buffer index joins the back of the queue. */
    method Queue(idx: nat)
      requires Valid() && idx < |frameIds|
      modifies this
      ensures Valid()
      ensures queue == old(queue) + [idx]
      ensures frameIds == old(frameIds) && curBufIdx == old(curBufIdx) && curFrameId == old(curFrameId)
      ensures released == old(released)
    {
      queue := queue + [idx];
    }

    /** `CameraBuf::release`: the current buffer goes back through the callback, if there is one. */
    method Release()
      modifies this
      ensures released == old(released) + (if hasReleaseCallback then [curBufIdx] else [])
      ensures frameIds == old(frameIds) && queue == old(queue)
      ensures curBufIdx == old(curBufIdx) && curFrameId == old(curFrameId)
    {
      if hasReleaseCallback {
        released := released + [curBufIdx];
      }
    }

    /**
      `CameraBuf::acquire`: false when nothing is queued. Otherwise the front
      buffer becomes the current one; a buffer whose frame id is -1 carries no
      frame and is released at once (false); any other buffer's metadata
      becomes the current frame data (true).
    */
    method Acquire() returns (ok: bool)
      requires Valid()
      modifies this
      ensures Valid() && frameIds == old(frameIds)
      ensures old(queue) == [] ==>
        !ok && queue == [] && curBufIdx == old(curBufIdx) && curFrameId == old(curFrameId) && released == old(released)
      ensures old(queue) != [] ==>
        queue == old(queue)[1..] && curBufIdx == old(queue)[0] && curBufIdx < |frameIds| &&
        (ok <==> frameIds[curBufIdx] != -1)
      ensures old(queue) != [] && ok ==> curBufIdx < |frameIds| && curFrameId == frameIds[curBufIdx] && released == old(released)
      ensures old(queue) != [] && !ok ==>
        curFrameId == old(curFrameId) &&
        released == old(released) + (if hasReleaseCallback then [curBufIdx] else [])
    {
      if queue == [] {
        return false;
      }
      curBufIdx := queue[0];
      queue := queue[1..];
      if frameIds[curBufIdx] == -1 {
        Release();
        return false;
      }
      curFrameId := frameIds[curBufIdx];
      return true;
    }
  }

  // ---------------------------------------------------------------------
  // The frame image

  /** Where byte `k` of output pixel (r, c) goes in an image `w` pixels wide and `h` high. */
  function OutIndex(w: int, h: int, r: int, c: int, k: int): (i: int)
    requires 0 <= r < h && 0 <= c < w && 0 <= k < 3
    ensures 0 <= i < w * h * 3
  {
    MulMonotone(r + 1, h, w);
    (r * w + c) * 3 + k
  }

  /** `a <= b` and `m >= 0` give `a * m <= b * m`. */
  lemma MulMonotone(a: int, b: int, m: int)
    requires a <= b && m >= 0
    ensures a * m <= b * m
  {
    assert b * m - a * m == (b - a) * m;
  }

  /** Output pixels are laid out row by row: every byte of an earlier pixel lies below the first byte of a later one. */
  lemma OutIndexBefore(w: int, h: int, r0: int, c0: int, k0: int, r: int, c: int)
    requires 0 <= r0 < h && 0 <= c0 < w && 0 <= k0 < 3 && 0 <= r < h && 0 <= c < w
    requires r0 < r || (r0 == r && c0 < c)
    ensures OutIndex(w, h, r0, c0, k0) < OutIndex(w, h, r, c, 0)
  {
    var a, b := r0 * w + c0, r * w + c;
    if r0 < r {
      MulMonotone(r0 + 1, r, w);
      assert (r0 + 1) * w == r0 * w + w;
    }
    assert a < b;
    assert OutIndex(w, h, r0, c0, k0) == a * 3 + k0 && OutIndex(w, h, r, c, 0) == b * 3;
  }

  /** Byte `k` of the RGB frame sampled for output pixel (r, c): columns and rows step by `scale` from `goff`. */
  function SrcIndex(goff: int, stride: int, scale: int, r: int, c: int, k: int): int {
    goff + r * stride * scale + c * 3 * scale + k
  }

  /** Every byte the copy reads for a `w` × `h` output lies in the frame buffer. */
  ghost predicate SourceInBounds(dat: seq<Byte>, goff: int, stride: int, scale: int, w: int, h: int) {
    forall r, c, k :: 0 <= r < h && 0 <= c < w && 0 <= k < 3 ==> 0 <= SrcIndex(goff, stride, scale, r, c, k) < |dat|
  }

  /**
    The output holds its source bytes for every pixel of the rows before `r`
    and for the pixels of row `r` before column `c`.
  */
  ghost predicate Copied(out: seq<Byte>, dat: seq<Byte>, goff: int, stride: int, scale: int, w: int, h: int, r: int, c: int)
    requires |out| == w * h * 3 && SourceInBounds(dat, goff, stride, scale, w, h)
  {
    forall r0, c0, k0 :: 0 <= c0 < w && 0 <= k0 < 3 && 0 <= r0 < h && (r0 < r || (r0 == r && c0 < c)) ==>
      out[OutIndex(w, h, r0, c0, k0)] == dat[SrcIndex(goff, stride, scale, r0, c0, k0)]
  }

  /** Writing the three bytes of pixel (r, c) extends what is copied by that pixel. */
  lemma CopiedStep(before: seq<Byte>, after: seq<Byte>, dat: seq<Byte>, goff: int, stride: int, scale: int,
                   w: int, h: int, r: int, c: int, dst: int, src: int)
    requires |before| == w * h * 3 && SourceInBounds(dat, goff, stride, scale, w, h)
    requires 0 <= r < h && 0 <= c < w && Copied(before, dat, goff, stride, scale, w, h, r, c)
    requires dst == OutIndex(w, h, r, c, 0) && src == SrcIndex(goff, stride, scale, r, c, 0)
    requires 0 <= dst && dst + 2 < |before| && 0 <= src && src + 2 < |dat|
    requires after == before[dst := dat[src]][dst + 1 := dat[src + 1]][dst + 2 := dat[src + 2]]
    ensures Copied(after, dat, goff, stride, scale, w, h, r, c + 1)
  {
    forall r0, c0, k0 | 0 <= c0 < w && 0 <= k0 < 3 && 0 <= r0 < h && (r0 < r || (r0 == r && c0 < c + 1))
      ensures after[OutIndex(w, h, r0, c0, k0)] == dat[SrcIndex(goff, stride, scale, r0, c0, k0)]
    {
      if r0 < r || c0 < c {
        OutIndexBefore(w, h, r0, c0, k0, r, c);
      } else {
        assert OutIndex(w, h, r0, c0, k0) == dst + k0;
        assert SrcIndex(goff, stride, scale, r0, c0, k0) == src + k0;
      }
    }
  }

  /** The `memcpy` of one pixel: three bytes from `src` on to `dst` on. */
  method CopyPixel(out: array<Byte>, dat: seq<Byte>, dst: int, src: int)
    requires 0 <= dst && dst + 2 < out.Length && 0 <= src && src + 2 < |dat|
    modifies out
    ensures out[..] == old(out[..])[dst := dat[src]][dst + 1 := dat[src + 1]][dst + 2 := dat[src + 2]]
  {
    out[dst] := dat[src];
    out[dst + 1] := dat[src + 1];
    out[dst + 2] := dat[src + 2];
  }

  /** The crop read from the environment: `XMIN`, `YMIN`, `XMAX`, `YMAX` (-1 meaning the frame's edge) and `SCALE`. */
  datatype Crop = Crop(xMin: int, yMin: int, envXmax: int, envYmax: int, scale: int)

  /** The last column or row of the crop: the configured one, or the frame's last when it is -1. */
  function CropEnd(env: int, rgbSize: int): int {
    if env != -1 then env else rgbSize - 1
  }

  /**
    The crops the model covers: a positive scale and an output that is not
    negative in size. The start may lie left of or above the frame (only the
    pixels read must be inside the buffer), and an end up to `scale - 1` before
    the start gives an empty output under C's truncating division.
  */
  predicate CropOk(crop: Crop, rgbWidth: int, rgbHeight: int) {
    crop.scale >= 1 && CropWidth(crop, rgbWidth) >= 0 && CropHeight(crop, rgbHeight) >= 0
  }

  /** The output width for a crop: its columns divided by the scale, truncated. */
  function CropWidth(crop: Crop, rgbWidth: int): int
    requires crop.scale >= 1
  {
    TruncDiv(CropEnd(crop.envXmax, rgbWidth) - crop.xMin + 1, crop.scale)
  }

  /** The output height for a crop: its rows divided by the scale, truncated. */
  function CropHeight(crop: Crop, rgbHeight: int): int
    requires crop.scale >= 1
  {
    TruncDiv(CropEnd(crop.envYmax, rgbHeight) - crop.yMin + 1, crop.scale)
  }

  /** A crop is covered exactly when its scale is positive and each span is more than `-scale`. */
  lemma CropOkSpans(crop: Crop, rgbWidth: int, rgbHeight: int)
    requires crop.scale >= 1
    ensures CropOk(crop, rgbWidth, rgbHeight) <==>
      CropEnd(crop.envXmax, rgbWidth) - crop.xMin + 1 > -crop.scale &&
      CropEnd(crop.envYmax, rgbHeight) - crop.yMin + 1 > -crop.scale
  {
    TruncDivSign(CropEnd(crop.envXmax, rgbWidth) - crop.xMin + 1, crop.scale);
    TruncDivSign(CropEnd(crop.envYmax, rgbHeight) - crop.yMin + 1, crop.scale);
  }

  /** C's quotient by a positive divisor is non-negative exactly when the dividend exceeds minus the divisor. */
  lemma TruncDivSign(a: int, b: int)
    requires b >= 1
    ensures TruncDiv(a, b) >= 0 <==> a > -b
  {
    var q := TruncDiv(a, b);
    if a >= 0 {
      TruncDivNonNeg(a, b);
    } else {
      MulAtLeast(q, b);
      if q >= 0 {
        MulAtLeast(-q, b);
        assert (-q) * b == -(q * b);
      }
    }
  }

  /**
    `get_frame_image`: the crop from (x_min, y_min) to (x_max, y_max) of the
    RGB frame, keeping every `scale`-th pixel of every `scale`-th row, copied
    three bytes per pixel, row by row, into a new image of new_width ×
    new_height pixels.
  */
  method GetFrameImage(dat: seq<Byte>, rgbWidth: int, rgbHeight: int, stride: int, crop: Crop)
    returns (image: seq<Byte>, newWidth: int, newHeight: int)
    requires CropOk(crop, rgbWidth, rgbHeight)
    requires SourceInBounds(dat, crop.xMin * 3 + crop.yMin * stride, stride, crop.scale,
                            CropWidth(crop, rgbWidth), CropHeight(crop, rgbHeight))
    ensures newWidth == CropWidth(crop, rgbWidth) >= 0 && newHeight == CropHeight(crop, rgbHeight) >= 0
    ensures |image| == newWidth * newHeight * 3
    ensures forall r, c, k :: 0 <= r < newHeight && 0 <= c < newWidth && 0 <= k < 3 ==>
      image[OutIndex(newWidth, newHeight, r, c, k)] ==
        dat[SrcIndex(crop.xMin * 3 + crop.yMin * stride, stride, crop.scale, r, c, k)]
  {
    var xMax := if crop.envXmax != -1 then crop.envXmax else rgbWidth - 1;
    var yMax := if crop.envYmax != -1 then crop.envYmax else rgbHeight - 1;
    var scale := crop.scale;
    newWidth := TruncDiv(xMax - crop.xMin + 1, scale);
    newHeight := TruncDiv(yMax - crop.yMin + 1, scale);
    var goff := crop.xMin * 3 + crop.yMin * stride;
    image := CopyCrop(dat, goff, stride, scale, newWidth, newHeight);
  }

  /** The copy loops of `get_frame_image`, for an output of `w` × `h` pixels read from `goff` on. */
  method CopyCrop(dat: seq<Byte>, goff: int, stride: int, scale: int, w: int, h: int) returns (image: seq<Byte>)
    requires w >= 0 && h >= 0 && SourceInBounds(dat, goff, stride, scale, w, h)
    ensures |image| == w * h * 3
    ensures forall r, c, k :: 0 <= r < h && 0 <= c < w && 0 <= k < 3 ==>
      image[OutIndex(w, h, r, c, k)] == dat[SrcIndex(goff, stride, scale, r, c, k)]
  {
    MulMonotone(0, w, h);
    MulMonotone(0, w * h, 3);
    var out := new Byte[w * h * 3];
    var r := 0;
    while r < h
      invariant 0 <= r <= h
      invariant Copied(out[..], dat, goff, stride, scale, w, h, r, 0)
    {
      CopyRow(out, dat, goff, stride, scale, w, h, r);
      r := r + 1;
    }
    image := out[..];
  }

  /** The inner loop: the `w` pixels of output row `r`, left to right. */
  method CopyRow(out: array<Byte>, dat: seq<Byte>, goff: int, stride: int, scale: int, w: int, h: int, r: int)
    requires out.Length == w * h * 3 && SourceInBounds(dat, goff, stride, scale, w, h)
    requires 0 <= r < h && Copied(out[..], dat, goff, stride, scale, w, h, r, 0)
    modifies out
    ensures Copied(out[..], dat, goff, stride, scale, w, h, r + 1, 0)
  {
    var c := 0;
    while c < w
      invariant 0 <= c <= w
      invariant Copied(out[..], dat, goff, stride, scale, w, h, r, c)
    {
      var dst := OutIndex(w, h, r, c, 0);
      var src := SrcIndex(goff, stride, scale, r, c, 0);
      assert OutIndex(w, h, r, c, 2) == dst + 2;
      assert SrcIndex(goff, stride, scale, r, c, 2) == src + 2;
      ghost var before := out[..];
      CopyPixel(out, dat, dst, src);
      CopiedStep(before, out[..], dat, goff, stride, scale, w, h, r, c, dst, src);
      c := c + 1;
    }
  }

  // ---------------------------------------------------------------------
  // The luminance histogram

  /** The positions a `for (v = start; v < end; v += skip)` loop visits. */
  function Steps(start: int, end: int, skip: int): (r: seq<int>)
    requires skip > 0
    ensures forall k :: 0 <= k < |r| ==> start <= r[k] < end
    decreases end - start
  {
    if start >= end then [] else [start] + Steps(start + skip, end, skip)
  }

  /**
    The loop visits start, start + skip, start + 2·skip, … while below
    `end`: the k-th position is start + k·skip, and one more step would
    reach `end`.
  */
  lemma {:induction false} StepsAt(start: int, end: int, skip: int)
    requires skip > 0
    ensures var r := Steps(start, end, skip);
      (forall k :: 0 <= k < |r| ==> r[k] == start + k * skip) && start + |r| * skip >= end
    decreases end - start
  {
    if start < end {
      StepsAt(start + skip, end, skip);
      var r := Steps(start, end, skip);
      var t := Steps(start + skip, end, skip);
      forall k | 0 < k < |r| ensures r[k] == start + k * skip {
        assert r[k] == t[k - 1];
        OneMore(k - 1, skip);
      }
      OneMore(|t|, skip);
    }
  }

  lemma OneMore(n: int, m: int)
    ensures n * m + m == (n + 1) * m
  {
  }

  /** Every sampled pixel of the rows `ys` and columns `xs` lies in a frame `width` pixels wide. */
  ghost predicate InFrame(pix: seq<Byte>, width: int, ys: seq<int>, xs: seq<int>) {
    forall i, j :: 0 <= i < |ys| && 0 <= j < |xs| ==> InRow(pix, width, ys[i], xs[j])
  }

  /** Pixel (x, y) lies in a frame `width` pixels wide. */
  predicate InRow(pix: seq<Byte>, width: int, y: int, x: int) {
    0 <= y * width + x < |pix|
  }

  /** The luminances of row `y` at the columns `xs`, in order. */
  function Row(pix: seq<Byte>, width: int, y: int, xs: seq<int>): (r: seq<Byte>)
    requires forall j :: 0 <= j < |xs| ==> InRow(pix, width, y, xs[j])
    ensures |r| == |xs|
  {
    if xs == [] then []
    else
      assert InRow(pix, width, y, xs[|xs| - 1]);
      Row(pix, width, y, xs[..|xs| - 1]) + [pix[y * width + xs[|xs| - 1]]]
  }

  /** The luminances sampled row by row, as the scan visits them. */
  function Samples(pix: seq<Byte>, width: int, ys: seq<int>, xs: seq<int>): (s: seq<Byte>)
    requires InFrame(pix, width, ys, xs)
  {
    if ys == [] then [] else Samples(pix, width, ys[..|ys| - 1], xs) + Row(pix, width, ys[|ys| - 1], xs)
  }

  /** One luminance per sampled position: the scan visits |ys| · |xs| positions. */
  lemma {:induction false} SamplesLength(pix: seq<Byte>, width: int, ys: seq<int>, xs: seq<int>)
    requires InFrame(pix, width, ys, xs)
    ensures |Samples(pix, width, ys, xs)| == |ys| * |xs|
  {
    if ys != [] {
      SamplesLength(pix, width, ys[..|ys| - 1], xs);
      assert (|ys| - 1) * |xs| + |xs| == |ys| * |xs|;
    }
  }

  /** How many times `v` occurs in `s`. */
  function Count(s: seq<Byte>, v: Byte): (n: nat)
    ensures n <= |s|
  {
    if s == [] then 0 else Count(s[..|s| - 1], v) + (if s[|s| - 1] == v then 1 else 0)
  }

  /** Bin `v` of the histogram holds the number of samples equal to `v`. */
  function Histogram(s: seq<Byte>): (bins: seq<nat>)
    ensures |bins| == 256
  {
    seq(256, v requires 0 <= v < 256 => Count(s, v as Byte))
  }

  /** The sum of the bins from `v` up to the last. */
  function SumFrom(bins: seq<nat>, v: nat): nat
    decreases |bins| - v
  {
    if v >= |bins| then 0 else bins[v] + SumFrom(bins, v + 1)
  }

  /** Adding one to bin `b` adds one to every suffix sum that includes it. */
  lemma {:induction false} SumFromBump(bins: seq<nat>, b: nat, v: nat)
    requires b < |bins|
    ensures SumFrom(bins[b := bins[b] + 1], v) == SumFrom(bins, v) + (if v <= b then 1 else 0)
    decreases |bins| - v
  {
    if v < |bins| {
      SumFromBump(bins, b, v + 1);
    }
  }

  /** The histogram counts every sample exactly once: its bins add up to the number of samples. */
  lemma {:induction false} HistogramTotal(s: seq<Byte>)
    ensures SumFrom(Histogram(s), 0) == |s|
  {
    if s == [] {
      ZeroSum(Histogram(s), 0);
    } else {
      var t := s[..|s| - 1];
      var b := s[|s| - 1];
      HistogramTotal(t);
      assert Histogram(s) == Histogram(t)[b as int := Histogram(t)[b as int] + 1];
      SumFromBump(Histogram(t), b as nat, 0);
    }
  }

  lemma {:induction false} ZeroSum(bins: seq<nat>, v: nat)
    requires forall i :: 0 <= i < |bins| ==> bins[i] == 0
    ensures SumFrom(bins, v) == 0
    decreases |bins| - v
  {
    if v < |bins| {
      ZeroSum(bins, v + 1);
    }
  }

  /**
    The first loop of `set_exposure_target`: for every sampled position, in
    row order, the luminance's bin goes up by one, and so does the total.
  */
  method BinLuminance(pix: seq<Byte>, width: int, xStart: int, xEnd: int, xSkip: int,
                      yStart: int, yEnd: int, ySkip: int)
    returns (bins: seq<nat>, total: nat)
    requires xSkip > 0 && ySkip > 0
    requires InFrame(pix, width, Steps(yStart, yEnd, ySkip), Steps(xStart, xEnd, xSkip))
    ensures bins == Histogram(Samples(pix, width, Steps(yStart, yEnd, ySkip), Steps(xStart, xEnd, xSkip)))
    ensures total == |Steps(yStart, yEnd, ySkip)| * |Steps(xStart, xEnd, xSkip)|
  {
    var xs := Steps(xStart, xEnd, xSkip);
    var ys := Steps(yStart, yEnd, ySkip);
    var lum := new nat[256](_ => 0);
    total := 0;
    ghost var i := 0;
    var y := yStart;
    while y < yEnd
      invariant 0 <= i <= |ys| && ys[i..] == Steps(y, yEnd, ySkip)
      invariant InFrame(pix, width, ys[..i], xs)
      invariant forall v :: 0 <= v < 256 ==> lum[v] == Count(Samples(pix, width, ys[..i], xs), v as Byte)
      invariant total == |Samples(pix, width, ys[..i], xs)|
      decreases yEnd - y
    {
      RowsAdvance(ys, i, y, yEnd, ySkip);
      SamplesSnoc(pix, width, ys, xs, i);
      BinRow(lum, pix, width, y, xs, Samples(pix, width, ys[..i], xs));
      total := total + |xs|;
      i := i + 1;
      y := y + ySkip;
    }
    assert ys[..i] == ys;
    SamplesLength(pix, width, ys, xs);
    bins := lum[..];
    HistogramOf(bins, Samples(pix, width, ys, xs));
  }

  /** Bins that count every value of `s` are its histogram. */
  lemma HistogramOf(bins: seq<nat>, s: seq<Byte>)
    requires |bins| == 256 && forall v :: 0 <= v < 256 ==> bins[v] == Count(s, v as Byte)
    ensures bins == Histogram(s)
  {
  }

  /** The row loop's step: the next row visited is the next position of `ys`. */
  lemma RowsAdvance(ys: seq<int>, i: int, y: int, yEnd: int, ySkip: int)
    requires ySkip > 0 && 0 <= i <= |ys| && ys[i..] == Steps(y, yEnd, ySkip) && y < yEnd
    ensures i < |ys| && ys[i] == y && ys[i + 1..] == Steps(y + ySkip, yEnd, ySkip)
  {
    assert ys[i..][1..] == ys[i + 1..];
  }

  /** The samples of one more row are those of the rows before followed by that row's. */
  lemma SamplesSnoc(pix: seq<Byte>, width: int, ys: seq<int>, xs: seq<int>, i: int)
    requires InFrame(pix, width, ys, xs) && 0 <= i < |ys|
    ensures forall j :: 0 <= j < |xs| ==> InRow(pix, width, ys[i], xs[j])
    ensures InFrame(pix, width, ys[..i], xs) && InFrame(pix, width, ys[..i + 1], xs)
    ensures Samples(pix, width, ys[..i + 1], xs) == Samples(pix, width, ys[..i], xs) + Row(pix, width, ys[i], xs)
  {
    assert ys[..i + 1][..i] == ys[..i];
  }

  /** The inner loop: every sampled column of row `y` counted into its bin. */
  method BinRow(lum: array<nat>, pix: seq<Byte>, width: int, y: int, xs: seq<int>, ghost before: seq<Byte>)
    requires lum.Length == 256
    requires forall j :: 0 <= j < |xs| ==> InRow(pix, width, y, xs[j])
    requires forall v :: 0 <= v < 256 ==> lum[v] == Count(before, v as Byte)
    modifies lum
    ensures forall v :: 0 <= v < 256 ==> lum[v] == Count(before + Row(pix, width, y, xs), v as Byte)
  {
    var k := 0;
    assert before + Row(pix, width, y, xs[..0]) == before;
    while k < |xs|
      invariant 0 <= k <= |xs|
      invariant forall v :: 0 <= v < 256 ==> lum[v] == Count(before + Row(pix, width, y, xs[..k]), v as Byte)
    {
      assert InRow(pix, width, y, xs[k]);
      var l := pix[y * width + xs[k]];
      RowSnoc(pix, width, y, xs, k);
      CountSnoc(before + Row(pix, width, y, xs[..k]), l);
      assert before + Row(pix, width, y, xs[..k + 1]) == (before + Row(pix, width, y, xs[..k])) + [l];
      lum[l] := lum[l] + 1;
      k := k + 1;
    }
    assert xs[..k] == xs;
  }

  /** Extending the columns by one appends that column's luminance to the row. */
  lemma RowSnoc(pix: seq<Byte>, width: int, y: int, xs: seq<int>, k: int)
    requires forall j :: 0 <= j < |xs| ==> InRow(pix, width, y, xs[j])
    requires 0 <= k < |xs| && InRow(pix, width, y, xs[k])
    ensures Row(pix, width, y, xs[..k + 1]) == Row(pix, width, y, xs[..k]) + [pix[y * width + xs[k]]]
  {
    assert xs[..k + 1][..k] == xs[..k];
  }

  /** Appending a luminance adds one to its own count and leaves the others. */
  lemma CountSnoc(s: seq<Byte>, l: Byte)
    ensures forall v :: Count(s + [l], v) == Count(s, v) + (if v == l then 1 else 0)
  {
    assert (s + [l])[..|s|] == s;
  }

  /**
    `level` is the upper median of the histogram: the highest level whose
    count, summed from 255 down, reaches half the total.
  */
  ghost predicate UpperMedian(bins: seq<nat>, total: nat, level: int) {
    0 <= level < |bins| && SumFrom(bins, level) >= total / 2 &&
    forall v :: level < v < |bins| ==> SumFrom(bins, v) < total / 2
  }

  /** At most one level is the upper median. */
  lemma UpperMedianUnique(bins: seq<nat>, total: nat, l1: int, l2: int)
    requires UpperMedian(bins, total, l1) && UpperMedian(bins, total, l2)
    ensures l1 == l2
  {
  }

  /**
    The second loop of `set_exposure_target`: from level 255 down, add the
    bin to the running count until the count reaches half the total. The
    `break` of the source is the loop's guard here.
  */
  method MedianLevel(bins: seq<nat>, total: nat) returns (level: int)
    requires |bins| == 256 && SumFrom(bins, 0) == total
    ensures UpperMedian(bins, total, level)
  {
    level := 255;
    var cur := bins[255];
    assert SumFrom(bins, 256) == 0;
    while cur < total / 2
      invariant 0 <= level <= 255
      invariant cur == SumFrom(bins, level)
      invariant forall v :: level < v < 256 ==> SumFrom(bins, v) < total / 2
      decreases level
    {
      assert level != 0;
      level := level - 1;
      cur := cur + bins[level];
    }
  }

  /**
    `set_exposure_target`: the luminance level (out of 256) at the upper
    median of the sampled rectangle, columns `xStart` to `xEnd` by `xSkip` of
    the rows `yStart` to `yEnd` by `ySkip`.
  */
  method SetExposureTarget(pix: seq<Byte>, width: int, xStart: int, xEnd: int, xSkip: int,
                           yStart: int, yEnd: int, ySkip: int)
    returns (level: int)
    requires xSkip > 0 && ySkip > 0
    requires InFrame(pix, width, Steps(yStart, yEnd, ySkip), Steps(xStart, xEnd, xSkip))
    ensures 0 <= level <= 255
    ensures var s := Samples(pix, width, Steps(yStart, yEnd, ySkip), Steps(xStart, xEnd, xSkip));
      UpperMedian(Histogram(s), |s|, level)
  {
    var bins, total := BinLuminance(pix, width, xStart, xEnd, xSkip, yStart, yEnd, ySkip);
    ghost var s := Samples(pix, width, Steps(yStart, yEnd, ySkip), Steps(xStart, xEnd, xSkip));
    SamplesLength(pix, width, Steps(yStart, yEnd, ySkip), Steps(xStart, xEnd, xSkip));
    HistogramTotal(s);
    level := MedianLevel(bins, total);
  }

  // ---------------------------------------------------------------------
  // The auto-exposure rectangle

  /** The sampled rectangle: columns `x1` to `x2` by `xSkip`, rows `y1` to `y2` by `ySkip`. */
  datatype ExpRect = ExpRect(x1: int, x2: int, xSkip: int, y1: int, y2: int, ySkip: int)

  /**
    The default rectangle of `driver_cam_auto_exposure`: fixed on TICI;
    otherwise the driver's side of the frame (the left two fifths for a
    right-hand-drive car, the right two fifths else) below the top third.
  */
  function DefaultRect(tici: bool, isRhd: bool, rgbWidth: nat, rgbHeight: nat): (r: ExpRect)
    ensures !tici ==> 0 <= r.x1 <= r.x2 <= rgbWidth && 0 <= r.y1 <= r.y2 == rgbHeight
    ensures !tici ==> r.xSkip == 2 && r.ySkip == 1
    ensures !tici ==> 3 * r.y1 <= rgbHeight < 3 * (r.y1 + 1)
    ensures !tici && isRhd ==> r.x1 == 0 && 5 * r.x2 <= 2 * rgbWidth < 5 * (r.x2 + 1)
    ensures !tici && !isRhd ==> r.x2 == rgbWidth && 5 * r.x1 <= 3 * rgbWidth < 5 * (r.x1 + 1)
    ensures tici ==> r == ExpRect(96, 1832, 2, 242, 1148, 4)
  {
    if tici then ExpRect(96, 1832, 2, 242, 1148, 4)
    else ExpRect(if isRhd then 0 else rgbWidth * 3 / 5, if isRhd then rgbWidth * 2 / 5 else rgbWidth, 2,
                 rgbHeight / 3, rgbHeight, 1)
  }

  /**
    The face crop: 72 pixels either side of the face centre (x, y), clamped
    to the frame.
  */
  function FaceRect(x: int, y: int, rgbWidth: int, rgbHeight: int): (r: ExpRect)
    ensures r.x1 == (if x - 72 < 0 then 0 else x - 72) && r.x2 == (if x + 72 < rgbWidth - 1 then x + 72 else rgbWidth - 1)
    ensures r.y1 == (if y - 72 < 0 then 0 else y - 72) && r.y2 == (if y + 72 < rgbHeight - 1 then y + 72 else rgbHeight - 1)
    ensures r.xSkip == 2 && r.ySkip == 1
  {
    ExpRect(Max(0, x - 72), Min(rgbWidth - 1, x + 72), 2, Max(0, y - 72), Min(rgbHeight - 1, y + 72), 1)
  }

  function Max(a: int, b: int): int { if a < b then b else a }
  function Min(a: int, b: int): int { if a < b then a else b }

  /**
    The face crop lies within [0, width-1] × [0, height-1], and when the
    face centre is inside the frame the crop is a non-empty window around it
    at most 145 pixels wide and high.
  */
  lemma FaceRectInFrame(x: int, y: int, rgbWidth: int, rgbHeight: int)
    requires rgbWidth >= 1 && rgbHeight >= 1
    ensures var r := FaceRect(x, y, rgbWidth, rgbHeight);
      0 <= r.x1 && r.x2 <= rgbWidth - 1 && 0 <= r.y1 && r.y2 <= rgbHeight - 1
    ensures 0 <= x < rgbWidth && 0 <= y < rgbHeight ==>
      var r := FaceRect(x, y, rgbWidth, rgbHeight);
      r.x1 <= x <= r.x2 && r.y1 <= y <= r.y2 && r.x2 - r.x1 <= 144 && r.y2 - r.y1 <= 144
  {
  }

  /** Every pixel the exposure scan of a face crop samples lies inside the frame buffer. */
  lemma FaceRectSamplesInFrame(pix: seq<Byte>, x: int, y: int, rgbWidth: int, rgbHeight: int)
    requires rgbWidth >= 1 && rgbHeight >= 1 && |pix| == rgbWidth * rgbHeight
    ensures var r := FaceRect(x, y, rgbWidth, rgbHeight);
      InFrame(pix, rgbWidth, Steps(r.y1, r.y2, r.ySkip), Steps(r.x1, r.x2, r.xSkip))
  {
    var r := FaceRect(x, y, rgbWidth, rgbHeight);
    var ys, xs := Steps(r.y1, r.y2, r.ySkip), Steps(r.x1, r.x2, r.xSkip);
    forall i, j | 0 <= i < |ys| && 0 <= j < |xs| ensures InRow(pix, rgbWidth, ys[i], xs[j]) {
      PixelInFrame(pix, rgbWidth, rgbHeight, ys[i], xs[j]);
    }
  }

  /** A pixel inside a `width` × `height` frame lies in its buffer. */
  lemma PixelInFrame(pix: seq<Byte>, width: int, height: int, y: int, x: int)
    requires |pix| == width * height && 0 <= y < height && 0 <= x < width
    ensures InRow(pix, width, y, x)
  {
    MulMonotone(0, y, width);
    MulMonotone(y + 1, height, width);
  }
}
