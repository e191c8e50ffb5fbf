/** Stride compaction of decoded DDS pixel data: a decoder may pad each row
    to `stride` bytes, ImageSharp wants rows of exactly
    `width * bitsPerPixel / 8` bytes, so padded rows are copied one by one
    (`Buffer.BlockCopy`) into a tight array. Four copies of this code exist:
    PS2MapTool/Services/StitchService.cs, PS2MapTool/Services/DdsTileProcessorService.cs,
    PS2MapTool/Tiles/Services/DdsTileLoaderService.cs and
    PS2MapTool/Services/DdsTileLoaderService.cs. */
module Stride {
  import opened Magic
  import Layout

  /** What the decoder hands over: the image size, its bits per pixel, the
      row stride in bytes and the pixel bytes. */
  datatype Decoded = Decoded(width: nat, height: nat, bitsPerPixel: nat, stride: nat, data: seq<byte>)

  /** `image.Width * image.BitsPerPixel / 8`. */
  function TightStride(d: Decoded): nat {
    d.width * d.bitsPerPixel / 8
  }

  /** What the compaction ends in: the pixel bytes, the `ArgumentException`
      of a row copy reaching past the end of the source data, or the
      `TaskCanceledException` raised before copying a row. */
  datatype Copy = Copied(data: seq<byte>) | SourceTooShort(row: nat) | Canceled(row: nat)

  /** The first `n` rows of `tight` bytes each lie inside the data. */
  predicate Fits(src: seq<byte>, n: nat, stride: nat, tight: nat) {
    n == 0 || (Fits(src, n - 1, stride, tight) && (n - 1) * stride + tight <= |src|)
  }

  /** The first `tight` bytes of each of the first `n` rows, back to back:
      the reference definition of the compacted data. */
  function Rows(src: seq<byte>, n: nat, stride: nat, tight: nat): (r: seq<byte>)
    requires Fits(src, n, stride, tight)
    ensures |r| == n * tight
  {
    if n == 0 then []
    else Rows(src, n - 1, stride, tight) + src[(n - 1) * stride..(n - 1) * stride + tight]
  }

  /** Byte `j` of compacted row `i` is byte `j` of source row `i`. */
  lemma {:induction false} RowsAt(src: seq<byte>, n: nat, stride: nat, tight: nat, i: nat, j: nat)
    requires Fits(src, n, stride, tight) && i < n && j < tight
    ensures i * tight + j < n * tight && i * stride + j < |src|
    ensures Rows(src, n, stride, tight)[i * tight + j] == src[i * stride + j]
    decreases n
  {
    var prev := Rows(src, n - 1, stride, tight);
    var row := src[(n - 1) * stride..(n - 1) * stride + tight];
    Layout.MulSucc(n - 1, tight);
    assert Rows(src, n, stride, tight) == prev + row;
    if i < n - 1 {
      RowsAt(src, n - 1, stride, tight, i, j);
      assert (prev + row)[i * tight + j] == prev[i * tight + j];
    } else {
      assert i * tight + j == |prev| + j;
      assert (prev + row)[|prev| + j] == row[j];
    }
  }

  /** Every row below `n` of data that fits `n` rows lies inside it. */
  lemma {:induction false} FitsRow(src: seq<byte>, m: nat, n: nat, stride: nat, tight: nat)
    requires m < n && Fits(src, n, stride, tight)
    ensures m * stride + tight <= |src|
    decreases n
  {
    if m < n - 1 {
      FitsRow(src, m, n - 1, stride, tight);
    }
  }

  /** Rows that are already tight compact to the data itself, so passing the
      data through unchanged when the strides agree loses nothing. */
  lemma {:induction false} TightRowsUnchanged(src: seq<byte>, n: nat, tight: nat)
    requires |src| == n * tight
    ensures Fits(src, n, tight, tight) && Rows(src, n, tight, tight) == src
    decreases n
  {
    if n > 0 {
      var init := src[..(n - 1) * tight];
      TightRowsUnchanged(init, n - 1, tight);
      RowsPrefix(init, src, n - 1, tight, tight);
      assert src == init + src[(n - 1) * tight..(n - 1) * tight + tight];
    }
  }

  /** Rows only depend on the bytes they read. */
  lemma {:induction false} RowsPrefix(a: seq<byte>, b: seq<byte>, n: nat, stride: nat, tight: nat)
    requires Fits(a, n, stride, tight) && a <= b
    ensures Fits(b, n, stride, tight) && Rows(b, n, stride, tight) == Rows(a, n, stride, tight)
    decreases n
  {
    if n > 0 {
      RowsPrefix(a, b, n - 1, stride, tight);
      assert b[(n - 1) * stride..(n - 1) * stride + tight] == a[(n - 1) * stride..(n - 1) * stride + tight];
    }
  }

  /** The row loop: for each row, optionally stop on cancellation, stop if
      the row reaches past the source, else copy its `tight` bytes to
      offset `row * tight` of a destination that starts out as `base`. */
  method CopyRows(src: seq<byte>, height: nat, stride: nat, tight: nat, base: seq<byte>,
                  cancelable: bool, canceled: nat -> bool) returns (r: Copy)
    requires height * tight <= |base|
    ensures r.Copied? ==> (Fits(src, height, stride, tight) && |r.data| == |base| &&
      r.data[..height * tight] == Rows(src, height, stride, tight) &&
      r.data[height * tight..] == base[height * tight..])
    ensures r.Copied? ==> cancelable ==> forall i :: 0 <= i < height ==> !canceled(i)
    ensures r.Canceled? ==> cancelable && r.row < height && canceled(r.row) && Fits(src, r.row, stride, tight)
    ensures r.SourceTooShort? ==> (r.row < height && Fits(src, r.row, stride, tight) &&
      r.row * stride + tight > |src| && !(cancelable && canceled(r.row)))
    ensures !r.Copied? && cancelable ==> forall i :: 0 <= i < r.row ==> !canceled(i)
  {
    var a := new byte[|base|];
    forall k | 0 <= k < |base| {
      a[k] := base[k];
    }
    var i := 0;
    var srcOff, dstOff := 0, 0;
    while i < height
      invariant 0 <= i <= height && srcOff == i * stride && dstOff == i * tight
      invariant dstOff <= |base| && a.Length == |base|
      invariant Fits(src, i, stride, tight)
      invariant a[..dstOff] == Rows(src, i, stride, tight)
      invariant a[dstOff..] == base[dstOff..]
      invariant cancelable ==> forall j :: 0 <= j < i ==> !canceled(j)
    {
      if cancelable && canceled(i) {
        return Canceled(i);
      }
      assert cancelable ==> forall j :: 0 <= j < i + 1 ==> !canceled(j);
      if srcOff + tight > |src| {
        return SourceTooShort(i);
      }
      assert dstOff + tight <= |base| by {
        Layout.MulSucc(i, tight);
        Layout.MulLe(i + 1, height, tight);
      }
      var before := a[..];
      BlockCopy(src, srcOff, a, dstOff, tight);
      CopyStep(src, i, stride, tight, base, before, a[..]);
      Layout.MulSucc(i, stride);
      Layout.MulSucc(i, tight);
      i, srcOff, dstOff := i + 1, srcOff + stride, dstOff + tight;
    }
    return Copied(a[..]);
  }

  /** Copying row `i` into a destination holding the first `i` rows, and
      `base` after them, leaves it holding the first `i + 1` rows. */
  lemma CopyStep(src: seq<byte>, i: nat, stride: nat, tight: nat, base: seq<byte>, before: seq<byte>, after: seq<byte>)
    requires Fits(src, i, stride, tight) && i * stride + tight <= |src|
    requires |before| == |after| == |base| && i * tight + tight <= |base|
    requires before[..i * tight] == Rows(src, i, stride, tight) && before[i * tight..] == base[i * tight..]
    requires after[..i * tight] == before[..i * tight]
    requires after[i * tight..i * tight + tight] == src[i * stride..i * stride + tight]
    requires after[i * tight + tight..] == before[i * tight + tight..]
    ensures Fits(src, i + 1, stride, tight)
    ensures after[..i * tight + tight] == Rows(src, i + 1, stride, tight)
    ensures after[i * tight + tight..] == base[i * tight + tight..]
  {
    var d := i * tight;
    var s := i * stride;
    assert (i + 1 - 1) * stride == s;
    assert Fits(src, i + 1, stride, tight);
    assert Rows(src, i + 1, stride, tight) == Rows(src, i, stride, tight) + src[s..s + tight];
    assert (i + 1) * tight == d + tight by {
      Layout.MulSucc(i, tight);
    }
    assert after[..d + tight] == after[..d] + after[d..d + tight];
    assert before[d + tight..] == base[d + tight..] by {
      assert before[d + tight..] == before[d..][tight..];
      assert base[d + tight..] == base[d..][tight..];
    }
  }

  /** `Buffer.BlockCopy(src, srcOff, dst, dstOff, count)` within bounds. */
  method BlockCopy(src: seq<byte>, srcOff: nat, dst: array<byte>, dstOff: nat, count: nat)
    requires srcOff + count <= |src| && dstOff + count <= dst.Length
    modifies dst
    ensures dst[..dstOff] == old(dst[..dstOff])
    ensures dst[dstOff..dstOff + count] == src[srcOff..srcOff + count]
    ensures dst[dstOff + count..] == old(dst[dstOff + count..])
  {
    var j := 0;
    while j < count
      invariant 0 <= j <= count
      invariant dst[..dstOff] == old(dst[..dstOff])
      invariant dst[dstOff..dstOff + j] == src[srcOff..srcOff + j]
      invariant dst[dstOff + j..] == old(dst[dstOff + j..])
    {
      dst[dstOff + j] := src[srcOff + j];
      assert dst[dstOff..dstOff + j + 1] == dst[dstOff..dstOff + j] + [dst[dstOff + j]];
      j := j + 1;
    }
  }

  /** `LoadDDSImage` (StitchService) and the processor's `LoadAsync`: a fresh
      zeroed array, no cancellation. */
  method Compact(d: Decoded) returns (r: Copy)
    ensures !r.Canceled?
    ensures d.stride == TightStride(d) ==> r == Copied(d.data)
    ensures d.stride != TightStride(d) && r.Copied? ==>
      Fits(d.data, d.height, d.stride, TightStride(d)) &&
      r.data == Rows(d.data, d.height, d.stride, TightStride(d))
    ensures d.stride != TightStride(d) ==> (r.Copied? <==> Fits(d.data, d.height, d.stride, TightStride(d)))
  {
    var tight := TightStride(d);
    if d.stride != tight {
      r := CopyRows(d.data, d.height, d.stride, tight, seq(d.height * tight, _ => 0), false, _ => false);
      if r.SourceTooShort? && Fits(d.data, d.height, d.stride, tight) {
        FitsRow(d.data, r.row, d.height, d.stride, tight);
      }
    } else {
      r := Copied(d.data);
    }
  }

  /** The buffer-based loader's `LoadAsync`: a fresh array, cancellation
      checked before each row. */
  method CompactCancelable(d: Decoded, canceled: nat -> bool) returns (r: Copy)
    ensures d.stride == TightStride(d) ==> r == Copied(d.data)
    ensures d.stride != TightStride(d) && r.Copied? ==>
      Fits(d.data, d.height, d.stride, TightStride(d)) &&
      r.data == Rows(d.data, d.height, d.stride, TightStride(d)) &&
      forall i :: 0 <= i < d.height ==> !canceled(i)
    ensures d.stride != TightStride(d) ==> (r.Copied? <==>
      Fits(d.data, d.height, d.stride, TightStride(d)) && forall i :: 0 <= i < d.height ==> !canceled(i))
    ensures r.Canceled? ==> (d.stride != TightStride(d) && r.row < d.height && canceled(r.row) &&
      forall i :: 0 <= i < r.row ==> !canceled(i))
    ensures r.SourceTooShort? ==> (d.stride != TightStride(d) && r.row < d.height &&
      Fits(d.data, r.row, d.stride, TightStride(d)) && r.row * d.stride + TightStride(d) > |d.data| &&
      forall i :: 0 <= i <= r.row ==> !canceled(i))
  {
    var tight := TightStride(d);
    if d.stride != tight {
      r := CopyRows(d.data, d.height, d.stride, tight, seq(d.height * tight, _ => 0), true, canceled);
      if r.SourceTooShort? && Fits(d.data, d.height, d.stride, tight) {
        FitsRow(d.data, r.row, d.height, d.stride, tight);
      }
    } else {
      r := Copied(d.data);
    }
  }

  /** The stream-based loader's `LoadAsync`: the rows go into an array rented
      from the shared pool, which is at least `height * tight` long and may
      hold old bytes beyond that. */
  method CompactIntoRented(d: Decoded, rented: seq<byte>, canceled: nat -> bool) returns (r: Copy)
    requires d.height * TightStride(d) <= |rented|
    ensures d.stride == TightStride(d) ==> r == Copied(d.data)
    ensures d.stride != TightStride(d) && r.Copied? ==> var n := d.height * TightStride(d);
      Fits(d.data, d.height, d.stride, TightStride(d)) &&
      |r.data| == |rented| && r.data[..n] == Rows(d.data, d.height, d.stride, TightStride(d)) &&
      r.data[n..] == rented[n..]
    ensures d.stride != TightStride(d) ==> (r.Copied? <==>
      Fits(d.data, d.height, d.stride, TightStride(d)) && forall i :: 0 <= i < d.height ==> !canceled(i))
    ensures r.Canceled? ==> (d.stride != TightStride(d) && r.row < d.height && canceled(r.row) &&
      forall i :: 0 <= i < r.row ==> !canceled(i))
    ensures r.SourceTooShort? ==> (d.stride != TightStride(d) && r.row < d.height &&
      Fits(d.data, r.row, d.stride, TightStride(d)) && r.row * d.stride + TightStride(d) > |d.data| &&
      forall i :: 0 <= i <= r.row ==> !canceled(i))
  {
    var tight := TightStride(d);
    if d.stride != tight {
      r := CopyRows(d.data, d.height, d.stride, tight, rented, true, canceled);
      if r.SourceTooShort? && Fits(d.data, d.height, d.stride, tight) {
        FitsRow(d.data, r.row, d.height, d.stride, tight);
      }
    } else {
      r := Copied(d.data);
    }
  }

  /** The data the buffer-based loader hands to the decoder: the tile bytes
      copied to the front of a rented array, exposed only up to the tile's
      length, so whatever the pool left in the array is never read. */
  function DecoderInput(buffer: seq<byte>, rented: seq<byte>): (r: seq<byte>)
    requires |buffer| <= |rented|
    ensures r == buffer
  {
    var copied := buffer + rented[|buffer|..];
    copied[..|buffer|]
  }
}
