/** Byte layout of the images exchanged with the texture: row-major, no row
    padding, four bytes per pixel. Offset and PixelCoords convert between a
    byte index and (column, row, channel); WriteRect and Extract are the two
    sub-rectangle transfers the texture supports. */
module Layout {
  import opened Rects

  newtype byte = x: int | 0 <= x < 256

  const BytesPerPixel: nat := 4

  lemma MulMonotone(a: int, b: int, k: int)
    requires a <= b && 0 <= k
    ensures a * k <= b * k
  {
  }

  /** Euclidean division has one quotient and one remainder. */
  lemma DivModUnique(n: int, d: int, q: int, r: int)
    requires 0 < d && 0 <= r < d && n == q * d + r
    ensures n / d == q && n % d == r
  {
    var q', r' := n / d, n % d;
    assert n == q' * d + r' && 0 <= r' < d;
    if q' < q {
      MulMonotone(q' + 1, q, d);
      assert false;
    } else if q < q' {
      MulMonotone(q + 1, q', d);
      assert false;
    }
  }

  /** Byte index of channel c of pixel (x, y) in a w-by-h image. */
  function Offset(w: int, h: int, x: int, y: int, c: int): (i: nat)
    requires 0 <= x < w && 0 <= y < h && 0 <= c < BytesPerPixel
    ensures i < w * h * BytesPerPixel
  {
    MulMonotone(y + 1, h, w);
    BytesPerPixel * (y * w + x) + c
  }

  /** The pixel and channel that byte i of a w-by-h image belongs to. */
  function PixelCoords(w: int, h: int, i: int): (p: (int, int, int))
    requires 0 < w && 0 <= h && 0 <= i < w * h * BytesPerPixel
    ensures 0 <= p.0 < w && 0 <= p.1 < h && 0 <= p.2 < BytesPerPixel
    ensures Offset(w, h, p.0, p.1, p.2) == i
  {
    var q := i / BytesPerPixel;
    var x, y := q % w, q / w;
    assert q == y * w + x;
    assert y < h by {
      if h <= y { MulMonotone(h, y, w); }
    }
    (x, y, i % BytesPerPixel)
  }

  /** Offset and PixelCoords are inverse: a byte index names one pixel and channel. */
  lemma CoordsOfOffset(w: int, h: int, x: int, y: int, c: int)
    requires 0 <= x < w && 0 <= y < h && 0 <= c < BytesPerPixel
    ensures PixelCoords(w, h, Offset(w, h, x, y, c)) == (x, y, c)
  {
    var i := Offset(w, h, x, y, c);
    DivModUnique(i, BytesPerPixel, y * w + x, c);
    DivModUnique(y * w + x, w, y, x);
  }

  /** Byte index of pixel (x, y) at a row stride of w pixels. */
  function RowStart(w: int, x: int, y: int): int {
    (y * w + x) * BytesPerPixel
  }

  /** Byte index of row j of a tightly packed block wid pixels wide. */
  function PackedRowStart(wid: int, j: int): int {
    j * wid * BytesPerPixel
  }

  /** Row j of a rectangle inside a w-by-h image is a run of r.width pixels
      that ends inside the image. */
  lemma RowInImage(w: nat, h: nat, r: Rect, j: int)
    requires InBounds(r, w, h) && 0 <= j < r.height
    ensures 0 <= RowStart(w, r.left, r.top + j)
    ensures RowStart(w, r.left, r.top + j) + r.width * BytesPerPixel <= w * h * BytesPerPixel
  {
    MulMonotone(r.top + j + 1, h, w);
  }

  /** The first n rows of rectangle r of a w-by-h image, tightly packed. */
  function ExtractRows(bytes: seq<byte>, w: nat, h: nat, r: Rect, n: int): (packed: seq<byte>)
    requires |bytes| == w * h * BytesPerPixel && InBounds(r, w, h) && 0 <= n <= r.height
    ensures |packed| == n * r.width * BytesPerPixel
    decreases n
  {
    if n == 0 then []
    else
      var start := RowStart(w, r.left, r.top + n - 1);
      RowInImage(w, h, r, n - 1);
      ExtractRows(bytes, w, h, r, n - 1) + bytes[start..start + r.width * BytesPerPixel]
  }

  /** The sub-rectangle r of a w-by-h image, tightly packed row by row. */
  function Extract(bytes: seq<byte>, w: nat, h: nat, r: Rect): (packed: seq<byte>)
    requires |bytes| == w * h * BytesPerPixel && InBounds(r, w, h)
    ensures |packed| == r.width * r.height * BytesPerPixel
  {
    ExtractRows(bytes, w, h, r, r.height)
  }

  /** Row j of a packed r.width-by-r.height block lies inside the block. */
  lemma RowInBlock(r: Rect, j: int)
    requires 0 <= r.width && 0 <= j < r.height
    ensures 0 <= PackedRowStart(r.width, j)
    ensures PackedRowStart(r.width, j) + r.width * BytesPerPixel <= r.width * r.height * BytesPerPixel
  {
    MulMonotone(j + 1, r.height, r.width);
  }

  /** `image` with row j of the packed block `pixels` written over row j of
      rectangle r, at row stride w. */
  function WriteRow(image: seq<byte>, w: nat, h: nat, r: Rect, pixels: seq<byte>, j: int): (out: seq<byte>)
    requires |image| == w * h * BytesPerPixel && InBounds(r, w, h)
    requires |pixels| == r.width * r.height * BytesPerPixel && 0 <= j < r.height
    ensures |out| == |image|
  {
    var start, k, run := RowStart(w, r.left, r.top + j), PackedRowStart(r.width, j), r.width * BytesPerPixel;
    RowInBlock(r, j);
    seq(|image|, i requires 0 <= i < |image| =>
      if start <= i < start + run then pixels[k + (i - start)] else image[i])
  }

  /** The w-by-h image `bytes` once the first n rows of the tightly packed
      r.width-by-r.height block `pixels` have been written at rectangle r. */
  function WriteRows(bytes: seq<byte>, w: nat, h: nat, r: Rect, pixels: seq<byte>, n: int): (out: seq<byte>)
    requires |bytes| == w * h * BytesPerPixel && InBounds(r, w, h)
    requires |pixels| == r.width * r.height * BytesPerPixel && 0 <= n <= r.height
    ensures |out| == |bytes|
    decreases n
  {
    if n == 0 then bytes
    else WriteRow(WriteRows(bytes, w, h, r, pixels, n - 1), w, h, r, pixels, n - 1)
  }

  /** The w-by-h image `bytes` once the tightly packed r.width-by-r.height
      block `pixels` has been written at rectangle r. */
  function WriteRect(bytes: seq<byte>, w: nat, h: nat, r: Rect, pixels: seq<byte>): (out: seq<byte>)
    requires |bytes| == w * h * BytesPerPixel && InBounds(r, w, h)
    requires |pixels| == r.width * r.height * BytesPerPixel
    ensures |out| == |bytes|
  {
    WriteRows(bytes, w, h, r, pixels, r.height)
  }

  /** Byte (x, y, c) of the image falls in the run of row j of r exactly
      when (x, y) is a pixel of that row, at position 4 * (x - left) + c. */
  lemma RowSpan(w: nat, h: nat, r: Rect, j: int, x: int, y: int, c: int)
    requires InBounds(r, w, h) && 0 <= j < r.height
    requires 0 <= x < w && 0 <= y < h && 0 <= c < BytesPerPixel
    ensures var i, start := Offset(w, h, x, y, c), RowStart(w, r.left, r.top + j);
            && (start <= i < start + r.width * BytesPerPixel <==>
                  y == r.top + j && r.left <= x < r.left + r.width)
            && (y == r.top + j ==> i - start == BytesPerPixel * (x - r.left) + c)
  {
    var row := r.top + j;
    var a, b := y * w + x, row * w + r.left;
    assert Offset(w, h, x, y, c) == BytesPerPixel * a + c;
    assert RowStart(w, r.left, row) == BytesPerPixel * b;
    RowRun(w, x, y, row, r.left, r.width);
  }

  /** Pixel (x, y) at stride w lies in the run of wid pixels starting at
      (left, row) exactly when it is on that row between left and left + wid. */
  lemma RowRun(w: int, x: int, y: int, row: int, left: int, wid: int)
    requires 0 <= x < w && 0 <= left && 0 <= wid && left + wid <= w
    ensures row * w + left <= y * w + x < row * w + left + wid <==> y == row && left <= x < left + wid
  {
    if y < row {
      MulMonotone(y + 1, row, w);
      assert y * w + x < (y + 1) * w;
    } else if y > row {
      MulMonotone(row + 1, y, w);
      assert (row + 1) * w <= y * w + x;
    }
  }

  /** Writing row n - 1 of the block: a pixel of that row takes its byte
      from the block. */
  lemma WriteRowsLastRow(bytes: seq<byte>, w: nat, h: nat, r: Rect, pixels: seq<byte>, n: int,
                         x: int, y: int, c: int)
    requires |bytes| == w * h * BytesPerPixel && InBounds(r, w, h)
    requires |pixels| == r.width * r.height * BytesPerPixel && 0 < n <= r.height
    requires r.left <= x < r.left + r.width && y == r.top + n - 1 && 0 <= c < BytesPerPixel
    ensures WriteRows(bytes, w, h, r, pixels, n)[Offset(w, h, x, y, c)] ==
            pixels[Offset(r.width, r.height, x - r.left, y - r.top, c)]
  {
    var i := Offset(w, h, x, y, c);
    var start, k := RowStart(w, r.left, r.top + n - 1), PackedRowStart(r.width, n - 1);
    assert i == start + BytesPerPixel * (x - r.left) + c &&
           Offset(r.width, r.height, x - r.left, y - r.top, c) == k + BytesPerPixel * (x - r.left) + c by {
      LastRowOffsets(w, h, r, n, x - r.left, c);
    }
    assert WriteRows(bytes, w, h, r, pixels, n)[i] == pixels[k + (i - start)];
  }

  /** Writing row n - 1 of the block leaves every byte outside that row as
      the first n - 1 rows left it. */
  lemma WriteRowsOtherRow(bytes: seq<byte>, w: nat, h: nat, r: Rect, pixels: seq<byte>, n: int,
                          x: int, y: int, c: int)
    requires |bytes| == w * h * BytesPerPixel && InBounds(r, w, h)
    requires |pixels| == r.width * r.height * BytesPerPixel && 0 < n <= r.height
    requires 0 <= x < w && 0 <= y < h && 0 <= c < BytesPerPixel
    requires !(r.left <= x < r.left + r.width && y == r.top + n - 1)
    ensures WriteRows(bytes, w, h, r, pixels, n)[Offset(w, h, x, y, c)] ==
            WriteRows(bytes, w, h, r, pixels, n - 1)[Offset(w, h, x, y, c)]
  {
    var i, start := Offset(w, h, x, y, c), RowStart(w, r.left, r.top + n - 1);
    assert !(start <= i < start + r.width * BytesPerPixel) by {
      RowSpan(w, h, r, n - 1, x, y, c);
    }
  }

  /** Per pixel, after n rows: the packed input where (x, y) is in one of
      the first n rows of r, the old image everywhere else. */
  lemma {:induction false} WriteRowsAt(bytes: seq<byte>, w: nat, h: nat, r: Rect, pixels: seq<byte>, n: int,
                                       x: int, y: int, c: int)
    requires |bytes| == w * h * BytesPerPixel && InBounds(r, w, h)
    requires |pixels| == r.width * r.height * BytesPerPixel && 0 <= n <= r.height
    requires 0 <= x < w && 0 <= y < h && 0 <= c < BytesPerPixel
    ensures WriteRows(bytes, w, h, r, pixels, n)[Offset(w, h, x, y, c)] ==
            if r.Contains(x, y) && y < r.top + n then pixels[Offset(r.width, r.height, x - r.left, y - r.top, c)]
            else bytes[Offset(w, h, x, y, c)]
    decreases n
  {
    if n > 0 {
      if r.left <= x < r.left + r.width && y == r.top + n - 1 {
        WriteRowsLastRow(bytes, w, h, r, pixels, n, x, y, c);
      } else {
        WriteRowsOtherRow(bytes, w, h, r, pixels, n, x, y, c);
        WriteRowsAt(bytes, w, h, r, pixels, n - 1, x, y, c);
      }
    }
  }

  /** Per pixel, WriteRect takes the packed input inside r and keeps the old
      image everywhere else. */
  lemma WriteRectAt(bytes: seq<byte>, w: nat, h: nat, r: Rect, pixels: seq<byte>, x: int, y: int, c: int)
    requires |bytes| == w * h * BytesPerPixel && InBounds(r, w, h)
    requires |pixels| == r.width * r.height * BytesPerPixel
    requires 0 <= x < w && 0 <= y < h && 0 <= c < BytesPerPixel
    ensures WriteRect(bytes, w, h, r, pixels)[Offset(w, h, x, y, c)] ==
            if r.Contains(x, y) then pixels[Offset(r.width, r.height, x - r.left, y - r.top, c)]
            else bytes[Offset(w, h, x, y, c)]
  {
    WriteRowsAt(bytes, w, h, r, pixels, r.height, x, y, c);
  }

  /** A byte of an earlier row of a packed block comes before row n - 1. */
  lemma PackedEarlierRow(r: Rect, n: int, x: int, y: int, c: int)
    requires 0 < n <= r.height && 0 <= x < r.width && 0 <= y < n - 1 && 0 <= c < BytesPerPixel
    ensures Offset(r.width, r.height, x, y, c) < (n - 1) * r.width * BytesPerPixel
  {
    MulMonotone(y + 1, n - 1, r.width);
  }

  /** Byte (x, c) of row n - 1 of rectangle r: its index in the packed block
      and in the w-by-h image, each from the start of that row. */
  lemma LastRowOffsets(w: nat, h: nat, r: Rect, n: int, x: int, c: int)
    requires InBounds(r, w, h) && 0 < n <= r.height && 0 <= x < r.width && 0 <= c < BytesPerPixel
    ensures Offset(r.width, r.height, x, n - 1, c) == (n - 1) * r.width * BytesPerPixel + BytesPerPixel * x + c
    ensures Offset(w, h, r.left + x, r.top + n - 1, c) == RowStart(w, r.left, r.top + n - 1) + BytesPerPixel * x + c
  {
  }

  /** Per pixel, byte (x, y, c) of the first n packed rows is byte
      (left + x, top + y, c) of the image. */
  lemma {:induction false} ExtractRowsAt(bytes: seq<byte>, w: nat, h: nat, r: Rect, n: int, x: int, y: int, c: int)
    requires |bytes| == w * h * BytesPerPixel && InBounds(r, w, h) && 0 <= n <= r.height
    requires 0 <= x < r.width && 0 <= y < n && 0 <= c < BytesPerPixel
    ensures Offset(r.width, r.height, x, y, c) < |ExtractRows(bytes, w, h, r, n)|
    ensures ExtractRows(bytes, w, h, r, n)[Offset(r.width, r.height, x, y, c)] ==
            bytes[Offset(w, h, r.left + x, r.top + y, c)]
  {
    var i := Offset(r.width, r.height, x, y, c);
    var prefix := ExtractRows(bytes, w, h, r, n - 1);
    var start := RowStart(w, r.left, r.top + n - 1);
    RowInImage(w, h, r, n - 1);
    var row := bytes[start..start + r.width * BytesPerPixel];
    assert ExtractRows(bytes, w, h, r, n) == prefix + row;
    if y < n - 1 {
      PackedEarlierRow(r, n, x, y, c);
      ExtractRowsAt(bytes, w, h, r, n - 1, x, y, c);
      assert (prefix + row)[i] == prefix[i];
    } else {
      LastRowOffsets(w, h, r, n, x, c);
      assert (prefix + row)[i] == row[BytesPerPixel * x + c];
    }
  }

  /** Per pixel, byte (x, y, c) of the packed block is byte (left + x, top + y, c)
      of the image. */
  lemma ExtractAt(bytes: seq<byte>, w: nat, h: nat, r: Rect, x: int, y: int, c: int)
    requires |bytes| == w * h * BytesPerPixel && InBounds(r, w, h)
    requires 0 <= x < r.width && 0 <= y < r.height && 0 <= c < BytesPerPixel
    ensures Extract(bytes, w, h, r)[Offset(r.width, r.height, x, y, c)] ==
            bytes[Offset(w, h, r.left + x, r.top + y, c)]
  {
    ExtractRowsAt(bytes, w, h, r, r.height, x, y, c);
  }

  /** Writing back the block just read from r leaves the image as it was. */
  lemma WriteExtractIdentity(bytes: seq<byte>, w: nat, h: nat, r: Rect)
    requires |bytes| == w * h * BytesPerPixel && InBounds(r, w, h)
    ensures WriteRect(bytes, w, h, r, Extract(bytes, w, h, r)) == bytes
  {
    var out := WriteRect(bytes, w, h, r, Extract(bytes, w, h, r));
    forall i | 0 <= i < |bytes| ensures out[i] == bytes[i] {
      var p := PixelCoords(w, h, i);
      WriteRectAt(bytes, w, h, r, Extract(bytes, w, h, r), p.0, p.1, p.2);
      if r.Contains(p.0, p.1) {
        ExtractAt(bytes, w, h, r, p.0 - r.left, p.1 - r.top, p.2);
      }
    }
  }

  /** Reading r back right after writing a block there returns that block. */
  lemma ExtractWriteIdentity(bytes: seq<byte>, w: nat, h: nat, r: Rect, pixels: seq<byte>)
    requires |bytes| == w * h * BytesPerPixel && InBounds(r, w, h)
    requires |pixels| == r.width * r.height * BytesPerPixel
    ensures Extract(WriteRect(bytes, w, h, r, pixels), w, h, r) == pixels
  {
    var out := WriteRect(bytes, w, h, r, pixels);
    var back := Extract(out, w, h, r);
    forall k | 0 <= k < |pixels| ensures back[k] == pixels[k] {
      var p := PixelCoords(r.width, r.height, k);
      ExtractAt(out, w, h, r, p.0, p.1, p.2);
      WriteRectAt(bytes, w, h, r, pixels, r.left + p.0, r.top + p.1, p.2);
    }
  }

  /** Writing the same block twice at the same place is the same as writing it once. */
  lemma WriteRectIdempotent(bytes: seq<byte>, w: nat, h: nat, r: Rect, pixels: seq<byte>)
    requires |bytes| == w * h * BytesPerPixel && InBounds(r, w, h)
    requires |pixels| == r.width * r.height * BytesPerPixel
    ensures WriteRect(WriteRect(bytes, w, h, r, pixels), w, h, r, pixels) == WriteRect(bytes, w, h, r, pixels)
  {
    var once := WriteRect(bytes, w, h, r, pixels);
    var twice := WriteRect(once, w, h, r, pixels);
    forall i | 0 <= i < |bytes| ensures twice[i] == once[i] {
      var p := PixelCoords(w, h, i);
      WriteRectAt(bytes, w, h, r, pixels, p.0, p.1, p.2);
      WriteRectAt(once, w, h, r, pixels, p.0, p.1, p.2);
    }
  }
}
