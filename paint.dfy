/** mapOnPaintToTexture: turns one Berkelium paint notification (a dirty
    rectangle with its pixels, a scroll offset and the scrolled rectangle)
    into texture writes. Painted and PaintOutcome say what the texture holds
    afterwards; MapOnPaintToTexture performs the same steps as the C++
    mapOnPaintToTexture does, including the in-place compaction of the
    scroll buffer. */
module Paint {
  import opened Rects
  import opened Layout
  import opened Textures

  /** The source side of a scroll: the pixels of scrollRect whose content,
      moved by (dx, dy), stays inside scrollRect. */
  function ScrolledSharedRect(scrollRect: Rect, dx: int, dy: int): (r: Rect)
    ensures forall x, y {:trigger r.Contains(x, y)} ::
              r.Contains(x, y) <==> scrollRect.Contains(x, y) && scrollRect.Contains(x + dx, y + dy)
    ensures r.width > 0 && r.height > 0 ==> r.Within(scrollRect) && r.Translate(dx, dy).Within(scrollRect)
  {
    var r := scrollRect.Intersect(scrollRect.Translate(-dx, -dy));
    assert r.width > 0 && r.height > 0 ==> r.Translate(dx, dy).Within(scrollRect) by {
      if r.width > 0 && r.height > 0 {
        assert r.Within(scrollRect.Translate(-dx, -dy));
      }
    }
    r
  }

  /** The scroll step copies anything only for a non-zero offset whose
      source and destination overlap. */
  predicate ScrollMoves(scrollRect: Rect, dx: int, dy: int) {
    var src := ScrolledSharedRect(scrollRect, dx, dy);
    (dx != 0 || dy != 0) && src.width > 0 && src.height > 0
  }

  /** The texture bytes after the scroll step: the shared block moves by (dx, dy). */
  function Scrolled(bytes: seq<byte>, w: nat, h: nat, dx: int, dy: int, scrollRect: Rect): (out: seq<byte>)
    requires |bytes| == w * h * BytesPerPixel
    requires dx != 0 || dy != 0 ==> InBounds(scrollRect, w, h)
    ensures |out| == |bytes|
  {
    if ScrollMoves(scrollRect, dx, dy) then
      var src := ScrolledSharedRect(scrollRect, dx, dy);
      WriteRect(bytes, w, h, src.Translate(dx, dy), Extract(bytes, w, h, src))
    else
      bytes
  }

  /** The texture bytes after a paint that is not suppressed: the scroll
      step, then the dirty rectangle. */
  function Painted(bytes: seq<byte>, w: nat, h: nat, bitmapIn: seq<byte>, bitmapRect: Rect,
                   dx: int, dy: int, scrollRect: Rect): (out: seq<byte>)
    requires |bytes| == w * h * BytesPerPixel
    requires InBounds(bitmapRect, w, h) && |bitmapIn| == bitmapRect.width * bitmapRect.height * BytesPerPixel
    requires dx != 0 || dy != 0 ==> InBounds(scrollRect, w, h)
    ensures |out| == |bytes|
  {
    WriteRect(Scrolled(bytes, w, h, dx, dy, scrollRect), w, h, bitmapRect, bitmapIn)
  }

  /** The literal test of the suppression branch: corners at (0, 0) and (w, h). */
  predicate CoversTexture(r: Rect, w: int, h: int) {
    r.left == 0 && r.top == 0 && r.Right() == w && r.Bottom() == h
  }

  /** What a caller must supply: the rectangles the call will use lie in the
      texture, and the bitmap holds exactly the dirty rectangle's pixels. */
  predicate PaintArgsOk(w: nat, h: nat, ignorePartial: bool, bitmapIn: seq<byte>, bitmapRect: Rect,
                        dx: int, dy: int, scrollRect: Rect) {
    && ((!ignorePartial || CoversTexture(bitmapRect, w, h)) ==>
          InBounds(bitmapRect, w, h) && |bitmapIn| == bitmapRect.width * bitmapRect.height * BytesPerPixel)
    && (!ignorePartial && (dx != 0 || dy != 0) ==> InBounds(scrollRect, w, h))
  }

  /** A partial update needs the texture to hold a w-by-h image already. */
  predicate TextureReady(image: TexImage, w: nat, h: nat, ignorePartial: bool) {
    !ignorePartial ==> image.HasSize(w, h)
  }

  datatype PaintResult = PaintResult(updated: bool, image: TexImage)

  /** The return value of mapOnPaintToTexture and the texture image it leaves. */
  function PaintOutcome(image: TexImage, w: nat, h: nat, ignorePartial: bool, bitmapIn: seq<byte>,
                        bitmapRect: Rect, dx: int, dy: int, scrollRect: Rect): (res: PaintResult)
    requires TextureReady(image, w, h, ignorePartial)
    requires PaintArgsOk(w, h, ignorePartial, bitmapIn, bitmapRect, dx, dy, scrollRect)
    ensures res.updated <==> !ignorePartial || bitmapRect == FullRect(w, h)
    ensures !res.updated ==> res.image == image
    ensures res.updated ==> res.image.HasSize(w, h)
    ensures ignorePartial && res.updated ==> res.image.bytes == bitmapIn
  {
    if ignorePartial then
      if !CoversTexture(bitmapRect, w, h) then PaintResult(false, image)
      else PaintResult(true, Pixels(w, h, bitmapIn))
    else
      PaintResult(true, Pixels(w, h, Painted(image.bytes, w, h, bitmapIn, bitmapRect, dx, dy, scrollRect)))
  }

  /** Pixel by pixel, a paint that is not suppressed leaves: the new bitmap
      inside the dirty rectangle; elsewhere, for a non-zero offset, the old
      pixel (x - dx, y - dy) wherever both it and (x, y) lie in the scroll
      rectangle; and the old pixel everywhere else. */
  lemma PaintedAt(bytes: seq<byte>, w: nat, h: nat, bitmapIn: seq<byte>, bitmapRect: Rect,
                  dx: int, dy: int, scrollRect: Rect, x: int, y: int, c: int)
    requires |bytes| == w * h * BytesPerPixel
    requires InBounds(bitmapRect, w, h) && |bitmapIn| == bitmapRect.width * bitmapRect.height * BytesPerPixel
    requires dx != 0 || dy != 0 ==> InBounds(scrollRect, w, h)
    requires 0 <= x < w && 0 <= y < h && 0 <= c < BytesPerPixel
    ensures Painted(bytes, w, h, bitmapIn, bitmapRect, dx, dy, scrollRect)[Offset(w, h, x, y, c)] ==
            if bitmapRect.Contains(x, y) then
              bitmapIn[Offset(bitmapRect.width, bitmapRect.height, x - bitmapRect.left, y - bitmapRect.top, c)]
            else if (dx != 0 || dy != 0) && scrollRect.Contains(x, y) && scrollRect.Contains(x - dx, y - dy) then
              bytes[Offset(w, h, x - dx, y - dy, c)]
            else
              bytes[Offset(w, h, x, y, c)]
  {
    var scrolled := Scrolled(bytes, w, h, dx, dy, scrollRect);
    WriteRectAt(scrolled, w, h, bitmapRect, bitmapIn, x, y, c);
    var src := ScrolledSharedRect(scrollRect, dx, dy);
    if ScrollMoves(scrollRect, dx, dy) {
      var dst := src.Translate(dx, dy);
      WriteRectAt(bytes, w, h, dst, Extract(bytes, w, h, src), x, y, c);
      if dst.Contains(x, y) {
        ExtractAt(bytes, w, h, src, x - dst.left, y - dst.top, c);
      }
    }
  }

  /** The same in the terms of the scroll step: inside the dirty rectangle
      the bitmap wins even where the scroll wrote; elsewhere a pixel of
      shared_rect (the shared rectangle moved by (dx, dy)) holds the old
      pixel (dx, dy) back; every pixel outside both keeps its old value. */
  lemma DirtyWriteAndFrame(bytes: seq<byte>, w: nat, h: nat, bitmapIn: seq<byte>, bitmapRect: Rect,
                           dx: int, dy: int, scrollRect: Rect, x: int, y: int, c: int)
    requires |bytes| == w * h * BytesPerPixel
    requires InBounds(bitmapRect, w, h) && |bitmapIn| == bitmapRect.width * bitmapRect.height * BytesPerPixel
    requires dx != 0 || dy != 0 ==> InBounds(scrollRect, w, h)
    requires 0 <= x < w && 0 <= y < h && 0 <= c < BytesPerPixel
    ensures var out := Painted(bytes, w, h, bitmapIn, bitmapRect, dx, dy, scrollRect);
            var moved := (dx != 0 || dy != 0) && ScrolledSharedRect(scrollRect, dx, dy).Translate(dx, dy).Contains(x, y);
            && (bitmapRect.Contains(x, y) ==>
                  out[Offset(w, h, x, y, c)] ==
                  bitmapIn[Offset(bitmapRect.width, bitmapRect.height, x - bitmapRect.left, y - bitmapRect.top, c)])
            && (!bitmapRect.Contains(x, y) && moved ==>
                  0 <= x - dx < w && 0 <= y - dy < h &&
                  out[Offset(w, h, x, y, c)] == bytes[Offset(w, h, x - dx, y - dy, c)])
            && (!bitmapRect.Contains(x, y) && !moved ==> out[Offset(w, h, x, y, c)] == bytes[Offset(w, h, x, y, c)])
  {
    PaintedAt(bytes, w, h, bitmapIn, bitmapRect, dx, dy, scrollRect, x, y, c);
    var shared := ScrolledSharedRect(scrollRect, dx, dy).Translate(dx, dy);
    assert shared.Contains(x, y) <==> scrollRect.Contains(x - dx, y - dy) && scrollRect.Contains(x, y);
  }

  /** With no offset, or an offset whose source and destination do not
      overlap, only the dirty rectangle is written. */
  lemma NoShuffleWithoutOverlap(bytes: seq<byte>, w: nat, h: nat, bitmapIn: seq<byte>, bitmapRect: Rect,
                                dx: int, dy: int, scrollRect: Rect)
    requires |bytes| == w * h * BytesPerPixel
    requires InBounds(bitmapRect, w, h) && |bitmapIn| == bitmapRect.width * bitmapRect.height * BytesPerPixel
    requires dx != 0 || dy != 0 ==> InBounds(scrollRect, w, h)
    requires (dx == 0 && dy == 0) || ScrolledSharedRect(scrollRect, dx, dy).width == 0
             || ScrolledSharedRect(scrollRect, dx, dy).height == 0
    ensures Painted(bytes, w, h, bitmapIn, bitmapRect, dx, dy, scrollRect) == WriteRect(bytes, w, h, bitmapRect, bitmapIn)
  {
  }

  /** Delivering the same update twice leaves the texture as delivering it
      once whenever the scroll step moves nothing: no offset, or an offset
      whose source and destination do not overlap. */
  lemma RepaintWithoutMoveIdempotent(image: TexImage, w: nat, h: nat, bitmapIn: seq<byte>, bitmapRect: Rect,
                                     dx: int, dy: int, scrollRect: Rect)
    requires TextureReady(image, w, h, false)
    requires PaintArgsOk(w, h, false, bitmapIn, bitmapRect, dx, dy, scrollRect)
    requires !ScrollMoves(scrollRect, dx, dy)
    ensures var once := PaintOutcome(image, w, h, false, bitmapIn, bitmapRect, dx, dy, scrollRect);
            PaintOutcome(once.image, w, h, false, bitmapIn, bitmapRect, dx, dy, scrollRect) == once
  {
    var once := Painted(image.bytes, w, h, bitmapIn, bitmapRect, dx, dy, scrollRect);
    NoShuffleWithoutOverlap(image.bytes, w, h, bitmapIn, bitmapRect, dx, dy, scrollRect);
    NoShuffleWithoutOverlap(once, w, h, bitmapIn, bitmapRect, dx, dy, scrollRect);
    WriteRectIdempotent(image.bytes, w, h, bitmapRect, bitmapIn);
  }

  /** Scrolling a whole texture down by one row and repainting the exposed
      top row is not safe to deliver twice: byte 0 of pixel (0, 1) holds the
      old top-left byte after one delivery and the bitmap's after two. */
  lemma ScrollingRepaintNotIdempotent(bytes: seq<byte>, w: nat, h: nat, bitmapIn: seq<byte>)
    requires 0 < w && 2 <= h && |bytes| == w * h * BytesPerPixel && |bitmapIn| == w * 1 * BytesPerPixel
    requires bytes[0] != bitmapIn[0]
    ensures var once := Painted(bytes, w, h, bitmapIn, Rect(0, 0, w, 1), 0, 1, FullRect(w, h));
            Painted(once, w, h, bitmapIn, Rect(0, 0, w, 1), 0, 1, FullRect(w, h)) != once
  {
    var once := Painted(bytes, w, h, bitmapIn, Rect(0, 0, w, 1), 0, 1, FullRect(w, h));
    ScrollDownOneRow(bytes, w, h, bitmapIn, 0, 0);
    ScrollDownOneRow(once, w, h, bitmapIn, 0, 0);
  }

  /** One delivery of that update: every channel of pixel (x, 1) takes the
      old value of pixel (x, 0), and pixel (x, 0) takes the bitmap's. */
  lemma ScrollDownOneRow(bytes: seq<byte>, w: nat, h: nat, bitmapIn: seq<byte>, x: int, c: int)
    requires 0 < w && 2 <= h && |bytes| == w * h * BytesPerPixel && |bitmapIn| == w * 1 * BytesPerPixel
    requires 0 <= x < w && 0 <= c < BytesPerPixel
    ensures var out := Painted(bytes, w, h, bitmapIn, Rect(0, 0, w, 1), 0, 1, FullRect(w, h));
            && out[Offset(w, h, x, 1, c)] == bytes[Offset(w, h, x, 0, c)]
            && out[Offset(w, h, x, 0, c)] == bitmapIn[Offset(w, 1, x, 0, c)]
  {
    PaintedAt(bytes, w, h, bitmapIn, Rect(0, 0, w, 1), 0, 1, FullRect(w, h), x, 1, c);
    PaintedAt(bytes, w, h, bitmapIn, Rect(0, 0, w, 1), 0, 1, FullRect(w, h), x, 0, c);
  }

  /** Content scrolled up by five rows inside the band of rows 10 to 49 of a
      100-row texture, with the bottom five rows repainted: rows 10 to 44
      take the old rows 15 to 49, rows 95 to 99 the new bitmap, and every
      other row keeps its pixels. */
  lemma ScrollUpExample(bytes: seq<byte>, w: nat, bitmapIn: seq<byte>, x: int, y: int, c: int)
    requires |bytes| == w * 100 * BytesPerPixel && |bitmapIn| == w * 5 * BytesPerPixel
    requires 0 <= x < w && 0 <= y < 100 && 0 <= c < BytesPerPixel
    ensures var out := Painted(bytes, w, 100, bitmapIn, Rect(0, 95, w, 5), 0, -5, Rect(0, 10, w, 40));
            && (10 <= y < 45 ==> out[Offset(w, 100, x, y, c)] == bytes[Offset(w, 100, x, y + 5, c)])
            && ((y < 10 || 45 <= y < 95) ==> out[Offset(w, 100, x, y, c)] == bytes[Offset(w, 100, x, y, c)])
            && (95 <= y ==> out[Offset(w, 100, x, y, c)] == bitmapIn[Offset(w, 5, x, y - 95, c)])
  {
    PaintedAt(bytes, w, 100, bitmapIn, Rect(0, 95, w, 5), 0, -5, Rect(0, 10, w, 40), x, y, c);
  }

  /** Every row of the compaction moves towards the front of the buffer and
      stays inside the snapshot; so no row is overwritten before it is copied. */
  lemma RowCopyMovesBackward(w: nat, h: nat, r: Rect, jj: int)
    requires InBounds(r, w, h) && 0 <= jj < r.height
    ensures 0 <= PackedRowStart(r.width, jj) <= RowStart(w, r.left, r.top + jj)
    ensures RowStart(w, r.left, r.top + jj) + r.width * BytesPerPixel <= w * h * BytesPerPixel
    ensures PackedRowStart(r.width, jj + 1) == PackedRowStart(r.width, jj) + r.width * BytesPerPixel
  {
    MulMonotone(r.width, w, jj);
    RowInImage(w, h, r, jj);
  }

  /** `next` is `prev` with the n bytes at src copied to dst, every other
      byte unchanged. */
  predicate MovedBytes(prev: seq<byte>, next: seq<byte>, dst: int, src: int, n: int) {
    && 0 <= dst && 0 <= src && 0 <= n && dst + n <= |prev| && src + n <= |prev| && |next| == |prev|
    && next[..dst] == prev[..dst]
    && next[dst..dst + n] == prev[src..src + n]
    && next[dst + n..] == prev[dst + n..]
  }

  /** The packed block is PackedRowStart(width, height) bytes long and fits in
      the texture's w * h * 4. */
  lemma BlockSize(w: nat, h: nat, r: Rect)
    requires InBounds(r, w, h)
    ensures PackedRowStart(r.width, r.height) == r.width * r.height * BytesPerPixel
    ensures r.width * r.height * BytesPerPixel <= w * h * BytesPerPixel
  {
    MulMonotone(r.height, h, r.width);
    MulMonotone(r.width, w, h);
  }

  /** One row of the compaction: n bytes from src to dst, overlapping or not,
      with every source byte read before any destination byte is written. */
  method MemMove(buffer: array<byte>, dst: nat, src: nat, n: nat)
    requires dst + n <= buffer.Length && src + n <= buffer.Length
    modifies buffer
    ensures MovedBytes(old(buffer[..]), buffer[..], dst, src, n)
  {
    forall k | dst <= k < dst + n {
      buffer[k] := buffer[src + (k - dst)];
    }
    assert buffer[..dst] == old(buffer[..dst]);
  }

  /** Copying n bytes from src, at or after dst, to dst appends them to the
      prefix before dst, as long as nothing from dst on has changed yet. */
  lemma MovePrefix(original: seq<byte>, prev: seq<byte>, next: seq<byte>, packed: seq<byte>,
                   dst: int, src: int, n: int, size: int)
    requires 0 <= dst <= src && 0 <= n && src + n <= size <= |original| == |prev|
    requires prev[..dst] == packed && prev[dst..] == original[dst..]
    requires MovedBytes(prev, next, dst, src, n)
    ensures next[..dst + n] == packed + original[src..src + n]
  {
    forall t | 0 <= t < dst + n ensures next[t] == (packed + original[src..src + n])[t] {
      if t < dst {
        assert next[t] == next[..dst][t] == prev[..dst][t];
      } else {
        assert next[t] == next[dst..dst + n][t - dst] == prev[src..src + n][t - dst];
        assert prev[src + (t - dst)] == prev[dst..][src + (t - dst) - dst];
      }
    }
  }

  /** Moving row jj extends the packed prefix by that row. */
  lemma CompactStepPrefix(snapshot: seq<byte>, original: seq<byte>, w: nat, h: nat, r: Rect, jj: int,
                          prev: seq<byte>, next: seq<byte>)
    requires InBounds(r, w, h) && 0 <= jj < r.height
    requires |snapshot| == w * h * BytesPerPixel <= |original| == |prev|
    requires snapshot == original[..|snapshot|]
    requires 0 <= PackedRowStart(r.width, jj) <= |prev|
    requires prev[..PackedRowStart(r.width, jj)] == ExtractRows(snapshot, w, h, r, jj)
    requires prev[PackedRowStart(r.width, jj)..] == original[PackedRowStart(r.width, jj)..]
    requires MovedBytes(prev, next, PackedRowStart(r.width, jj), RowStart(w, r.left, r.top + jj), r.width * BytesPerPixel)
    ensures PackedRowStart(r.width, jj + 1) <= |snapshot|
    ensures next[..PackedRowStart(r.width, jj + 1)] == ExtractRows(snapshot, w, h, r, jj + 1)
  {
    var dst, src, n := PackedRowStart(r.width, jj), RowStart(w, r.left, r.top + jj), r.width * BytesPerPixel;
    RowCopyMovesBackward(w, h, r, jj);
    MovePrefix(original, prev, next, ExtractRows(snapshot, w, h, r, jj), dst, src, n, |snapshot|);
    assert snapshot[src..src + n] == original[src..src + n];
    assert ExtractRows(snapshot, w, h, r, jj + 1) == ExtractRows(snapshot, w, h, r, jj) + snapshot[src..src + n];
  }

  /** Moving row jj leaves everything after the new packed prefix as it was. */
  lemma CompactStepSuffix(original: seq<byte>, prev: seq<byte>, next: seq<byte>, dst: int, src: int, n: int)
    requires |original| == |prev| && 0 <= dst <= |prev| && prev[dst..] == original[dst..]
    requires MovedBytes(prev, next, dst, src, n)
    ensures next[dst + n..] == original[dst + n..]
  {
    assert prev[dst + n..] == prev[dst..][n..];
    assert original[dst + n..] == original[dst..][n..];
  }

  /** One pass of the compaction loop: memmove row jj of r to its packed
      place, keeping the loop's invariant. */
  method CompactRow(buffer: array<byte>, w: nat, h: nat, r: Rect, jj: int,
                    ghost snapshot: seq<byte>, ghost original: seq<byte>)
    requires InBounds(r, w, h) && 0 <= jj < r.height
    requires |snapshot| == w * h * BytesPerPixel <= buffer.Length == |original|
    requires snapshot == original[..|snapshot|]
    requires 0 <= PackedRowStart(r.width, jj) <= |snapshot|
    requires buffer[..PackedRowStart(r.width, jj)] == ExtractRows(snapshot, w, h, r, jj)
    requires buffer[PackedRowStart(r.width, jj)..] == original[PackedRowStart(r.width, jj)..]
    modifies buffer
    ensures PackedRowStart(r.width, jj + 1) <= |snapshot|
    ensures buffer[..PackedRowStart(r.width, jj + 1)] == ExtractRows(snapshot, w, h, r, jj + 1)
    ensures buffer[PackedRowStart(r.width, jj + 1)..] == original[PackedRowStart(r.width, jj + 1)..]
  {
    var dst, src, n := PackedRowStart(r.width, jj), RowStart(w, r.left, r.top + jj), r.width * BytesPerPixel;
    assert dst <= src && src + n <= |snapshot| && PackedRowStart(r.width, jj + 1) == dst + n by {
      RowCopyMovesBackward(w, h, r, jj);
    }
    ghost var prev := buffer[..];
    MemMove(buffer, dst, src, n);
    CompactStepPrefix(snapshot, original, w, h, r, jj, prev, buffer[..]);
    CompactStepSuffix(original, prev, buffer[..], dst, src, n);
  }

  /** The compaction loop: packs rectangle r of the w-by-h snapshot held at
      the front of the buffer into its first r.width * r.height pixels,
      in place; the rest of the buffer keeps its bytes. */
  method CompactRect(buffer: array<byte>, w: nat, h: nat, r: Rect)
    requires InBounds(r, w, h) && w * h * BytesPerPixel <= buffer.Length
    modifies buffer
    ensures buffer[..r.width * r.height * BytesPerPixel] == Extract(old(buffer[..w * h * BytesPerPixel]), w, h, r)
    ensures buffer[r.width * r.height * BytesPerPixel..] == old(buffer[r.width * r.height * BytesPerPixel..])
  {
    MulMonotone(0, w, h);
    ghost var original := buffer[..];
    ghost var snapshot := original[..w * h * BytesPerPixel];
    var wid, hig := r.width, r.height;
    var jj := 0;
    while jj < hig
      invariant 0 <= jj <= hig
      invariant 0 <= PackedRowStart(wid, jj) <= |snapshot|
      invariant buffer[..PackedRowStart(wid, jj)] == ExtractRows(snapshot, w, h, r, jj)
      invariant buffer[PackedRowStart(wid, jj)..] == original[PackedRowStart(wid, jj)..]
    {
      CompactRow(buffer, w, h, r, jj, snapshot, original);
      jj := jj + 1;
    }
    BlockSize(w, h, r);
  }

  /** The scroll step of mapOnPaintToTexture: for a non-zero offset whose
      shared rectangle is not empty, read the texture back into the scroll
      buffer, pack the shared rectangle at the buffer's front and write it
      back at its destination. */
  method ScrollTexture(destTexture: Texture, w: nat, h: nat, dx: int, dy: int, scrollRect: Rect,
                       scrollBuffer: array<byte>)
    requires destTexture.image.HasSize(w, h)
    requires dx != 0 || dy != 0 ==> InBounds(scrollRect, w, h)
    requires w * h * BytesPerPixel <= scrollBuffer.Length
    modifies destTexture, scrollBuffer
    ensures destTexture.image == Pixels(w, h, Scrolled(old(destTexture.image.bytes), w, h, dx, dy, scrollRect))
    ensures !ScrollMoves(scrollRect, dx, dy) ==> scrollBuffer[..] == old(scrollBuffer[..])
    ensures scrollBuffer[w * h * BytesPerPixel..] == old(scrollBuffer[w * h * BytesPerPixel..])
  {
    if dx != 0 || dy != 0 {
      var scrolledRect := scrollRect.Translate(-dx, -dy);
      var scrolledSharedRect := scrollRect.Intersect(scrolledRect);
      if scrolledSharedRect.width > 0 && scrolledSharedRect.height > 0 {
        assert scrolledSharedRect == ScrolledSharedRect(scrollRect, dx, dy);
        var sharedRect := scrolledSharedRect.Translate(dx, dy);
        destTexture.GetTexImage(scrollBuffer);
        var wid, hig := scrolledSharedRect.width, scrolledSharedRect.height;
        CompactRect(scrollBuffer, w, h, scrolledSharedRect);
        MulMonotone(hig, h, wid);
        MulMonotone(wid, w, h);
        destTexture.TexSubImage2D(sharedRect, scrollBuffer[..wid * hig * BytesPerPixel]);
      }
    }
  }

  /** mapOnPaintToTexture. Returns whether the texture was updated; the
      texture image afterwards is the one PaintOutcome gives. */
  method MapOnPaintToTexture(bitmapIn: seq<byte>, bitmapRect: Rect, dx: int, dy: int, scrollRect: Rect,
                             destTexture: Texture, destTextureWidth: nat, destTextureHeight: nat,
                             ignorePartial: bool, scrollBuffer: array<byte>)
    returns (updated: bool)
    requires TextureReady(destTexture.image, destTextureWidth, destTextureHeight, ignorePartial)
    requires PaintArgsOk(destTextureWidth, destTextureHeight, ignorePartial, bitmapIn, bitmapRect, dx, dy, scrollRect)
    requires destTextureWidth * destTextureHeight * BytesPerPixel <= scrollBuffer.Length
    modifies destTexture, scrollBuffer
    ensures PaintResult(updated, destTexture.image) ==
            PaintOutcome(old(destTexture.image), destTextureWidth, destTextureHeight, ignorePartial,
                         bitmapIn, bitmapRect, dx, dy, scrollRect)
    ensures !updated ==> scrollBuffer[..] == old(scrollBuffer[..])
    ensures ignorePartial || !ScrollMoves(scrollRect, dx, dy) ==> scrollBuffer[..] == old(scrollBuffer[..])
    ensures scrollBuffer[destTextureWidth * destTextureHeight * BytesPerPixel..] ==
            old(scrollBuffer[destTextureWidth * destTextureHeight * BytesPerPixel..])
  {
    var w, h := destTextureWidth, destTextureHeight;
    if ignorePartial {
      if bitmapRect.left != 0 || bitmapRect.top != 0 || bitmapRect.Right() != w || bitmapRect.Bottom() != h {
        return false;
      }
      destTexture.TexImage2D(w, h, bitmapIn);
      return true;
    }

    ScrollTexture(destTexture, w, h, dx, dy, scrollRect, scrollBuffer);
    destTexture.TexSubImage2D(bitmapRect, bitmapIn);
    updated := true;
  }

  /** memcpy's contract in C: the two byte ranges must not overlap. */
  predicate MemcpyDefined(dst: int, src: int, n: int) {
    dst + n <= src || src + n <= dst
  }

  /** The compaction loop as written hands memcpy overlapping ranges: for a
      scroll rectangle spanning the texture's width w, content moving left by
      fewer than w / 2 pixels makes the first row copy (w + dx) * 4 bytes
      from offset -dx * 4 to offset 0. With w = 10 and dx = -3 that is 28
      bytes from offset 12. */
  lemma CompactionMemcpyOverlaps(w: nat, rows: nat, dx: int)
    requires 0 < rows && dx < 0 && -2 * dx < w
    ensures var scrollRect := Rect(0, 0, w, rows);
            var src := ScrolledSharedRect(scrollRect, dx, 0);
            && src == Rect(-dx, 0, w + dx, rows)
            && ScrollMoves(scrollRect, dx, 0)
            && PackedRowStart(src.width, 0) == 0 && RowStart(w, src.left, src.top) == -dx * BytesPerPixel
            && !MemcpyDefined(PackedRowStart(src.width, 0), RowStart(w, src.left, src.top), src.width * BytesPerPixel)
  {
    var scrollRect := Rect(0, 0, w, rows);
    assert scrollRect.Translate(-dx, 0) == Rect(-dx, 0, w, rows);
    assert scrollRect.Intersect(Rect(-dx, 0, w, rows)) == Rect(-dx, 0, w + dx, rows);
  }
}
