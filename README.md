# Berkelium GLUT texture reconciler, in Dafny

A model of the GLUT demo helpers of Berkelium (`demo/glut_util/glut_util.hpp`).
Berkelium renders a web page off screen and reports changes to it as paint
notifications. Each notification carries a dirty rectangle with its pixels, a
scroll offset `(dx, dy)` and the rectangle the scroll applies to. The helpers
keep an OpenGL texture equal to the page:

- `mapOnPaintToTexture` applies one notification to the texture. It has three
  steps:
  - suppression: while a full refresh is pending, only a notification covering
    the whole texture is accepted;
  - the scroll step: the texture is read back into a scratch buffer, the area
    that stays visible is packed at the front of the buffer, and that area is
    written back shifted;
  - the dirty-rectangle write.
- `GLTextureWindow` owns the texture, the scratch buffer and the
  `needs_full_refresh` flag. The flag is set at construction and by `clear()`,
  and cleared by the first paint the texture accepts.
- Four input helpers forward GLUT events to Berkelium: coordinate scaling,
  modifier bits, the test for control characters, and the special-key table.

The model works at the byte level:

- Texture images are flat, row-major `seq<byte>` with 4 bytes per pixel.
- `Layout.Extract` and `Layout.WriteRect` are the two sub-rectangle transfers.
- `Paint.Painted` and `Paint.PaintOutcome` state what the texture holds after
  a notification.
- The imperative code keeps its form:
  - the texture and the window are classes;
  - the scratch buffer is an `array<byte>`;
  - the compaction loop is a `while` loop over that array.
  Each method is proved against the specification functions above.

Modules:

- `Rects` (rectangles);
- `Layout` (byte layout);
- `Textures` (the GL texture);
- `Paint` (`mapOnPaintToTexture`);
- `TextureWindow` (`GLTextureWindow`);
- `GlutInput` (the input helpers).

Two consequences of the code's scroll step are worth stating directly:

- **The scroll moves the overlap, not the whole scroll rectangle.** The code
  moves `S ∩ (S − d)` to `S ∩ (S + d)`, where `S` is `scroll_rect` and `d` is
  `(dx, dy)`. So `scroll_rect` names both where content comes from and where
  it lands. Take a scroll of rows 10 to 49 up by 5: rows 15 to 49 move to rows
  10 to 44, and nothing reaches rows 5 to 9. `Paint.ScrollUpExample` proves
  this case.
- **Repeating a notification is not always harmless.** Delivering the same
  notification twice gives the same texture when the scroll step moves
  nothing: there is no offset, or the overlap is empty
  (`Paint.RepaintWithoutMoveIdempotent`). With a non-empty overlap the result
  can differ, for example when the whole texture scrolls down one row and only
  the top row is repainted (`Paint.ScrollingRepaintNotIdempotent`).

## Model

| member | source | states |
|---|---|---|
| Rects.Rect.Translate | demo/glut_util/glut_util.hpp:108 | The translated rectangle has the same size. Its origin moves by (dx, dy). It contains (x, y) exactly when the original contains (x − dx, y − dy). |
| Rects.Rect.Intersect | demo/glut_util/glut_util.hpp:111 | The intersection contains a point exactly when both rectangles do. Its extent is never negative. When non-empty, it lies within both rectangles. When empty, it is `Rect(0, 0, 0, 0)`. |
| Layout.Offset | demo/glut_util/glut_util.hpp:131-132 | The byte index 4·(y·w + x) + c of channel c of pixel (x, y) lies inside the w·h·4 bytes of the image. |
| Layout.PixelCoords | demo/glut_util/glut_util.hpp:131-132 | Every byte index of an image belongs to a pixel and channel inside the image, and Offset maps that pixel back to the index. |
| Layout.CoordsOfOffset | demo/glut_util/glut_util.hpp:131-132 | Offset is injective: PixelCoords recovers (x, y, c) from Offset(x, y, c). |
| Layout.RowInImage | demo/glut_util/glut_util.hpp:132-133 | Row j of a rectangle inside the texture starts at a non-negative index, and its wid·4 bytes end inside the texture. |
| Layout.Extract | demo/glut_util/glut_util.hpp:118-135 | The read-back plus the compaction: the rectangle r of the image, packed row by row. Its own contract gives only the length, wid·hig·4 bytes. The per-pixel meaning is in `Layout.ExtractAt`. |
| Layout.WriteRect | demo/glut_util/glut_util.hpp:139-153 | glTexSubImage2D's effect on the bytes. Its own contract gives only that the image length is kept. The per-pixel meaning is in `Layout.WriteRectAt`. |
| Layout.ExtractAt | demo/glut_util/glut_util.hpp:127-135 | Byte (x, y, c) of the packed block read from r is byte (r.left + x, r.top + y, c) of the image. |
| Layout.WriteRectAt | demo/glut_util/glut_util.hpp:139-143 | After writing a packed block at r, a pixel inside r holds the block's pixel, and every other pixel keeps its old value. |
| Layout.WriteExtractIdentity | demo/glut_util/glut_util.hpp:118-143 | Writing back the block just read from r leaves the image unchanged. |
| Layout.ExtractWriteIdentity | demo/glut_util/glut_util.hpp:139-143 | Reading r right after writing a block there returns that block. |
| Layout.WriteRectIdempotent | demo/glut_util/glut_util.hpp:149-153 | Writing the same block twice at the same rectangle is the same as writing it once. |
| Textures.Texture.constructor | demo/glut_util/glut_util.hpp:246 | A generated texture has no image. |
| Textures.Texture.TexImage2D | demo/glut_util/glut_util.hpp:95-96 | Full upload: the image becomes the w-by-h bitmap. |
| Textures.Texture.TexImage2DBlank | demo/glut_util/glut_util.hpp:269-272 | clear()'s upload replaces the image with the one-pixel black placeholder. |
| Textures.Texture.TexSubImage2D | demo/glut_util/glut_util.hpp:149-153 | A sub-image write keeps the texture's size, and its bytes become WriteRect of the old bytes at r. |
| Textures.Texture.GetTexImage | demo/glut_util/glut_util.hpp:118-122 | Read-back: the front of the buffer holds the image bytes, and the rest of the buffer is unchanged. |
| Paint.ScrolledSharedRect | demo/glut_util/glut_util.hpp:108-111 | `scrolled_shared_rect` holds exactly the points of scroll_rect whose image under (dx, dy) is also in scroll_rect. When non-empty, both it and its translate (`shared_rect`) lie within scroll_rect. |
| Paint.Scrolled | demo/glut_util/glut_util.hpp:105-145 | The texture bytes after the scroll step. Its own contract gives only that the length is kept. The per-pixel meaning is in `Paint.PaintedAt`. |
| Paint.Painted | demo/glut_util/glut_util.hpp:105-153 | The texture bytes after a paint that is not suppressed: the scroll step, then the dirty write. Its own contract gives only that the length is kept. The per-pixel meaning is in `Paint.PaintedAt` and `Paint.DirtyWriteAndFrame`. |
| Paint.PaintOutcome | demo/glut_util/glut_util.hpp:87-98 | Three properties. (1) Suppression: the texture is updated exactly when no refresh is pending or the dirty rectangle is the whole texture; otherwise the image is untouched. (2) Full replacement: an update accepted while a refresh is pending sets the image to exactly the bitmap. (3) Every update leaves a w-by-h image. |
| Paint.PaintedAt | demo/glut_util/glut_util.hpp:105-153 | Per pixel, a paint that is not suppressed leaves one of three things. Inside the dirty rectangle: the bitmap's pixel. Otherwise, for a non-zero offset with (x, y) and (x − dx, y − dy) in scroll_rect: the old pixel (x − dx, y − dy). Anywhere else: the old pixel. |
| Paint.DirtyWriteAndFrame | demo/glut_util/glut_util.hpp:147-153 | Three cases. Inside the dirty rectangle, the bitmap overrides any scrolled data. Elsewhere inside `shared_rect`, the pixel is the old one (x − dx, y − dy), which lies in the texture. Every pixel outside both keeps its old value. |
| Paint.NoShuffleWithoutOverlap | demo/glut_util/glut_util.hpp:105-113 | With no offset, or with an empty shared rectangle, the paint is just the dirty-rectangle write. |
| Paint.RepaintWithoutMoveIdempotent | demo/glut_util/glut_util.hpp:105-157 | When the scroll step moves nothing (no offset, or an empty overlap), delivering the same notification twice gives the same result and texture as delivering it once. |
| Paint.ScrollDownOneRow | demo/glut_util/glut_util.hpp:105-153 | One delivery of "scroll the whole texture down by one row and repaint the top row": for every column x and every channel, pixel (x, 1) takes the old value of pixel (x, 0), and pixel (x, 0) takes the bitmap's. |
| Paint.ScrollingRepaintNotIdempotent | demo/glut_util/glut_util.hpp:105-153 | For every texture with w ≥ 1 and h ≥ 2 whose first byte differs from the bitmap's first byte: delivering "scroll down one row, repaint the top row" twice gives a different texture from delivering it once. |
| Paint.ScrollUpExample | demo/glut_util/glut_util.hpp:105-153 | Scroll up by 5 inside rows 10 to 49 of a 100-row texture, repainting rows 95 to 99: rows 10 to 44 take the old rows 15 to 49, rows 95 to 99 take the bitmap, and all other rows are unchanged. |
| Paint.RowCopyMovesBackward | demo/glut_util/glut_util.hpp:129-134 | Each copy of the compaction loop goes toward the front of the buffer (dest ≤ source). It reads inside the w·h·4 snapshot, and the rows are packed back to back. |
| Paint.BlockSize | demo/glut_util/glut_util.hpp:127-135 | The packed block is wid·hig·4 bytes long and fits in the w·h·4 buffer. |
| Paint.MemMove | demo/glut_util/glut_util.hpp:130-134 | One row copy, with every source byte read before any destination byte is written: the destination range holds the source range's old bytes, and every other byte is unchanged. |
| Paint.MovePrefix | demo/glut_util/glut_util.hpp:129-134 | Copying a row from at or after the packed prefix's end appends it to the prefix, as long as nothing from the destination onward has changed yet. |
| Paint.CompactStepPrefix | demo/glut_util/glut_util.hpp:129-135 | One iteration extends the packed prefix from the first jj rows of `scrolled_shared_rect` to the first jj + 1 rows. |
| Paint.CompactStepSuffix | demo/glut_util/glut_util.hpp:129-135 | One iteration leaves every byte after the new packed prefix as in the snapshot. |
| Paint.CompactRow | demo/glut_util/glut_util.hpp:129-135 | One iteration keeps the loop invariant: the first jj + 1 rows are packed, and the rest of the buffer is original. |
| Paint.CompactRect | demo/glut_util/glut_util.hpp:127-135 | The loop leaves Extract(snapshot, scrolled_shared_rect) packed at the buffer's front, and the buffer's remaining bytes unchanged. |
| Paint.ScrollTexture | demo/glut_util/glut_util.hpp:105-145 | The scroll step leaves the texture as Scrolled: the shared block is moved by (dx, dy). When nothing is moved, the scratch buffer is untouched. |
| Paint.MapOnPaintToTexture | demo/glut_util/glut_util.hpp:71-158 | The return value and the new texture image are PaintOutcome's. A suppressed call, a full replacement and a paint whose scroll step moves nothing all leave the scratch buffer untouched. Bytes of the scratch buffer past w·h·4 are never written. |
| Paint.CompactionMemcpyOverlaps | demo/glut_util/glut_util.hpp:127-134 | For a scroll rectangle spanning the whole width and a left shift of fewer than half the width, the first memcpy's source and destination ranges overlap. |
| TextureWindow.GLTextureWindow.constructor | demo/glut_util/glut_util.hpp:240-256 | A new window has a texture with no image, a scratch buffer of w·h·4 bytes, and needs_full_refresh set. |
| TextureWindow.GLTextureWindow.Clear | demo/glut_util/glut_util.hpp:267-275 | clear() blanks the texture and sets needs_full_refresh. |
| TextureWindow.GLTextureWindow.OnPaint | demo/glut_util/glut_util.hpp:285-297 | The texture becomes PaintOutcome's image with needs_full_refresh as ignore_partial. The flag is cleared exactly when the paint was accepted. A redisplay is requested exactly then. While the flag is set, a partial paint changes nothing. |
| GlutInput.MapGLUTCoordToTexCoord | demo/glut_util/glut_util.hpp:169-174 | The result is the floor of the 32-bit product over glut_size. Without wrap-around, it is ⌊c·t / s⌋. A coordinate inside the window then maps inside the texture. |
| GlutInput.CoordExamples | demo/glut_util/glut_util.hpp:169-174 | (50, 100, 200) ↦ 100, (0, 100, 200) ↦ 0 and (99, 100, 200) ↦ 198. |
| GlutInput.CoordWrapExample | demo/glut_util/glut_util.hpp:173 | The unsigned product wraps: (65536, 65537, 65536) ↦ 0. |
| GlutInput.ModifierBitsDistinct | demo/glut_util/glut_util.hpp:182-187 | The modifier constants of each encoding are distinct single bits. |
| GlutInput.MapGLUTModsToBerkeliumMods | demo/glut_util/glut_util.hpp:179-192 | Shift, control and alt are each set in the result exactly when GLUT reports them. Meta, and every other bit, is never set. |
| GlutInput.BerkeliumModsToGLUTMods | demo/glut_util/glut_util.hpp:179-192 | A specification-only inverse of the table at lines 182-187; no source function computes it. It is the partner for `GlutInput.ModsRoundTrip` and yields only GLUT's three modifier bits. |
| GlutInput.ModsRoundTrip | demo/glut_util/glut_util.hpp:179-192 | Translating back recovers exactly the shift, control and alt bits of the GLUT input. |
| GlutInput.IsASCIISpecialToBerkelium | demo/glut_util/glut_util.hpp:198-209 | The result is 0 or 1. It is 1 exactly for backspace, tab, escape and delete. |
| GlutInput.SpecialCharsAreControl | demo/glut_util/glut_util.hpp:198-209 | Only control characters are special, so printable ASCII always goes through the text path. |
| GlutInput.MapGLUTKeyToBerkeliumKey | demo/glut_util/glut_util.hpp:223-233 | The five listed keys map to their table entries (page up to PRIOR, page down to NEXT). The result is non-zero exactly for those keys. |
| GlutInput.KeyMapInjective | demo/glut_util/glut_util.hpp:223-233 | Two keys with the same non-zero code are the same key. |

## Left out

- OpenGL plumbing is not modelled: `glBindTexture`, `glGenTextures`' handle and the filter parameters. The texture is a `Textures.Texture` object rather than a handle, and `bind()`/`release()` do nothing to the model's state.
- Pixel formats are not modelled. `GL_BGRA` data is treated as opaque 4-byte pixels. clear()'s one-pixel `GL_LUMINANCE` upload is reduced to `Blank`, with no bytes.
- Textures.Texture.TexImage2D: keeps all four bytes of every pixel, as do `Textures.Texture.TexSubImage2D` and `Textures.Texture.GetTexImage`. The source creates the texture with internal format 3 (lines 95-96), which is `GL_RGB`. So the real texture drops the fourth byte of each pixel on upload, and `glGetTexImage` with `GL_BGRA` (lines 118-122) reads it back as 255. For channel 3, `Layout.ExtractAt`, `Paint.Scrolled` and `Paint.PaintedAt` therefore describe bytes the real texture never holds. Channels 0 to 2, the colour channels, are modelled exactly.
- Berkelium window calls are not modelled: the `Window::create`, `setDelegate` and `resize` calls in the constructor, `getWindow()`, the destructor's deletes, and the `wini` argument. These are foreign calls outside the core.
- `glutPostRedisplay` is modelled as a counter, `redisplayRequests`.
- The values of the GLUT and Berkelium constants come from the standard GLUT header and from Berkelium's public headers. Those headers are not reproduced here, and the model fixes the values:
  - `GLUT_ACTIVE_*` are 1, 2 and 4;
  - `GLUT_KEY_PAGE_UP` to `GLUT_KEY_INSERT` are 104 to 108;
  - `SHIFT_MOD`, `CONTROL_MOD`, `ALT_MOD` and `META_MOD` are bits 0 to 3.
- Berkelium's `Rect.hpp` is not reproduced here, and the model fixes its meaning: `Rects.Rect` is (left, top, width, height) with exclusive right and bottom. `Rects.Rect.Intersect` returns `Rect(0, 0, 0, 0)` for an empty overlap, which matches how the code uses it: only a positive width and height are tested.
- The allocation `new char[width*height*4]` (line 251) is computed in unsigned 32-bit arithmetic, and its overflow is not modelled. The model's buffer always has w·h·4 bytes.
- Paint.MapOnPaintToTexture: requires that the rectangles the call uses lie in the texture and that the bitmap holds exactly the dirty rectangle's pixels (`Paint.PaintArgsOk`). It also requires that a partial update finds the texture already holding a w-by-h image (`Paint.TextureReady`), which `TextureWindow.GLTextureWindow.Valid` guarantees between calls. The C code takes these on trust from Berkelium. What each one breaks when it fails:
  - A bitmap shorter than the dirty rectangle makes `glTexImage2D` or `glTexSubImage2D` read past `bitmap_in`.
  - A `scroll_rect` whose shared part leaves the texture makes the memcpy at lines 130-134 use offsets outside the read-back image, which can lie outside the buffer.
  - A dirty rectangle outside the texture makes `glTexSubImage2D` (lines 149-153) fail with `GL_INVALID_VALUE` and write nothing. The function still returns true (line 157), so `onPaint` clears `needs_full_refresh` and requests a redisplay although GL rejected the write.
  - A texture smaller than w-by-h, such as the 1×1 image after `clear()`, makes `glGetTexImage` fill only the front of the buffer. The memcpy loop then reads stale bytes that are still inside the buffer. Each `glTexSubImage2D` call whose rectangle does not fit the smaller image fails and writes nothing. The function still returns true.
  - A texture larger than w-by-h makes `glGetTexImage` (lines 118-122) write its whole image, which overflows the w·h·4-byte `scroll_buffer`.
  - For a non-zero offset, the model requires the scroll rectangle to lie in the texture even when its shared part is empty.
- `ignore_partial = false;` at line 97 assigns a by-value parameter just before returning, so it has no effect. The model leaves it out. The caller clears its own flag (line 294).
- Paint.CompactRect: performs each row copy with memmove semantics (`Paint.MemMove`). memcpy with overlapping ranges is undefined in C; see Findings.
- GlutInput.MapGLUTCoordToTexCoord: requires `glut_size > 0`, because C division by zero is undefined. The wrap-around of the unsigned product is modelled exactly, with `% 2^32`, so there is no overflow precondition.

## Findings

| source | as written | input that shows it | evidently intended | confidence | as-written member | corrected member |
|---|---|---|---|---|---|---|
| demo/glut_util/glut_util.hpp:130-134 | Each row of `scrolled_shared_rect` is packed with `memcpy` inside the same buffer. When the row's source and destination overlap, the behaviour is undefined in C. | A 10-pixel-wide texture whose scroll rectangle spans the full width, scrolled with dx = −3: row 0 copies 28 bytes from offset 12 to offset 0. | Move each row with memmove semantics. Rows move toward the front and each row is read before it is overwritten (`Paint.RowCopyMovesBackward`), so the packed block is then exactly Extract of the read-back image. | not executed | Paint.CompactionMemcpyOverlaps | Paint.CompactRect |
