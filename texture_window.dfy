/** GLTextureWindow: renders one Berkelium window into a GL texture. Its one
    piece of state beyond the texture is needs_full_refresh, which is set
    when the texture no longer holds a page image (after construction and
    after clear()) and cleared by the first paint the texture accepts. */
module TextureWindow {
  import opened Rects
  import opened Layout
  import opened Textures
  import opened Paint

  class GLTextureWindow {
    const width: nat
    const height: nat
    const webTexture: Texture
    const scrollBuffer: array<byte>
    var needsFullRefresh: bool
    /** Number of glutPostRedisplay requests made so far. */
    var redisplayRequests: nat

    /** The scroll buffer holds a whole texture, the texture's image is well
        formed, and while no full refresh is pending it is a
        width-by-height image. */
    ghost predicate Valid()
      reads this, webTexture
    {
      && webTexture.image.Valid()
      && scrollBuffer.Length == width * height * BytesPerPixel
      && TextureReady(webTexture.image, width, height, needsFullRefresh)
    }

    /** A new window: a texture with no image, a scroll buffer of
        w * h * 4 bytes, and a full refresh pending. */
    constructor (w: nat, h: nat)
      ensures Valid()
      ensures width == w && height == h
      ensures needsFullRefresh && redisplayRequests == 0
      ensures fresh(webTexture) && fresh(scrollBuffer)
      ensures webTexture.image == NoImage
    {
      width, height := w, h;
      needsFullRefresh := true;
      redisplayRequests := 0;
      webTexture := new Texture();
      scrollBuffer := new byte[w * h * BytesPerPixel];
    }

    /** clear(): blanks the texture to a single black pixel and asks for a
        full refresh before any partial update is shown again. */
    method Clear()
      requires Valid()
      modifies this, webTexture
      ensures Valid()
      ensures needsFullRefresh && webTexture.image == Blank
      ensures redisplayRequests == old(redisplayRequests)
    {
      webTexture.TexImage2DBlank();
      needsFullRefresh := true;
    }

    /** onPaint: hands the notification to mapOnPaintToTexture with
        needs_full_refresh as ignore_partial; if the texture was updated, the
        flag is cleared and a redisplay is requested. */
    method OnPaint(bitmapIn: seq<byte>, bitmapRect: Rect, dx: int, dy: int, scrollRect: Rect)
      requires Valid()
      requires PaintArgsOk(width, height, needsFullRefresh, bitmapIn, bitmapRect, dx, dy, scrollRect)
      modifies this, webTexture, scrollBuffer
      ensures Valid()
      ensures var res := PaintOutcome(old(webTexture.image), width, height, old(needsFullRefresh),
                                      bitmapIn, bitmapRect, dx, dy, scrollRect);
              && webTexture.image == res.image
              && needsFullRefresh == (old(needsFullRefresh) && !res.updated)
              && redisplayRequests == old(redisplayRequests) + (if res.updated then 1 else 0)
      ensures old(needsFullRefresh) && bitmapRect != FullRect(width, height) ==>
                && needsFullRefresh
                && webTexture.image == old(webTexture.image)
                && scrollBuffer[..] == old(scrollBuffer[..])
                && redisplayRequests == old(redisplayRequests)
    {
      var updated := MapOnPaintToTexture(bitmapIn, bitmapRect, dx, dy, scrollRect,
                                         webTexture, width, height, needsFullRefresh, scrollBuffer);
      if updated {
        needsFullRefresh := false;
        redisplayRequests := redisplayRequests + 1;
      }
    }
  }
}
