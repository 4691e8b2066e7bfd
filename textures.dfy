/** The OpenGL texture the window renders into, reduced to the three
    operations the reconciler uses: full replacement (glTexImage2D),
    sub-rectangle write (glTexSubImage2D) and full read-back (glGetTexImage).
    Binding, filtering parameters and pixel-format conversion are not modelled. */
module Textures {
  import opened Rects
  import opened Layout

  /** Level 0 of a texture: no image yet (just generated), the 1-by-1 black
      placeholder that clear() uploads, or a w-by-h image of 4-byte pixels. */
  datatype TexImage = NoImage | Blank | Pixels(width: nat, height: nat, bytes: seq<byte>) {

    predicate Valid() {
      Pixels? ==> |bytes| == width * height * BytesPerPixel
    }

    /** A well-formed w-by-h image. */
    predicate HasSize(w: nat, h: nat) {
      Pixels? && width == w && height == h && Valid()
    }
  }

  class Texture {
    var image: TexImage

    /** glGenTextures: a texture name with no image attached. */
    constructor ()
      ensures image == NoImage
    {
      image := NoImage;
    }

    /** glTexImage2D with w-by-h pixel data: replaces the whole image. */
    method TexImage2D(w: nat, h: nat, pixels: seq<byte>)
      requires |pixels| == w * h * BytesPerPixel
      modifies this
      ensures image == Pixels(w, h, pixels) && image.Valid()
    {
      image := Pixels(w, h, pixels);
    }

    /** glTexImage2D with the single black GL_LUMINANCE pixel of clear(). */
    method TexImage2DBlank()
      modifies this
      ensures image == Blank
    {
      image := Blank;
    }

    /** glTexSubImage2D: writes a tightly packed block at rectangle r. */
    method TexSubImage2D(r: Rect, pixels: seq<byte>)
      requires image.Pixels? && image.Valid() && InBounds(r, image.width, image.height)
      requires |pixels| == r.width * r.height * BytesPerPixel
      modifies this
      ensures image.HasSize(old(image.width), old(image.height))
      ensures image.bytes == WriteRect(old(image.bytes), old(image.width), old(image.height), r, pixels)
    {
      image := image.(bytes := WriteRect(image.bytes, image.width, image.height, r, pixels));
    }

    /** glGetTexImage: copies the whole image into the front of `buffer`;
        the rest of the buffer is left alone. */
    method GetTexImage(buffer: array<byte>)
      requires image.Pixels? && image.Valid() && |image.bytes| <= buffer.Length
      modifies buffer
      ensures buffer[..|image.bytes|] == image.bytes
      ensures buffer[|image.bytes|..] == old(buffer[|image.bytes|..])
    {
      var n := |image.bytes|;
      forall i | 0 <= i < n {
        buffer[i] := image.bytes[i];
      }
      assert buffer[..n] == image.bytes;
    }
  }
}
