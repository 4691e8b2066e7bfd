/** The input helpers a GLUT application uses to forward mouse and keyboard
    events to a Berkelium window: coordinate scaling, modifier translation,
    the test for control characters that need a key event, and the table of
    special keys. */
module GlutInput {

  type uint8 = x: int | 0 <= x < 0x100
  type uint32 = x: int | 0 <= x < 0x1_0000_0000
  type int32 = x: int | -0x8000_0000 <= x < 0x8000_0000

  const TwoTo32: int := 0x1_0000_0000

  // ---------------------------------------------------------------- coordinates

  /** mapGLUTCoordToTexCoord: (glut_coord * tex_size) / glut_size in unsigned
      32-bit arithmetic, so the product wraps before the division. The result
      is the floor of the wrapped product over glut_size; when the product
      does not wrap it is the floor of glut_coord * tex_size / glut_size, and
      a coordinate inside the window then maps inside the texture. */
  function MapGLUTCoordToTexCoord(glutCoord: uint32, glutSize: uint32, texSize: uint32): (r: uint32)
    requires glutSize > 0
    ensures r * glutSize <= (glutCoord * texSize) % TwoTo32 < (r + 1) * glutSize
    ensures glutCoord * texSize < TwoTo32 ==> r * glutSize <= glutCoord * texSize < (r + 1) * glutSize
    ensures glutCoord * texSize < TwoTo32 && glutCoord < glutSize && 0 < texSize ==> r < texSize
  {
    var product := (glutCoord * texSize) % TwoTo32;
    var r := product / glutSize;
    FloorDivBounds(product, glutSize);
    assert r < TwoTo32 by { DivAtMost(product, glutSize); }
    assert glutCoord * texSize < TwoTo32 && glutCoord < glutSize && 0 < texSize ==> r < texSize by {
      if glutCoord * texSize < TwoTo32 && glutCoord < glutSize && 0 < texSize {
        InsideMapsInside(glutCoord, glutSize, texSize, r);
      }
    }
    r
  }

  /** Euclidean division by a positive divisor is the floor. */
  lemma FloorDivBounds(n: int, d: int)
    requires 0 <= n && 0 < d
    ensures (n / d) * d <= n < (n / d + 1) * d
  {
  }

  lemma DivAtMost(n: int, d: int)
    requires 0 <= n && 0 < d
    ensures n / d <= n
  {
    var q := n / d;
    assert q * d <= n;
    assert q <= q * d;
  }

  /** If r is the floor of c * t / s and c < s, then r < t. */
  lemma InsideMapsInside(c: int, s: int, t: int, r: int)
    requires 0 <= c < s && 0 < t && 0 <= r && r * s <= c * t
    ensures r < t
  {
  }

  /** Halfway across a 100-pixel window is halfway across a 200-pixel
      texture; the origin stays at the origin; the last window pixel lands
      on the texture's next-to-last pixel. */
  lemma CoordExamples()
    ensures MapGLUTCoordToTexCoord(50, 100, 200) == 100
    ensures MapGLUTCoordToTexCoord(0, 100, 200) == 0
    ensures MapGLUTCoordToTexCoord(99, 100, 200) == 198
  {
  }

  /** Once the product wraps, the result is no longer the scaled coordinate:
      65536 * 65536 wraps to 0. */
  lemma CoordWrapExample()
    ensures MapGLUTCoordToTexCoord(65536, 65537, 65536) == 0
  {
    assert 65536 * 65536 == TwoTo32;
  }

  // ---------------------------------------------------------------- modifiers

  /** GLUT's modifier bits, as glutGetModifiers reports them. */
  const GLUT_ACTIVE_SHIFT: bv32 := 1
  const GLUT_ACTIVE_CTRL: bv32 := 2
  const GLUT_ACTIVE_ALT: bv32 := 4

  /** Berkelium's modifier bits. */
  const SHIFT_MOD: bv32 := 1
  const CONTROL_MOD: bv32 := 2
  const ALT_MOD: bv32 := 4
  const META_MOD: bv32 := 8

  predicate SingleBit(b: bv32) {
    b != 0 && b & (b - 1) == 0
  }

  /** The modifier constants are single bits, distinct within each encoding. */
  lemma ModifierBitsDistinct()
    ensures SingleBit(GLUT_ACTIVE_SHIFT) && SingleBit(GLUT_ACTIVE_CTRL) && SingleBit(GLUT_ACTIVE_ALT)
    ensures GLUT_ACTIVE_SHIFT & GLUT_ACTIVE_CTRL == 0 && GLUT_ACTIVE_SHIFT & GLUT_ACTIVE_ALT == 0
    ensures GLUT_ACTIVE_CTRL & GLUT_ACTIVE_ALT == 0
    ensures SingleBit(SHIFT_MOD) && SingleBit(CONTROL_MOD) && SingleBit(ALT_MOD) && SingleBit(META_MOD)
    ensures SHIFT_MOD & CONTROL_MOD == 0 && SHIFT_MOD & ALT_MOD == 0 && SHIFT_MOD & META_MOD == 0
    ensures CONTROL_MOD & ALT_MOD == 0 && CONTROL_MOD & META_MOD == 0 && ALT_MOD & META_MOD == 0
  {
  }

  /** mapGLUTModsToBerkeliumMods: each of shift, control and alt is set in the
      result exactly when GLUT reports it; meta, which GLUT cannot report, is
      never set, and neither is any other bit. */
  function MapGLUTModsToBerkeliumMods(modifiers: bv32): (wvmods: bv32)
    ensures (wvmods & SHIFT_MOD != 0) <==> (modifiers & GLUT_ACTIVE_SHIFT != 0)
    ensures (wvmods & CONTROL_MOD != 0) <==> (modifiers & GLUT_ACTIVE_CTRL != 0)
    ensures (wvmods & ALT_MOD != 0) <==> (modifiers & GLUT_ACTIVE_ALT != 0)
    ensures wvmods & META_MOD == 0
    ensures wvmods & !(SHIFT_MOD | CONTROL_MOD | ALT_MOD) == 0
  {
    var shift: bv32 := if modifiers & GLUT_ACTIVE_SHIFT != 0 then SHIFT_MOD else 0;
    var ctrl: bv32 := if modifiers & GLUT_ACTIVE_CTRL != 0 then CONTROL_MOD else 0;
    var alt: bv32 := if modifiers & GLUT_ACTIVE_ALT != 0 then ALT_MOD else 0;
    shift | ctrl | alt
  }

  /** The reverse translation, from Berkelium's bits back to GLUT's. */
  function BerkeliumModsToGLUTMods(wvmods: bv32): (modifiers: bv32)
    ensures modifiers & !(GLUT_ACTIVE_SHIFT | GLUT_ACTIVE_CTRL | GLUT_ACTIVE_ALT) == 0
  {
    (if wvmods & SHIFT_MOD != 0 then GLUT_ACTIVE_SHIFT else 0) |
    (if wvmods & CONTROL_MOD != 0 then GLUT_ACTIVE_CTRL else 0) |
    (if wvmods & ALT_MOD != 0 then GLUT_ACTIVE_ALT else 0)
  }

  /** No modifier GLUT reports is lost: translating back recovers the
      shift, control and alt bits of the input and drops everything else. */
  lemma ModsRoundTrip(modifiers: bv32)
    ensures BerkeliumModsToGLUTMods(MapGLUTModsToBerkeliumMods(modifiers)) ==
            modifiers & (GLUT_ACTIVE_SHIFT | GLUT_ACTIVE_CTRL | GLUT_ACTIVE_ALT)
  {
    var m := MapGLUTModsToBerkeliumMods(modifiers);
    assert (m & SHIFT_MOD != 0) == (modifiers & GLUT_ACTIVE_SHIFT != 0);
    assert (m & CONTROL_MOD != 0) == (modifiers & GLUT_ACTIVE_CTRL != 0);
    assert (m & ALT_MOD != 0) == (modifiers & GLUT_ACTIVE_ALT != 0);
  }

  // ---------------------------------------------------------------- characters

  const ASCII_BACKSPACE: uint8 := 8
  const ASCII_TAB: uint8 := 9
  const ASCII_ESCAPE: uint8 := 27
  const ASCII_DELETE: uint8 := 127

  /** The characters Berkelium cannot take as text and that go through a
      key event instead. */
  const SpecialChars: set<uint8> := {ASCII_BACKSPACE, ASCII_TAB, ASCII_ESCAPE, ASCII_DELETE}

  /** isASCIISpecialToBerkelium: 1 for the special characters, 0 for every
      other byte (the C comparison's value widened to unsigned int). */
  function IsASCIISpecialToBerkelium(glutChar: uint8): (r: uint32)
    ensures r == 0 || r == 1
    ensures r == 1 <==> glutChar in SpecialChars
  {
    if glutChar == ASCII_BACKSPACE || glutChar == ASCII_TAB ||
       glutChar == ASCII_ESCAPE || glutChar == ASCII_DELETE then 1 else 0
  }

  /** Every special character is a control character, so printable ASCII
      always goes through the text path. */
  lemma {:induction false} SpecialCharsAreControl(glutChar: uint8)
    ensures IsASCIISpecialToBerkelium(glutChar) == 1 ==> glutChar < 32 || glutChar == 127
    ensures 32 <= glutChar < 127 ==> IsASCIISpecialToBerkelium(glutChar) == 0
  {
  }

  // ---------------------------------------------------------------- special keys

  /** GLUT's codes for the special keys the table handles. */
  const GLUT_KEY_PAGE_UP: int32 := 104
  const GLUT_KEY_PAGE_DOWN: int32 := 105
  const GLUT_KEY_HOME: int32 := 106
  const GLUT_KEY_END: int32 := 107
  const GLUT_KEY_INSERT: int32 := 108

  /** Berkelium's (Windows virtual-key) codes for those keys. */
  const BK_KEYCODE_PRIOR: uint32 := 0x21
  const BK_KEYCODE_NEXT: uint32 := 0x22
  const BK_KEYCODE_END: uint32 := 0x23
  const BK_KEYCODE_HOME: uint32 := 0x24
  const BK_KEYCODE_INSERT: uint32 := 0x2D

  /** The key table as data: page up is PRIOR and page down is NEXT; home,
      end and insert keep their names. */
  const KeyTable: map<int32, uint32> := map[
    GLUT_KEY_INSERT := BK_KEYCODE_INSERT,
    GLUT_KEY_HOME := BK_KEYCODE_HOME,
    GLUT_KEY_END := BK_KEYCODE_END,
    GLUT_KEY_PAGE_UP := BK_KEYCODE_PRIOR,
    GLUT_KEY_PAGE_DOWN := BK_KEYCODE_NEXT
  ]

  /** mapGLUTKeyToBerkeliumKey: the listed keys map to their Berkelium code
      and every other key to 0, which no listed key maps to. */
  function MapGLUTKeyToBerkeliumKey(glutKey: int32): (vk: uint32)
    ensures glutKey in KeyTable ==> vk == KeyTable[glutKey]
    ensures vk != 0 <==> glutKey in KeyTable
  {
    if glutKey == GLUT_KEY_INSERT then BK_KEYCODE_INSERT
    else if glutKey == GLUT_KEY_HOME then BK_KEYCODE_HOME
    else if glutKey == GLUT_KEY_END then BK_KEYCODE_END
    else if glutKey == GLUT_KEY_PAGE_UP then BK_KEYCODE_PRIOR
    else if glutKey == GLUT_KEY_PAGE_DOWN then BK_KEYCODE_NEXT
    else 0
  }

  /** Different GLUT keys never share a Berkelium code, so a non-zero result
      identifies the key that was pressed. */
  lemma KeyMapInjective(k1: int32, k2: int32)
    requires MapGLUTKeyToBerkeliumKey(k1) != 0 && MapGLUTKeyToBerkeliumKey(k1) == MapGLUTKeyToBerkeliumKey(k2)
    ensures k1 == k2
  {
  }
}
