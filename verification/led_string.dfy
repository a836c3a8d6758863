/** The LED string as the core sees it: a fixed-length sequence of RGB cells,
    and the colour operations it uses, whose arithmetic is supplied from outside. */
module LedString {
  import opened Numerics

  type Byte = x: int | 0 <= x < 256

  /** One LED: three 8-bit channels. */
  datatype Color = Color(r: Byte, g: Byte, b: Byte)

  /** A strip of LEDs; its length is bounded like that of any Rust vector. */
  type Strip = s: seq<Color> | |s| <= ISIZE_MAX

  /** The cell colour operations. `nscale8(c, f)` dims a colour by the 8-bit factor f and
      `hsv(h, s, v)` converts an HSV triple to RGB; neither is interpreted here. */
  datatype ColorOps = ColorOps(nscale8: (Color, Byte) -> Color, hsv: (Byte, Byte, Byte) -> Color)

  /** Writes `c` into cell `i`; indexing past the end panics. */
  function SetCell(s: Strip, i: nat, c: Color): (r: Result<Strip>)
    ensures r.Ok? <==> i < |s|
    ensures r.Err? ==> r.fault == IndexOutOfBounds
    ensures r.Ok? ==> |r.value| == |s| && r.value[i] == c
    ensures r.Ok? ==> forall j | 0 <= j < |s| && j != i :: r.value[j] == s[j]
  {
    if i < |s| then Ok(s[i := c]) else Err(IndexOutOfBounds)
  }
}
