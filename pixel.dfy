/** The value the renderer records per pixel, and the shading applied when
    it is turned into an output colour. */
module Pixels {
  import opened Surfaces

  /** `distance` holds the normalised depth `d / 2 + 0.5` of the marched
      distance `d`. */
  datatype PixelValue = PixelValue(distance: real, shadow: bool, color: Color)

  function NormalizedDepth(d: real): real {
    d / 2.0 + 0.5
  }

  /** `PixelValue#initialize`. */
  function NewPixelValue(d: real, shadow: bool, color: Color): (pv: PixelValue)
    ensures pv.shadow == shadow && pv.color == color
  {
    PixelValue(NormalizedDepth(d), shadow, color)
  }

  /** The marched distance a stored depth came from. */
  function MarchedDistance(pv: PixelValue): real {
    (pv.distance - 0.5) * 2.0
  }

  /** Storing a depth loses nothing: it can be recovered exactly. */
  lemma DepthRoundTrip(d: real, shadow: bool, color: Color)
    ensures MarchedDistance(NewPixelValue(d, shadow, color)) == d
  {
  }

  /** The normalisation keeps the order of depths... */
  lemma NormalizedDepthMonotone(d: real, e: real)
    ensures d < e <==> NormalizedDepth(d) < NormalizedDepth(e)
  {
  }

  /** ...and maps a depth in `[0, depth]` into `[0.5, depth / 2 + 0.5]`. */
  lemma NormalizedDepthRange(d: real, depth: real)
    requires 0.0 <= d <= depth
    ensures 0.5 <= NormalizedDepth(d) <= depth / 2.0 + 0.5
  {
  }

  /** The mutable copy of a colour that `chunky_val` shades. */
  class ColorBuffer {
    var r: real
    var g: real
    var b: real

    constructor (c: Color)
      ensures r == c.r && g == c.g && b == c.b
    {
      r, g, b := c.r, c.g, c.b;
    }

    function Value(): Color
      reads this
    {
      Color(r, g, b)
    }

    /** Halve every channel in place. */
    method Halve()
      modifies this
      ensures r == old(r) * 0.5 && g == old(g) * 0.5 && b == old(b) * 0.5
    {
      r := r * 0.5;
      g := g * 0.5;
      b := b * 0.5;
    }
  }

  /** The shading of a colour: every channel halved in shadow. */
  function Shade(color: Color, shadow: bool): Color {
    if shadow then Color(color.r * 0.5, color.g * 0.5, color.b * 0.5) else color
  }

  /** The colour part of `chunky_val`: copy the stored colour and halve
      the copy's channels when the pixel is in shadow. The stored value is
      a value and cannot be changed through the copy. */
  method ShadedColor(pv: PixelValue) returns (c: Color)
    ensures c == Shade(pv.color, pv.shadow)
  {
    var buffer := new ColorBuffer(pv.color);
    if pv.shadow {
      buffer.Halve();
    }
    c := buffer.Value();
  }

  /** In shadow each channel is exactly half of the stored one; out of
      shadow the colour is unchanged. */
  lemma ShadeHalves(color: Color, shadow: bool)
    ensures shadow ==> (&& 2.0 * Shade(color, shadow).r == color.r
                        && 2.0 * Shade(color, shadow).g == color.g
                        && 2.0 * Shade(color, shadow).b == color.b)
    ensures !shadow ==> Shade(color, shadow) == color
  {
  }

  /** Shading never brightens a channel with a non-negative value, and
      keeps the valid channel range. */
  lemma ShadeStaysInRange(color: Color, shadow: bool)
    requires 0.0 <= color.r <= 255.0 && 0.0 <= color.g <= 255.0 && 0.0 <= color.b <= 255.0
    ensures var s := Shade(color, shadow);
            && 0.0 <= s.r <= color.r && 0.0 <= s.g <= color.g && 0.0 <= s.b <= color.b
  {
  }
}
