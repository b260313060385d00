/** Colours as red/green/blue channels over exact reals, and the per-channel
    linear interpolation the morph uses between a cell's old and new colour. */
module Colors {

  datatype Rgb = Rgb(red: real, green: real, blue: real)

  /** p5's lerp: the point `amt` of the way from `a` to `b` */
  function Lerp(a: real, b: real, amt: real): real {
    a + (b - a) * amt
  }

  /** every channel inside p5's default 0..255 range */
  predicate InGamut(c: Rgb) {
    0.0 <= c.red <= 255.0 && 0.0 <= c.green <= 255.0 && 0.0 <= c.blue <= 255.0
  }

  /** lerpColor2(c1, c2, amt): each channel interpolated on its own */
  function LerpColor(c1: Rgb, c2: Rgb, amt: real): Rgb {
    Rgb(Lerp(c1.red, c2.red, amt), Lerp(c1.green, c2.green, amt), Lerp(c1.blue, c2.blue, amt))
  }

  /** a product of two non-negative values is non-negative */
  lemma MulNonneg(x: real, y: real)
    requires 0.0 <= x && 0.0 <= y
    ensures 0.0 <= x * y
  {
  }

  /** scaling by an amount in [0, 1] moves a value towards 0 without
      crossing it */
  lemma ScaleDown(d: real, amt: real)
    requires 0.0 <= amt <= 1.0
    ensures 0.0 <= d ==> 0.0 <= d * amt <= d
    ensures d <= 0.0 ==> d <= d * amt <= 0.0
  {
    if 0.0 <= d {
      MulNonneg(d, amt);
      MulNonneg(d, 1.0 - amt);
    } else {
      MulNonneg(-d, amt);
      MulNonneg(-d, 1.0 - amt);
    }
  }

  /** a value between `a` and `b` whenever `amt` lies in [0, 1] */
  lemma LerpBetween(a: real, b: real, amt: real)
    requires 0.0 <= amt <= 1.0
    ensures a <= b ==> a <= Lerp(a, b, amt) <= b
    ensures b <= a ==> b <= Lerp(a, b, amt) <= a
  {
    var d := b - a;
    ScaleDown(d, amt);
    assert Lerp(a, b, amt) == a + d * amt;
  }

  /** interpolation starts exactly at the old colour and ends exactly at the
      new one */
  lemma LerpColorEndpoints(c1: Rgb, c2: Rgb)
    ensures LerpColor(c1, c2, 0.0) == c1
    ensures LerpColor(c1, c2, 1.0) == c2
  {
  }

  /** for amounts in [0, 1] every channel stays between the two colours'
      channels, so two in-gamut colours never interpolate out of gamut and
      p5 never has to clamp */
  lemma LerpColorInGamut(c1: Rgb, c2: Rgb, amt: real)
    requires InGamut(c1) && InGamut(c2) && 0.0 <= amt <= 1.0
    ensures InGamut(LerpColor(c1, c2, amt))
  {
    LerpBetween(c1.red, c2.red, amt);
    LerpBetween(c1.green, c2.green, amt);
    LerpBetween(c1.blue, c2.blue, amt);
  }

  /** interpolating a colour with itself leaves it unchanged at every amount */
  lemma LerpColorSame(c: Rgb, amt: real)
    ensures LerpColor(c, c, amt) == c
  {
  }
}
