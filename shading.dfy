/**
 * Colour mapping of an iteration count: `setIterations` derives the shade
 * ratio 765 / iterations (765 = 3 * 255, integer quotient), `scaleShade`
 * turns a count into a shade, and `setColor` splits the shade into
 * saturating red, green and blue parts.
 */
module Shading {

  import opened Arith

  /** Three full colour channels: 3 * 255. */
  const ShadeMax: int := 765
  const ChannelMax: int := 255

  /** A pixel of a TYPE_INT_RGB image. */
  datatype Rgb = Rgb(red: int, green: int, blue: int)

  /** The value every pixel of a freshly allocated image holds. */
  const Black: Rgb := Rgb(0, 0, 0)

  /** The shade ratio `setIterations` stores: an integer quotient. */
  function ShadeRatio(iterations: int): (ratio: int)
    requires iterations >= 1
    ensures 0 <= ratio * iterations <= ShadeMax < (ratio + 1) * iterations
  {
    ShadeMax / iterations
  }

  /**
   * `scaleShade`: 765 minus the count scaled by the ratio.  The range for
   * every count the kernel returns is `ScaleShadeRange`.
   */
  function ScaleShade(count: int, ratio: int): (shade: int)
    ensures 0 <= count * ratio ==> shade <= ShadeMax
    ensures count * ratio <= ShadeMax ==> 0 <= shade
  {
    ShadeMax - count * ratio
  }

  /** For a count the kernel can return, the shade is a valid 0..765 intensity. */
  lemma ScaleShadeRange(count: int, iterations: int)
    requires 1 <= count <= iterations
    ensures 0 <= ScaleShade(count, ShadeRatio(iterations)) <= ShadeMax
  {
    var ratio := ShadeRatio(iterations);
    assert 0 <= count * ratio <= iterations * ratio by {
      MulMonotone(count, iterations, ratio);
    }
  }

  /** More iterations before escaping never gives a lighter shade. */
  lemma ScaleShadeAntitone(count1: int, count2: int, iterations: int)
    requires count1 <= count2 && iterations >= 1
    ensures ScaleShade(count2, ShadeRatio(iterations)) <= ScaleShade(count1, ShadeRatio(iterations))
  {
    MulMonotone(count1, count2, ShadeRatio(iterations));
  }

  /**
   * A pixel that never escapes gets shade 765 mod iterations, which is zero
   * only when iterations divides 765; with a cap above 765 every count maps
   * to the full 765.
   */
  lemma ScaleShadeAtCap(iterations: int)
    requires iterations >= 1
    ensures ScaleShade(iterations, ShadeRatio(iterations)) == ShadeMax % iterations
    ensures iterations > ShadeMax ==> forall count :: ScaleShade(count, ShadeRatio(iterations)) == ShadeMax
  {
    assert ShadeMax == iterations * (ShadeMax / iterations) + ShadeMax % iterations;
  }

  /** The two shades the colour mapping gives with the default cap of 100. */
  lemma ShadeExamples()
    ensures ScaleShade(100, ShadeRatio(100)) == 65 && SetColor(65) == Rgb(65, 0, 0)
    ensures ScaleShade(1, ShadeRatio(100)) == 758 && SetColor(758) == Rgb(255, 255, 248)
  {
  }

  /** The shade that a colour carries: the sum of its channels. */
  function ShadeOf(c: Rgb): int
  {
    c.red + c.green + c.blue
  }

  /**
   * `setColor`: red takes up to 255 of the shade, green up to 255 of the
   * rest, blue up to 255 of what remains.  A shade above 765 saturates to
   * white; a negative shade ends up whole in the red channel.
   */
  function SetColor(shade: int): (c: Rgb)
    ensures shade >= 0 ==>
      && 0 <= c.red <= ChannelMax && 0 <= c.green <= ChannelMax && 0 <= c.blue <= ChannelMax
      && ShadeOf(c) == (if shade > ShadeMax then ShadeMax else shade)
      && (c.green > 0 ==> c.red == ChannelMax)
      && (c.blue > 0 ==> c.green == ChannelMax)
    ensures shade < 0 ==> c == Rgb(shade, 0, 0)
  {
    var red := if shade > ChannelMax then ChannelMax else shade;
    var rest := shade - red;
    var green := if rest > ChannelMax then ChannelMax else rest;
    var rest' := rest - green;
    var blue := if rest' > ChannelMax then ChannelMax else rest';
    Rgb(red, green, blue)
  }

  /** The split is injective on valid shades: different shades, different colours. */
  lemma SetColorInjective(s1: int, s2: int)
    requires 0 <= s1 <= ShadeMax && 0 <= s2 <= ShadeMax && s1 != s2
    ensures SetColor(s1) != SetColor(s2)
  {
  }

  /** Every count the kernel returns for a positive cap maps to valid channels. */
  lemma CountColorInRange(count: int, iterations: int)
    requires 1 <= count <= iterations
    ensures var c := SetColor(ScaleShade(count, ShadeRatio(iterations)));
      0 <= c.red <= ChannelMax && 0 <= c.green <= ChannelMax && 0 <= c.blue <= ChannelMax
  {
    ScaleShadeRange(count, iterations);
  }
}
