/** Counter colours and `getRandomColor`. */
module Palette {
  /** A Compose `Color` built from a 32-bit ARGB literal. */
  datatype Color = Color(argb: bv32)

  const Green: Color := Color(0xFF4C_AF50)
  const Blue: Color := Color(0xFF21_96F3)
  const Orange: Color := Color(0xFFFF_9800)
  const Purple: Color := Color(0xFF9C_27B0)
  const Pink: Color := Color(0xFFE9_1E63)
  const Teal: Color := Color(0xFF00_9688)

  /** The six colours `getRandomColor` draws from, in its order. */
  const Colors: seq<Color> := [Green, Blue, Orange, Purple, Pink, Teal]

  predicate InPalette(c: Color) {
    c in Colors
  }

  /** `getRandomColor` with the draw of `Random.nextInt(colors.size)` passed
      in as `index`; the draw always lies in [0, 6). */
  function RandomColor(index: int): (c: Color)
    requires 0 <= index < |Colors|
    ensures InPalette(c)
    ensures c.argb >> 24 == 0xFF
  {
    Colors[index]
  }

  /** Every palette colour is the outcome of some draw, and distinct draws
      give distinct colours. */
  lemma RandomColorCoversPalette(c: Color)
    requires InPalette(c)
    ensures exists i :: 0 <= i < |Colors| && RandomColor(i) == c
  {
    var i :| 0 <= i < |Colors| && Colors[i] == c;
    assert RandomColor(i) == c;
  }

  lemma RandomColorInjective(i: int, j: int)
    requires 0 <= i < |Colors| && 0 <= j < |Colors|
    requires RandomColor(i) == RandomColor(j)
    ensures i == j
  {
  }
}
