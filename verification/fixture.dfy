/** model/Fixture.kt: one addressable pixel with a grid position, a DMX
    address and a current colour. */
module Fixtures {
  import opened Numeric

  /** A colour as three 8-bit components (Compose's sRGB colour, whose
      components are stored at 8-bit precision). */
  datatype Rgb = Rgb(red: byte, green: byte, blue: byte)

  const Black := Rgb(0, 0, 0)
  const Blue := Rgb(0, 0, 0xFF)

  /** `Fixture(id, x, y, universe, channel, color)`. The Kotlin class has a
      mutable `color`; here a new colour means a new value. */
  datatype Fixture = Fixture(id: i32, x: i32, y: i32, universe: i32, channel: i32, color: Rgb)

  /** The constructor with `color` left at its default. */
  function NewFixture(id: i32, x: i32, y: i32, universe: i32, channel: i32): (f: Fixture)
    ensures f.color == Black
  {
    Fixture(id, x, y, universe, channel, Black)
  }

  /** Two fixtures are the same pixel, whatever their colours. */
  predicate SameAddress(f: Fixture, g: Fixture)
  {
    f.id == g.id && f.x == g.x && f.y == g.y && f.universe == g.universe && f.channel == g.channel
  }

  /** Two fixture lists differ at most in colours. */
  predicate SameLayout(a: seq<Fixture>, b: seq<Fixture>)
  {
    |a| == |b| && forall i :: 0 <= i < |a| ==> SameAddress(a[i], b[i])
  }
}
