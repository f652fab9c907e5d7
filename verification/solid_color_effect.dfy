/** engine/effects/SolidColorEffect.kt: the EffectStrategy that paints
    every fixture one configured colour. */
module SolidColorEffect {
  import opened Fixtures
  import opened PixelMaps

  datatype SolidColor = SolidColor(color: Rgb)

  /** `SolidColorEffect()` with its default colour, `Color.Blue`. */
  const Default := SolidColor(Blue)

  /** `update(pixelMap, time)`: every fixture takes the configured colour;
      `time` is not read. */
  function Update(effect: SolidColor, m: PixelMap, time: real): (r: PixelMap)
    ensures r.width == m.width && r.height == m.height
    ensures SameLayout(r.fixtures, m.fixtures)
    ensures forall i :: 0 <= i < |r.fixtures| ==> r.fixtures[i].color == effect.color
  {
    m.(fixtures := Paint(m.fixtures, effect.color))
  }

  function Paint(fs: seq<Fixture>, c: Rgb): (r: seq<Fixture>)
    ensures SameLayout(r, fs)
    ensures forall i :: 0 <= i < |r| ==> r[i].color == c
  {
    seq(|fs|, i requires 0 <= i < |fs| => fs[i].(color := c))
  }

  /** The result is the same at every time value. */
  lemma UpdateIgnoresTime(effect: SolidColor, m: PixelMap, t1: real, t2: real)
    ensures Update(effect, m, t1) == Update(effect, m, t2)
  {
  }

  /** Two fixture maps with the same layout and one colour everywhere are
      the same map. */
  lemma {:induction false} UniformLayoutUnique(a: seq<Fixture>, b: seq<Fixture>, c: Rgb)
    requires SameLayout(a, b)
    requires forall i :: 0 <= i < |a| ==> a[i].color == c
    requires forall i :: 0 <= i < |b| ==> b[i].color == c
    ensures a == b
  {
    assert forall i :: 0 <= i < |a| ==> a[i] == b[i];
  }

  /** Painting twice is painting once, whatever the two time values. */
  lemma UpdateIdempotent(effect: SolidColor, m: PixelMap, t1: real, t2: real)
    ensures Update(effect, Update(effect, m, t1), t2) == Update(effect, m, t1)
  {
    var once := Update(effect, m, t1);
    var twice := Update(effect, once, t2);
    UniformLayoutUnique(twice.fixtures, once.fixtures, effect.color);
  }
}
