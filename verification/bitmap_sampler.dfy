/** engine/BitmapSampler.kt: copy the colour of the bitmap pixel under each
    fixture into the fixture, 1:1 (the bitmap was already scaled to the
    map's size). */
module BitmapSampler {
  import opened Numeric
  import opened Results
  import opened Fixtures
  import opened PixelMaps

  /** An Android colour int, as its 32-bit pattern 0xAARRGGBB. */
  type Pixel = p: int | 0 <= p < 0x1_0000_0000

  /** `android.graphics.Color.alpha/red/green/blue`. */
  function Alpha(p: Pixel): byte { p / 0x100_0000 }
  function Red(p: Pixel): byte { (p / 0x1_0000) % 0x100 }
  function Green(p: Pixel): byte { (p / 0x100) % 0x100 }
  function Blue(p: Pixel): byte { p % 0x100 }

  /** A frame: rows of pixels, all rows the same width, row `y` column `x`
      holding `getPixel(x, y)`. */
  type Bitmap = rows: seq<seq<Pixel>> | forall r :: 0 <= r < |rows| ==> |rows[r]| == |rows[0]|

  function Width(b: Bitmap): nat
  {
    if |b| == 0 then 0 else |b[0]|
  }

  function Height(b: Bitmap): nat
  {
    |b|
  }

  /** `bitmap.getPixel(x, y)` for coordinates inside the bitmap. */
  function GetPixel(b: Bitmap, x: int, y: int): Pixel
    requires 0 <= x < Width(b) && 0 <= y < Height(b)
  {
    b[y][x]
  }

  /** The opaque RGB colour written for a pixel: `Color(red/255f,
      green/255f, blue/255f)`, alpha not read. */
  function PixelColor(p: Pixel): Rgb
  {
    Rgb(Red(p), Green(p), Blue(p))
  }

  /** The fixture lies on the bitmap. */
  predicate OnBitmap(b: Bitmap, f: Fixture)
  {
    0 <= f.x < Width(b) && 0 <= f.y < Height(b)
  }

  /** `BitmapSampler.sample(bitmap, pixelMap, fixtures)`, with the bounds
      check made two-sided (see SampleAsWritten): a fixture on the bitmap
      takes the RGB of the pixel under it; any other fixture keeps its
      colour. `pixelMap` is unused, as in the source. */
  function Sample(b: Bitmap, pixelMap: PixelMap, fixtures: seq<Fixture>): (r: seq<Fixture>)
    ensures SameLayout(r, fixtures)
    ensures forall i :: 0 <= i < |fixtures| && OnBitmap(b, fixtures[i]) ==>
              r[i].color == PixelColor(GetPixel(b, fixtures[i].x, fixtures[i].y))
    ensures forall i :: 0 <= i < |fixtures| && !OnBitmap(b, fixtures[i]) ==> r[i] == fixtures[i]
  {
    if |fixtures| == 0 then []
    else
      var f := fixtures[0];
      var g := if OnBitmap(b, f) then f.(color := PixelColor(GetPixel(b, f.x, f.y))) else f;
      [g] + Sample(b, pixelMap, fixtures[1..])
  }

  /** The result does not depend on the `pixelMap` argument. */
  lemma SampleIgnoresPixelMap(b: Bitmap, m1: PixelMap, m2: PixelMap, fixtures: seq<Fixture>)
    ensures Sample(b, m1, fixtures) == Sample(b, m2, fixtures)
  {
  }

  /** Replacing the alpha byte of a pixel does not change the colour it
      gives a fixture. */
  lemma AlphaDiscarded(p: Pixel, a: byte)
    ensures var q := a * 0x100_0000 + p % 0x100_0000;
            0 <= q < 0x1_0000_0000 && Alpha(q) == a && PixelColor(q) == PixelColor(p)
  {
    var q := a * 0x100_0000 + p % 0x100_0000;
    LowBytes(p / 0x100_0000, p % 0x100_0000);
    LowBytes(a, p % 0x100_0000);
    assert p == (p / 0x100_0000) * 0x100_0000 + p % 0x100_0000;
  }

  /** The three low bytes of `hi * 2^24 + low` are those of `low`. */
  lemma LowBytes(hi: int, low: int)
    requires 0 <= hi < 0x100 && 0 <= low < 0x100_0000
    ensures (hi * 0x100_0000 + low) / 0x100_0000 == hi
    ensures ((hi * 0x100_0000 + low) / 0x1_0000) % 0x100 == low / 0x1_0000
    ensures ((hi * 0x100_0000 + low) / 0x100) % 0x100 == (low / 0x100) % 0x100
    ensures (hi * 0x100_0000 + low) % 0x100 == low % 0x100
  {
    var v := hi * 0x100_0000 + low;
    assert v / 0x1_0000 == hi * 0x100 + low / 0x1_0000;
    assert v / 0x100 == hi * 0x1_0000 + low / 0x100;
  }

  /** Sampling twice with the same bitmap is sampling once: each fixture's
      new colour depends only on its own, unchanged, coordinates. */
  lemma SampleIdempotent(b: Bitmap, m: PixelMap, fixtures: seq<Fixture>)
    ensures Sample(b, m, Sample(b, m, fixtures)) == Sample(b, m, fixtures)
  {
    var once := Sample(b, m, fixtures);
    var twice := Sample(b, m, once);
    assert |twice| == |once|;
    forall i | 0 <= i < |once|
      ensures twice[i] == once[i]
    {
      assert SameAddress(once[i], fixtures[i]);
    }
  }

  // ---------------------------------------------------------------------
  // The source's one-sided bounds check

  /** The guard the source writes: `fixture.x < bitmap.width &&
      fixture.y < bitmap.height`. */
  predicate SampleGuardAsWritten(b: Bitmap, f: Fixture)
  {
    f.x < Width(b) && f.y < Height(b)
  }

  /** A fixture that passes the source's guard but lies off the bitmap,
      so that `getPixel` throws IllegalArgumentException. */
  predicate SampleThrows(b: Bitmap, f: Fixture)
  {
    SampleGuardAsWritten(b, f) && !OnBitmap(b, f)
  }

  /** The sampler exactly as written: it fails at the first fixture with a
      negative coordinate that passes the guard, reported here as that
      fixture's index. */
  function SampleAsWritten(b: Bitmap, pixelMap: PixelMap, fixtures: seq<Fixture>): (r: Result<seq<Fixture>, nat>)
    ensures r.Failure? <==> exists i :: 0 <= i < |fixtures| && SampleThrows(b, fixtures[i])
    ensures r.Failure? ==> && r.error < |fixtures| && SampleThrows(b, fixtures[r.error])
                           && forall j :: 0 <= j < r.error ==> !SampleThrows(b, fixtures[j])
    ensures r.Success? ==> r.value == Sample(b, pixelMap, fixtures)
  {
    if |fixtures| == 0 then Success([])
    else
      var f := fixtures[0];
      if SampleGuardAsWritten(b, f) && (f.x < 0 || f.y < 0) then Failure(0)
      else
        var g := if SampleGuardAsWritten(b, f) then f.(color := PixelColor(GetPixel(b, f.x, f.y))) else f;
        match SampleAsWritten(b, pixelMap, fixtures[1..])
        case Success(rest) => Success([g] + rest)
        case Failure(i) =>
          assert fixtures[1..][i] == fixtures[i + 1];
          assert forall j :: 1 <= j <= i ==> fixtures[j] == fixtures[1..][j - 1];
          Failure(i + 1)
  }

  /** A manifest pixel at x = -1 on a 1 x 1 frame makes the as-written
      sampler throw, where the two-sided check leaves the fixture alone. */
  lemma NegativeCoordinateThrows()
    ensures var b: Bitmap := [[0xFF00_0000]];
            var f := NewFixture(0, -1, 0, 0, 1);
            && SampleAsWritten(b, PixelMap(1, 1, [f]), [f]) == Failure(0)
            && Sample(b, PixelMap(1, 1, [f]), [f]) == [f]
  {
  }

  // ---------------------------------------------------------------------
  // The source's unit test, as a fact about the model

  const RED: Pixel := 0xFFFF_0000
  const GREEN: Pixel := 0xFF00_FF00
  const BLUE: Pixel := 0xFF00_00FF
  const WHITE: Pixel := 0xFFFF_FFFF

  /** A 2 x 2 bitmap red/green over blue/white maps onto the four
      fixtures at (0,0), (1,0), (0,1), (1,1) as those four colours. */
  lemma TwoByTwoExample()
    ensures var b: Bitmap := [[RED, GREEN], [BLUE, WHITE]];
            var fs := [NewFixture(0, 0, 0, 1, 1), NewFixture(1, 1, 0, 1, 4),
                       NewFixture(2, 0, 1, 1, 7), NewFixture(3, 1, 1, 1, 10)];
            var r := Sample(b, PixelMap(2, 2, fs), fs);
            && r[0].color == Rgb(0xFF, 0, 0) && r[1].color == Rgb(0, 0xFF, 0)
            && r[2].color == Rgb(0, 0, 0xFF) && r[3].color == Rgb(0xFF, 0xFF, 0xFF)
  {
    var b: Bitmap := [[RED, GREEN], [BLUE, WHITE]];
    var fs := [NewFixture(0, 0, 0, 1, 1), NewFixture(1, 1, 0, 1, 4),
               NewFixture(2, 0, 1, 1, 7), NewFixture(3, 1, 1, 1, 10)];
    assert forall i :: 0 <= i < 4 ==> OnBitmap(b, fs[i]);
    assert PixelColor(RED) == Rgb(0xFF, 0, 0) && PixelColor(GREEN) == Rgb(0, 0xFF, 0);
    assert PixelColor(BLUE) == Rgb(0, 0, 0xFF) && PixelColor(WHITE) == Rgb(0xFF, 0xFF, 0xFF);
    assert GetPixel(b, 0, 0) == RED && GetPixel(b, 1, 0) == GREEN;
    assert GetPixel(b, 0, 1) == BLUE && GetPixel(b, 1, 1) == WHITE;
  }
}
