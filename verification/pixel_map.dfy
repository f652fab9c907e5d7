/** model/PixelMap.kt: the topology of one playback session, built either
    from a show manifest or as a procedurally addressed rectangular grid. */
module PixelMaps {
  import opened Numeric
  import opened Fixtures
  import opened ShowModels

  datatype PixelMap = PixelMap(width: i32, height: i32, fixtures: seq<Fixture>)

  /** DMX channels per universe, and channels per RGB fixture. */
  const UNIVERSE_SIZE: int := 512
  const CHANNELS_PER_FIXTURE: int := 3

  /** Fixtures per universe before createGrid rolls over: channels
      1, 4, ..., 508 fit, 511 would need channels 511..513. */
  const FIXTURES_PER_UNIVERSE: int := 170

  // ---------------------------------------------------------------------
  // fromManifest

  /** All pixel definitions of all fixture definitions, in order
      (`flatMap`). */
  function Flatten(defs: seq<FixtureDefinition>): (r: seq<PixelDefinition>)
    ensures forall pd :: pd in r <==> exists j :: 0 <= j < |defs| && pd in defs[j].pixels
  {
    if |defs| == 0 then [] else defs[0].pixels + Flatten(defs[1..])
  }

  /** Where the pixels of definition `j` start in the flattened list: the
      number of pixels of all definitions before it. */
  function Offset(defs: seq<FixtureDefinition>, j: nat): nat
    requires j <= |defs|
  {
    if j == 0 then 0 else |defs[0].pixels| + Offset(defs[1..], j - 1)
  }

  /** Flattening keeps every pixel, at its definition's offset plus its
      own index, and adds nothing. */
  lemma {:induction false} FlattenIndex(defs: seq<FixtureDefinition>, j: nat, p: nat)
    requires j < |defs| && p < |defs[j].pixels|
    ensures Offset(defs, j) + p < |Flatten(defs)|
    ensures Flatten(defs)[Offset(defs, j) + p] == defs[j].pixels[p]
  {
    if j > 0 {
      FlattenIndex(defs[1..], j - 1, p);
    }
  }

  lemma {:induction false} FlattenLength(defs: seq<FixtureDefinition>)
    ensures |Flatten(defs)| == Offset(defs, |defs|)
  {
    if |defs| > 0 {
      FlattenLength(defs[1..]);
    }
  }

  /** Kotlin's `maxOfOrNull { ... } ?: 0`. */
  function MaxOrZero(xs: seq<i32>): (r: i32)
    ensures |xs| == 0 ==> r == 0
    ensures forall i :: 0 <= i < |xs| ==> xs[i] <= r
    ensures |xs| > 0 ==> exists i :: 0 <= i < |xs| && xs[i] == r
  {
    if |xs| == 0 then 0
    else if |xs| == 1 then xs[0]
    else
      var rest := MaxOrZero(xs[1..]);
      assert forall i :: 1 <= i < |xs| ==> xs[i] == xs[1..][i - 1];
      if xs[0] >= rest then xs[0] else rest
  }

  /** The runtime fixture built for one pixel definition; `idOf` stands for
      `String.hashCode()`. */
  function ToFixture(pd: PixelDefinition, idOf: string -> i32): (f: Fixture)
    ensures f.id == idOf(pd.id) && f.x == pd.x && f.y == pd.y
    ensures f.universe == pd.dmxInfo.universe && f.channel == pd.dmxInfo.channel
    ensures f.color == Black
  {
    NewFixture(idOf(pd.id), pd.x, pd.y, pd.dmxInfo.universe, pd.dmxInfo.channel)
  }

  function Xs(fs: seq<Fixture>): (r: seq<i32>)
    ensures |r| == |fs| && forall i :: 0 <= i < |fs| ==> r[i] == fs[i].x
  {
    seq(|fs|, i requires 0 <= i < |fs| => fs[i].x)
  }

  function Ys(fs: seq<Fixture>): (r: seq<i32>)
    ensures |r| == |fs| && forall i :: 0 <= i < |fs| ==> r[i] == fs[i].y
  {
    seq(|fs|, i requires 0 <= i < |fs| => fs[i].y)
  }

  /** `PixelMap.fromManifest`: one black fixture per pixel definition, in
      manifest order, and the bounding box `max + 1` of the coordinates
      (1 x 1 when there are no pixels). The `+ 1` is Int arithmetic. */
  function FromManifest(manifest: ShowManifest, idOf: string -> i32): (m: PixelMap)
    ensures var pixels := Flatten(manifest.fixtures);
            && |m.fixtures| == |pixels|
            && forall k :: 0 <= k < |pixels| ==>
                 && m.fixtures[k].x == pixels[k].x && m.fixtures[k].y == pixels[k].y
                 && m.fixtures[k].universe == pixels[k].dmxInfo.universe
                 && m.fixtures[k].channel == pixels[k].dmxInfo.channel
                 && m.fixtures[k].id == idOf(pixels[k].id)
                 && m.fixtures[k].color == Black
    ensures |m.fixtures| == 0 ==> m.width == 1 && m.height == 1
    ensures m.width == Wrap32(MaxOrZero(Xs(m.fixtures)) + 1)
    ensures m.height == Wrap32(MaxOrZero(Ys(m.fixtures)) + 1)
  {
    var pixels := Flatten(manifest.fixtures);
    var fixtures := seq(|pixels|, k requires 0 <= k < |pixels| => ToFixture(pixels[k], idOf));
    var maxX := MaxOrZero(Xs(fixtures));
    var maxY := MaxOrZero(Ys(fixtures));
    PixelMap(Wrap32(maxX + 1), Wrap32(maxY + 1), fixtures)
  }

  /** Each pixel of definition `j` becomes the fixture at the definition's
      offset plus the pixel's index. */
  lemma FromManifestPlacement(manifest: ShowManifest, idOf: string -> i32, j: nat, p: nat)
    requires j < |manifest.fixtures| && p < |manifest.fixtures[j].pixels|
    ensures var k := Offset(manifest.fixtures, j) + p;
            var pd := manifest.fixtures[j].pixels[p];
            && k < |FromManifest(manifest, idOf).fixtures|
            && FromManifest(manifest, idOf).fixtures[k] == ToFixture(pd, idOf)
  {
    FlattenIndex(manifest.fixtures, j, p);
  }

  /** The map is the bounding box of its fixtures: every fixture lies
      inside it and some fixture touches the right and bottom edges. This
      holds unless a coordinate is Int.MAX_VALUE, where `max + 1` wraps. */
  lemma FromManifestBoundingBox(manifest: ShowManifest, idOf: string -> i32)
    requires forall k :: 0 <= k < |FromManifest(manifest, idOf).fixtures| ==>
               FromManifest(manifest, idOf).fixtures[k].x < I32_MAX
               && FromManifest(manifest, idOf).fixtures[k].y < I32_MAX
    ensures var m := FromManifest(manifest, idOf);
            && (forall k :: 0 <= k < |m.fixtures| ==> m.fixtures[k].x < m.width && m.fixtures[k].y < m.height)
            && (|m.fixtures| > 0 ==>
                  && (exists k :: 0 <= k < |m.fixtures| && m.fixtures[k].x == m.width - 1)
                  && (exists k :: 0 <= k < |m.fixtures| && m.fixtures[k].y == m.height - 1))
  {
    var m := FromManifest(manifest, idOf);
    var xs, ys := Xs(m.fixtures), Ys(m.fixtures);
    if |m.fixtures| > 0 {
      var i :| 0 <= i < |xs| && xs[i] == MaxOrZero(xs);
      var j :| 0 <= j < |ys| && ys[j] == MaxOrZero(ys);
      assert m.fixtures[i].x == m.width - 1;
      assert m.fixtures[j].y == m.height - 1;
    }
  }

  // ---------------------------------------------------------------------
  // createGrid

  /** The number of fixtures `createGrid(width, height, _)` emits. */
  function GridSize(width: i32, height: i32): nat
  {
    if width > 0 && height > 0 then width * height else 0
  }

  /** One more row adds one row's worth of fixtures. */
  lemma GridSizeStep(width: i32, y: i32)
    requires 0 <= y < 0x7fff_ffff
    ensures GridSize(width, y + 1) == GridSize(width, y) + (if width > 0 then width else 0)
  {
    if width > 0 {
      MulDistributes(y as int + 1, 1, width);
    }
  }

  /** The channel of the k-th grid fixture: 170 fixtures per universe,
      three channels each, from channel 1. */
  function GridChannel(k: nat): int
  {
    1 + CHANNELS_PER_FIXTURE * (k % FIXTURES_PER_UNIVERSE)
  }

  /** The universe of the k-th grid fixture; the source's Int counter wraps. */
  function GridUniverse(startUniverse: i32, k: nat): i32
  {
    Wrap32(startUniverse + k / FIXTURES_PER_UNIVERSE)
  }

  /** The closed form of the k-th fixture of a grid of the given width:
      row-major position, id k (an Int counter, hence wrapped), black. */
  predicate IsGridFixture(width: i32, startUniverse: i32, k: nat, f: Fixture)
    requires width > 0
  {
    && f.x == k % width && f.y == k / width
    && f.id == Wrap32(k)
    && f.universe == GridUniverse(startUniverse, k)
    && f.channel == GridChannel(k)
    && f.color == Black
  }

  /** Every grid fixture's three channels fit one universe. */
  lemma GridChannelRange(k: nat)
    ensures 1 <= GridChannel(k) && GridChannel(k) + 2 <= UNIVERSE_SIZE
  {
  }

  /** The channels used are 1, 4, ..., 508: the last fixture of a universe
      starts at 508 and the next one at channel 1 of the following
      universe; otherwise the next fixture follows three channels on in
      the same universe. */
  lemma GridRollover(startUniverse: i32, k: nat)
    ensures k % FIXTURES_PER_UNIVERSE == FIXTURES_PER_UNIVERSE - 1 ==>
              && GridChannel(k) == 508
              && GridChannel(k + 1) == 1
              && GridUniverse(startUniverse, k + 1) == Wrap32(GridUniverse(startUniverse, k) + 1)
    ensures k % FIXTURES_PER_UNIVERSE != FIXTURES_PER_UNIVERSE - 1 ==>
              && GridChannel(k + 1) == GridChannel(k) + CHANNELS_PER_FIXTURE
              && GridUniverse(startUniverse, k + 1) == GridUniverse(startUniverse, k)
  {
    if k % FIXTURES_PER_UNIVERSE == FIXTURES_PER_UNIVERSE - 1 {
      assert (k + 1) % FIXTURES_PER_UNIVERSE == 0;
      assert (k + 1) / FIXTURES_PER_UNIVERSE == k / FIXTURES_PER_UNIVERSE + 1;
      Wrap32Increment(startUniverse + k / FIXTURES_PER_UNIVERSE);
    } else {
      assert (k + 1) % FIXTURES_PER_UNIVERSE == k % FIXTURES_PER_UNIVERSE + 1;
      assert (k + 1) / FIXTURES_PER_UNIVERSE == k / FIXTURES_PER_UNIVERSE;
    }
  }

  /** Two different grid fixtures never share a DMX address, as long as
      the universe counter has not gone round all 2^32 Int values: within
      one universe their channels are at least three apart. */
  lemma GridAddressesDistinct(startUniverse: i32, k: nat, k': nat)
    requires k < k' < FIXTURES_PER_UNIVERSE * 0x1_0000_0000
    requires GridUniverse(startUniverse, k) == GridUniverse(startUniverse, k')
    ensures GridChannel(k) - GridChannel(k') >= CHANNELS_PER_FIXTURE
            || GridChannel(k') - GridChannel(k) >= CHANNELS_PER_FIXTURE
  {
    var q, q' := k / FIXTURES_PER_UNIVERSE, k' / FIXTURES_PER_UNIVERSE;
    assert k == q * FIXTURES_PER_UNIVERSE + k % FIXTURES_PER_UNIVERSE;
    assert k' == q' * FIXTURES_PER_UNIVERSE + k' % FIXTURES_PER_UNIVERSE;
    if q < q' {
      Wrap32Distinct(startUniverse + q, startUniverse + q');
    }
    assert q == q';
  }

  /** The channel counter of createGrid after `k` fixtures were emitted. */
  function ChannelAfter(k: nat): int
  {
    if k == 0 then 1 else 4 + 3 * ((k - 1) % FIXTURES_PER_UNIVERSE)
  }

  /** The universe counter of createGrid after `k` fixtures were emitted. */
  function UniverseAfter(startUniverse: i32, k: nat): i32
  {
    if k == 0 then startUniverse else Wrap32(startUniverse + (k - 1) / FIXTURES_PER_UNIVERSE)
  }

  /** One step of the counters: the rollover test fires exactly at
      multiples of 170, and then the emitted address is the closed form. */
  lemma CounterStep(startUniverse: i32, k: nat)
    ensures ChannelAfter(k) + 2 > UNIVERSE_SIZE <==> (k > 0 && k % FIXTURES_PER_UNIVERSE == 0)
    ensures var rolled := ChannelAfter(k) + 2 > UNIVERSE_SIZE;
            && (if rolled then 1 else ChannelAfter(k)) == GridChannel(k)
            && (if rolled then Wrap32(UniverseAfter(startUniverse, k) + 1) else UniverseAfter(startUniverse, k))
               == GridUniverse(startUniverse, k)
    ensures ChannelAfter(k + 1) == GridChannel(k) + 3
    ensures UniverseAfter(startUniverse, k + 1) == GridUniverse(startUniverse, k)
  {
    if k > 0 {
      if k % FIXTURES_PER_UNIVERSE == 0 {
        assert (k - 1) % FIXTURES_PER_UNIVERSE == 169;
        assert (k - 1) / FIXTURES_PER_UNIVERSE + 1 == k / FIXTURES_PER_UNIVERSE;
        Wrap32Increment(startUniverse + (k - 1) / FIXTURES_PER_UNIVERSE);
      } else {
        assert (k - 1) % FIXTURES_PER_UNIVERSE + 1 == k % FIXTURES_PER_UNIVERSE;
        assert (k - 1) / FIXTURES_PER_UNIVERSE == k / FIXTURES_PER_UNIVERSE;
      }
    }
  }

  /** Row-major index arithmetic: index `y * w + x` is at column x, row y. */
  lemma RowMajor(w: int, y: nat, x: nat)
    requires 0 <= x < w
    ensures (y * w + x) / w == y && (y * w + x) % w == x
  {
    var n := y * w + x;
    var q, r := n / w, n % w;
    assert n == q * w + r;
    MulDistributes(q, y, w);
    MulDistributes(y, q, w);
    if q > y {
      MulAtLeast(q - y, w);
    } else if q < y {
      MulAtLeast(y - q, w);
    }
  }

  /** The first `|fs|` fixtures of a grid, in closed form. */
  predicate GridPrefix(width: i32, startUniverse: i32, fs: seq<Fixture>)
  {
    forall k :: 0 <= k < |fs| ==> width > 0 && IsGridFixture(width, startUniverse, k, fs[k])
  }

  /** createGrid's counters after `k` fixtures were emitted. */
  predicate CountersAt(startUniverse: i32, k: nat, universe: i32, channel: int, id: i32)
  {
    channel == ChannelAfter(k) && universe == UniverseAfter(startUniverse, k) && id == Wrap32(k)
  }

  /** One pass of the inner loop body of createGrid, at column `x` of row
      `y`: the fixture it emits is the closed-form one, and the counters
      then match one more fixture. */
  lemma EmitStep(width: i32, startUniverse: i32, fs: seq<Fixture>, y: i32, x: i32,
                 universe: i32, channel: int, id: i32)
    requires 0 <= x < width && 0 <= y && |fs| == y * width + x
    requires GridPrefix(width, startUniverse, fs) && CountersAt(startUniverse, |fs|, universe, channel, id)
    ensures var rolled := channel + 2 > UNIVERSE_SIZE;
            var u := if rolled then Wrap32(universe + 1) else universe;
            var c := if rolled then 1 else channel;
            && 1 <= c && c + 2 <= UNIVERSE_SIZE
            && GridPrefix(width, startUniverse, fs + [NewFixture(id, x, y, u, c)])
            && CountersAt(startUniverse, |fs| + 1, u, c + CHANNELS_PER_FIXTURE, Wrap32(id + 1))
  {
    var k := |fs|;
    CounterStep(startUniverse, k);
    GridChannelRange(k);
    RowMajor(width, y as int, x as int);
    Wrap32Increment(k);
    var rolled := channel + 2 > UNIVERSE_SIZE;
    var f := NewFixture(id, x, y, if rolled then Wrap32(universe + 1) else universe, if rolled then 1 else channel);
    assert IsGridFixture(width, startUniverse, k, f);
    assert forall j :: 0 <= j < k ==> (fs + [f])[j] == fs[j];
  }

  /** The inner loop of createGrid: row `y`, one fixture per column,
      appended with the running universe, channel and id counters. */
  method EmitRow(width: i32, startUniverse: i32, y: i32, fs: seq<Fixture>,
                 universe: i32, channel: int, id: i32)
    returns (fs': seq<Fixture>, universe': i32, channel': int, id': i32)
    requires 0 <= y && |fs| == GridSize(width, y)
    requires GridPrefix(width, startUniverse, fs) && CountersAt(startUniverse, |fs|, universe, channel, id)
    ensures |fs'| == |fs| + (if width > 0 then width else 0)
    ensures GridPrefix(width, startUniverse, fs') && CountersAt(startUniverse, |fs'|, universe', channel', id')
  {
    fs', universe', channel', id' := fs, universe, channel, id;
    assert width > 0 ==> |fs| == y * width;
    var x: i32 := 0;
    while x < width
      invariant 0 <= x && (width > 0 ==> x <= width) && (width <= 0 ==> x == 0)
      invariant |fs'| == |fs| + x
      invariant GridPrefix(width, startUniverse, fs')
      invariant CountersAt(startUniverse, |fs'|, universe', channel', id')
    {
      EmitStep(width, startUniverse, fs', y, x, universe', channel', id');
      if channel' + 2 > UNIVERSE_SIZE {
        universe' := Wrap32(universe' + 1);
        channel' := 1;
      }
      fs' := fs' + [NewFixture(id', x, y, universe', channel')];
      id' := Wrap32(id' + 1);
      channel' := channel' + CHANNELS_PER_FIXTURE;
      x := x + 1;
    }
  }

  /** `PixelMap.createGrid(width, height, startUniverse)`: the nested loops
      over rows and columns, with the universe/channel counters of the
      source. */
  method CreateGrid(width: i32, height: i32, startUniverse: i32) returns (m: PixelMap)
    ensures m.width == width && m.height == height
    ensures |m.fixtures| == GridSize(width, height)
    ensures forall k :: 0 <= k < |m.fixtures| ==>
              width > 0 && IsGridFixture(width, startUniverse, k, m.fixtures[k])
  {
    var fixtures: seq<Fixture> := [];
    var currentUniverse: i32 := startUniverse;
    var currentChannel: int := 1;
    var idCounter: i32 := 0;
    var y: i32 := 0;
    while y < height
      invariant 0 <= y && (height > 0 ==> y <= height) && (height <= 0 ==> y == 0)
      invariant |fixtures| == GridSize(width, y)
      invariant GridPrefix(width, startUniverse, fixtures)
      invariant CountersAt(startUniverse, |fixtures|, currentUniverse, currentChannel, idCounter)
    {
      fixtures, currentUniverse, currentChannel, idCounter :=
        EmitRow(width, startUniverse, y, fixtures, currentUniverse, currentChannel, idCounter);
      GridSizeStep(width, y);
      y := y + 1;
    }
    m := PixelMap(width, height, fixtures);
  }

  /** `createGrid(width, height)`: the default first universe is 0. */
  method CreateGridDefault(width: i32, height: i32) returns (m: PixelMap)
    ensures m.width == width && m.height == height
    ensures |m.fixtures| == GridSize(width, height)
    ensures forall k :: 0 <= k < |m.fixtures| ==> width > 0 && IsGridFixture(width, 0, k, m.fixtures[k])
  {
    m := CreateGrid(width, height, 0);
  }
}
