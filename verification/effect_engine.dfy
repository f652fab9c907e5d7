/** engine/EffectEngine.kt: the running flag, and one tick of the loop as a
    pure function: colour the fixtures from the frame or the effect, group
    them by universe, pack a 512-byte DMX payload per universe and hand a
    KiNET V1 packet per universe to the sender. */
module EffectEngine {
  import opened Numeric
  import opened Results
  import opened Fixtures
  import opened PixelMaps
  import opened KinetPacket
  import opened BitmapSampler
  import SolidColorEffect

  // ---------------------------------------------------------------------
  // start / stop

  /** What start and stop do besides flipping the flag: start or stop the
      frame source, launch or cancel the loop coroutine. */
  datatype Event = SourceStarted | SourceStopped | LoopLaunched | LoopCancelled

  /** The engine's lifecycle state: `isRunning`, whether `job` is set,
      whether a frame source is attached, and the side effects so far. */
  datatype Engine = Engine(running: bool, hasJob: bool, hasFrameSource: bool, events: seq<Event>)

  /** How one event changes the number of live loops. */
  function Delta(ev: Event): int
  {
    if ev == LoopLaunched then 1 else if ev == LoopCancelled then -1 else 0
  }

  /** Loops launched and not cancelled. */
  function LiveLoops(events: seq<Event>): int
  {
    if |events| == 0 then 0
    else LiveLoops(events[..|events| - 1]) + Delta(events[|events| - 1])
  }

  lemma LiveLoopsSnoc(events: seq<Event>, ev: Event)
    ensures LiveLoops(events + [ev]) == LiveLoops(events) + Delta(ev)
  {
    assert (events + [ev])[..|events + [ev]| - 1] == events;
  }

  /** The flag and the job agree, and exactly the one job that is set is
      alive. */
  predicate Valid(e: Engine)
  {
    e.running == e.hasJob && LiveLoops(e.events) == (if e.hasJob then 1 else 0)
  }

  /** A freshly constructed engine. */
  function NewEngine(hasFrameSource: bool): (e: Engine)
    ensures Valid(e) && !e.running
  {
    Engine(false, false, hasFrameSource, [])
  }

  /** `start(scope)`: a no-op when already running; otherwise set the flag,
      start the frame source if any, then launch one loop. */
  function Start(e: Engine): (r: Engine)
    ensures r.running && r.hasFrameSource == e.hasFrameSource
    ensures e.running ==> r == e
    ensures !e.running ==> r.hasJob
    ensures Valid(e) ==> Valid(r)
    ensures !e.running ==> LiveLoops(r.events) == LiveLoops(e.events) + 1
  {
    if e.running then e
    else
      var es := if e.hasFrameSource then e.events + [SourceStarted] else e.events;
      LiveLoopsSnoc(e.events, SourceStarted);
      LiveLoopsSnoc(es, LoopLaunched);
      Engine(true, true, e.hasFrameSource, es + [LoopLaunched])
  }

  /** `stop()`: clear the flag, stop the frame source if any (whether or
      not the engine was running), cancel the job if there is one. */
  function Stop(e: Engine): (r: Engine)
    ensures !r.running && !r.hasJob && r.hasFrameSource == e.hasFrameSource
    ensures Valid(e) ==> Valid(r) && LiveLoops(r.events) == 0
    ensures LiveLoops(r.events) == LiveLoops(e.events) - (if e.hasJob then 1 else 0)
  {
    var es := if e.hasFrameSource then e.events + [SourceStopped] else e.events;
    LiveLoopsSnoc(e.events, SourceStopped);
    LiveLoopsSnoc(es, LoopCancelled);
    Engine(false, false, e.hasFrameSource, if e.hasJob then es + [LoopCancelled] else es)
  }

  /** Start's side effects: the frame source is started exactly when there
      is one, and the loop is launched after it. */
  lemma StartEvents(e: Engine)
    requires !e.running
    ensures var added := Start(e).events[|e.events|..];
            && added[|added| - 1] == LoopLaunched
            && (SourceStarted in added <==> e.hasFrameSource)
  {
    var r := Start(e);
    var added := r.events[|e.events|..];
    if e.hasFrameSource {
      assert added == [SourceStarted, LoopLaunched];
    } else {
      assert added == [LoopLaunched];
    }
  }

  /** Starting a running engine changes nothing. */
  lemma StartIdempotent(e: Engine)
    ensures Start(Start(e)) == Start(e)
  {
  }

  /** A second stop leaves the engine stopped with no job, cancels nothing
      more, and only repeats the frame source's stop call. */
  lemma StopTwice(e: Engine)
    ensures var once := Stop(e);
            var twice := Stop(once);
            && !twice.running && !twice.hasJob
            && twice.events == once.events + (if e.hasFrameSource then [SourceStopped] else [])
            && LiveLoops(twice.events) == LiveLoops(once.events)
  {
  }

  // ---------------------------------------------------------------------
  // updatePixels

  /** An EffectStrategy's `update(pixelMap, time)` returns nothing and can
      assign only `Fixture.color`, the one mutable field of the map: what
      it leaves behind is the same map with new colours. */
  ghost predicate ColourOnly(s: (PixelMap, real) -> PixelMap)
  {
    forall pm: PixelMap, t: real ::
      && s(pm, t).width == pm.width && s(pm, t).height == pm.height
      && SameLayout(s(pm, t).fixtures, pm.fixtures)
  }

  /** Any EffectStrategy, as the map it leaves after `update`. */
  type Strategy = s: (PixelMap, real) -> PixelMap | ColourOnly(s)
    witness (pm: PixelMap, t: real) => pm

  /** `updatePixels(t)`: a frame from the frame source is sampled onto all
      fixtures; with no frame the effect strategy paints the map. Either
      way only colours change. */
  function UpdatePixels(m: PixelMap, frame: Option<Bitmap>,
                        strategy: Strategy, t: real): (r: PixelMap)
    ensures r.width == m.width && r.height == m.height && SameLayout(r.fixtures, m.fixtures)
    ensures frame.None? ==> r == strategy(m, t)
    ensures frame.Some? ==>
              forall i :: 0 <= i < |m.fixtures| ==>
                   r.fixtures[i].color == (if OnBitmap(frame.value, m.fixtures[i])
                                           then PixelColor(GetPixel(frame.value, m.fixtures[i].x, m.fixtures[i].y))
                                           else m.fixtures[i].color)
  {
    match frame
    case Some(bitmap) => m.(fixtures := Sample(bitmap, m, m.fixtures))
    case None => strategy(m, t)
  }

  // ---------------------------------------------------------------------
  // groupBy { it.universe }

  /** The universes the fixtures use. */
  function UniversesOf(fs: seq<Fixture>): set<i32>
  {
    set i | 0 <= i < |fs| :: fs[i].universe
  }

  lemma UniversesOfSnoc(fs: seq<Fixture>, f: Fixture)
    ensures UniversesOf(fs + [f]) == UniversesOf(fs) + {f.universe}
  {
    var a, b := UniversesOf(fs + [f]), UniversesOf(fs) + {f.universe};
    forall u | u in b ensures u in a {
      if u != f.universe {
        var i :| 0 <= i < |fs| && fs[i].universe == u;
        assert (fs + [f])[i] == fs[i];
      } else {
        assert (fs + [f])[|fs|] == f;
      }
    }
  }

  /** The fixtures of one universe, in list order. */
  function OfUniverse(fs: seq<Fixture>, u: i32): seq<Fixture>
  {
    if |fs| == 0 then []
    else
      var last := fs[|fs| - 1];
      OfUniverse(fs[..|fs| - 1], u) + (if last.universe == u then [last] else [])
  }

  lemma OfUniverseSnoc(fs: seq<Fixture>, f: Fixture, u: i32)
    ensures OfUniverse(fs + [f], u) == OfUniverse(fs, u) + (if f.universe == u then [f] else [])
  {
    assert (fs + [f])[..|fs + [f]| - 1] == fs;
  }

  lemma {:induction false} OfUniverseAbsent(fs: seq<Fixture>, u: i32)
    requires u !in UniversesOf(fs)
    ensures OfUniverse(fs, u) == []
  {
    if |fs| > 0 {
      var init := fs[..|fs| - 1];
      assert fs == init + [fs[|fs| - 1]];
      UniversesOfSnoc(init, fs[|fs| - 1]);
      OfUniverseAbsent(init, u);
    }
  }

  /** The position of the first fixture of universe `u`. */
  function FirstSeen(fs: seq<Fixture>, u: i32): (r: nat)
    requires u in UniversesOf(fs)
    ensures r < |fs| && fs[r].universe == u
    ensures forall k :: 0 <= k < r ==> fs[k].universe != u
  {
    var init := fs[..|fs| - 1];
    var last := fs[|fs| - 1];
    assert fs == init + [last];
    UniversesOfSnoc(init, last);
    if u in UniversesOf(init) then FirstSeen(init, u) else |fs| - 1
  }

  lemma FirstSeenSnoc(fs: seq<Fixture>, f: Fixture, u: i32)
    requires u in UniversesOf(fs + [f])
    ensures u in UniversesOf(fs) ==> FirstSeen(fs + [f], u) == FirstSeen(fs, u)
    ensures u !in UniversesOf(fs) ==> FirstSeen(fs + [f], u) == |fs|
  {
    assert (fs + [f])[..|fs + [f]| - 1] == fs;
  }

  /** Fixture lists that differ only in colours have the same universes,
      each first seen at the same position. */
  lemma LayoutUniverses(a: seq<Fixture>, b: seq<Fixture>)
    requires SameLayout(a, b)
    ensures UniversesOf(a) == UniversesOf(b)
    ensures forall u :: u in UniversesOf(a) ==> FirstSeen(a, u) == FirstSeen(b, u)
  {
    assert forall i :: 0 <= i < |a| ==> a[i].universe == b[i].universe by {
      forall i | 0 <= i < |a| ensures a[i].universe == b[i].universe {
        assert SameAddress(a[i], b[i]);
      }
    }
    assert UniversesOf(a) == UniversesOf(b);
    forall u | u in UniversesOf(a) ensures FirstSeen(a, u) == FirstSeen(b, u) {
      var ra, rb := FirstSeen(a, u), FirstSeen(b, u);
      assert b[ra].universe == u && a[rb].universe == u;
    }
  }

  /** One entry of the LinkedHashMap that `groupBy` builds. */
  datatype Group = Group(universe: i32, members: seq<Fixture>)

  function Keys(gs: seq<Group>): set<i32>
  {
    set i | 0 <= i < |gs| :: gs[i].universe
  }

  predicate DistinctKeys(gs: seq<Group>)
  {
    forall i, j :: 0 <= i < j < |gs| ==> gs[i].universe != gs[j].universe
  }

  lemma KeysSnoc(gs: seq<Group>, g: Group)
    ensures Keys(gs + [g]) == Keys(gs) + {g.universe}
  {
    var a, b := Keys(gs + [g]), Keys(gs) + {g.universe};
    forall v | v in b ensures v in a {
      if v != g.universe {
        var i :| 0 <= i < |gs| && gs[i].universe == v;
        assert (gs + [g])[i] == gs[i];
      } else {
        assert (gs + [g])[|gs|] == g;
      }
    }
  }

  /** Every entry holds exactly its universe's fixtures, in list order. */
  predicate GroupsMatch(fs: seq<Fixture>, gs: seq<Group>)
  {
    forall i :: 0 <= i < |gs| ==>
      gs[i].universe in UniversesOf(fs) && gs[i].members == OfUniverse(fs, gs[i].universe)
  }

  /** Every universe the fixtures use has an entry. */
  predicate GroupsCover(fs: seq<Fixture>, gs: seq<Group>)
  {
    forall u :: u in UniversesOf(fs) ==> u in Keys(gs)
  }

  /** Entries are ordered by each universe's first appearance. */
  predicate GroupsOrdered(fs: seq<Fixture>, gs: seq<Group>)
    requires GroupsMatch(fs, gs)
  {
    forall i, j :: 0 <= i < j < |gs| ==>
      FirstSeen(fs, gs[i].universe) < FirstSeen(fs, gs[j].universe)
  }

  /** `gs` is the grouping of `fs` by universe: one entry per universe the
      fixtures use, holding that universe's fixtures in list order, the
      entries ordered by each universe's first appearance. */
  predicate IsGrouping(fs: seq<Fixture>, gs: seq<Group>)
  {
    GroupsMatch(fs, gs) && GroupsCover(fs, gs) && GroupsOrdered(fs, gs)
  }

  /** `getOrPut(key) { mutableListOf() }.add(element)` on the map. */
  function Insert(gs: seq<Group>, f: Fixture): (r: seq<Group>)
    requires DistinctKeys(gs)
    ensures f.universe in Keys(gs) ==> |r| == |gs|
    ensures f.universe !in Keys(gs) ==> |r| == |gs| + 1 && r[|gs|] == Group(f.universe, [f])
    ensures forall i :: 0 <= i < |gs| ==>
              && r[i].universe == gs[i].universe
              && r[i].members == gs[i].members + (if gs[i].universe == f.universe then [f] else [])
  {
    if |gs| == 0 then [Group(f.universe, [f])]
    else if gs[0].universe == f.universe then
      assert forall i :: 1 <= i < |gs| ==> gs[i].universe != f.universe;
      [gs[0].(members := gs[0].members + [f])] + gs[1..]
    else
      assert f.universe in Keys(gs) <==> f.universe in Keys(gs[1..]) by {
        if f.universe in Keys(gs) {
          var i :| 0 <= i < |gs| && gs[i].universe == f.universe;
          assert gs[1..][i - 1] == gs[i];
        }
      }
      [gs[0]] + Insert(gs[1..], f)
  }

  /** Inserting keeps the keys distinct and adds the fixture's universe. */
  lemma InsertKeys(gs: seq<Group>, f: Fixture)
    requires DistinctKeys(gs)
    ensures DistinctKeys(Insert(gs, f))
    ensures Keys(Insert(gs, f)) == Keys(gs) + {f.universe}
  {
    var r := Insert(gs, f);
    if f.universe in Keys(gs) {
      assert Keys(r) == Keys(gs) by {
        forall v | v in Keys(r) ensures v in Keys(gs) {
          var i :| 0 <= i < |r| && r[i].universe == v;
        }
        forall v | v in Keys(gs) ensures v in Keys(r) {
          var i :| 0 <= i < |gs| && gs[i].universe == v;
          assert r[i].universe == v;
        }
      }
    } else {
      assert forall i :: 0 <= i < |gs| ==> r[i] == gs[i];
      assert r == gs + [Group(f.universe, [f])];
      KeysSnoc(gs, Group(f.universe, [f]));
    }
  }

  /** Kotlin's `groupBy`: one pass over the fixtures in order. */
  function GroupBy(fs: seq<Fixture>): (r: seq<Group>)
    ensures DistinctKeys(r)
    ensures Keys(r) == UniversesOf(fs)
    ensures IsGrouping(fs, r)
  {
    if |fs| == 0 then []
    else
      var init := fs[..|fs| - 1];
      var f := fs[|fs| - 1];
      assert fs == init + [f];
      var gs := GroupBy(init);
      var r := Insert(gs, f);
      InsertKeys(gs, f);
      UniversesOfSnoc(init, f);
      StepMatch(init, f, gs);
      StepOrdered(init, f, gs);
      r
  }

  /** Inserting the next fixture keeps every entry equal to its universe's
      fixtures. */
  lemma StepMatch(init: seq<Fixture>, f: Fixture, gs: seq<Group>)
    requires DistinctKeys(gs) && Keys(gs) == UniversesOf(init) && GroupsMatch(init, gs)
    ensures GroupsMatch(init + [f], Insert(gs, f))
  {
    var r := Insert(gs, f);
    UniversesOfSnoc(init, f);
    if f.universe !in Keys(gs) {
      OfUniverseAbsent(init, f.universe);
    }
    forall i | 0 <= i < |r|
      ensures r[i].universe in UniversesOf(init + [f]) && r[i].members == OfUniverse(init + [f], r[i].universe)
    {
      OfUniverseSnoc(init, f, r[i].universe);
    }
  }

  /** Inserting the next fixture keeps the entries in first-seen order. */
  lemma StepOrdered(init: seq<Fixture>, f: Fixture, gs: seq<Group>)
    requires DistinctKeys(gs) && Keys(gs) == UniversesOf(init) && IsGrouping(init, gs)
    requires GroupsMatch(init + [f], Insert(gs, f))
    ensures GroupsOrdered(init + [f], Insert(gs, f))
  {
    var fs := init + [f];
    var r := Insert(gs, f);
    forall i, j | 0 <= i < j < |r|
      ensures FirstSeen(fs, r[i].universe) < FirstSeen(fs, r[j].universe)
    {
      FirstSeenSnoc(init, f, r[i].universe);
      FirstSeenSnoc(init, f, r[j].universe);
      if j == |gs| {
        assert r[i].universe == gs[i].universe;
        assert FirstSeen(init, gs[i].universe) < |init|;
      }
    }
  }

  /** A grouping has as many entries as there are universes. */
  lemma GroupingCount(fs: seq<Fixture>)
    ensures |GroupBy(fs)| == |UniversesOf(fs)|
  {
    DistinctKeysCount(GroupBy(fs));
  }

  /** Distinct keys are as many as the entries. */
  lemma {:induction false} DistinctKeysCount(gs: seq<Group>)
    requires DistinctKeys(gs)
    ensures |Keys(gs)| == |gs|
  {
    if |gs| > 0 {
      var init := gs[..|gs| - 1];
      var last := gs[|gs| - 1];
      assert gs == init + [last];
      DistinctKeysCount(init);
      KeysSnoc(init, last);
      assert last.universe !in Keys(init);
    }
  }

  // ---------------------------------------------------------------------
  // Packing a universe's fixtures into a DMX payload

  const PAYLOAD_SIZE: nat := 512

  /** The fixture's three channels lie within the payload. The source
      checks only `channel + 2 <= 512`; see PackAsWritten. */
  predicate Transmittable(f: Fixture)
  {
    1 <= f.channel && f.channel + 2 <= PAYLOAD_SIZE
  }

  /** Payload index `i` is one of the fixture's R, G, B bytes. */
  predicate Covers(f: Fixture, i: int)
  {
    Transmittable(f) && f.channel - 1 <= i <= f.channel + 1
  }

  /** Component 0, 1, 2 of a colour: red, green, blue. */
  function Component(c: Rgb, k: int): byte
    requires 0 <= k < 3
  {
    if k == 0 then c.red else if k == 1 then c.green else c.blue
  }

  /** One fixture's writes into the payload. */
  function WriteFixture(buf: seq<byte>, f: Fixture): (r: seq<byte>)
    requires |buf| == PAYLOAD_SIZE
    ensures |r| == PAYLOAD_SIZE
  {
    if f.channel + 2 <= PAYLOAD_SIZE && 1 <= f.channel then
      buf[f.channel - 1 := f.color.red][f.channel := f.color.green][f.channel + 1 := f.color.blue]
    else buf
  }

  /** `ByteArray(512)` filled in by the fixtures of one universe, in order
      (the fold runs from the back so that the last fixture is the last
      write). */
  function Pack(fs: seq<Fixture>): (r: seq<byte>)
    ensures |r| == PAYLOAD_SIZE
  {
    if |fs| == 0 then seq(PAYLOAD_SIZE, _ => 0)
    else WriteFixture(Pack(fs[..|fs| - 1]), fs[|fs| - 1])
  }

  /** A payload byte no fixture covers stays 0, and any other holds the
      matching component of the last fixture that covers it. */
  lemma {:induction false} PackContents(fs: seq<Fixture>, i: int)
    requires 0 <= i < PAYLOAD_SIZE
    ensures (forall j :: 0 <= j < |fs| ==> !Covers(fs[j], i)) ==> Pack(fs)[i] == 0
    ensures forall j :: 0 <= j < |fs| && Covers(fs[j], i) && (forall j' :: j < j' < |fs| ==> !Covers(fs[j'], i)) ==>
              Pack(fs)[i] == Component(fs[j].color, i - (fs[j].channel - 1))
  {
    if forall j :: 0 <= j < |fs| ==> !Covers(fs[j], i) {
      PackUncovered(fs, i);
    }
    forall j | 0 <= j < |fs| && Covers(fs[j], i) && (forall j' :: j < j' < |fs| ==> !Covers(fs[j'], i))
      ensures Pack(fs)[i] == Component(fs[j].color, i - (fs[j].channel - 1))
    {
      PackLastCover(fs, i, j);
    }
  }

  /** A byte no fixture covers keeps the zero of `ByteArray(512)`. */
  lemma {:induction false} PackUncovered(fs: seq<Fixture>, i: int)
    requires 0 <= i < PAYLOAD_SIZE
    requires forall j :: 0 <= j < |fs| ==> !Covers(fs[j], i)
    ensures Pack(fs)[i] == 0
  {
    if |fs| > 0 {
      var init := fs[..|fs| - 1];
      assert forall j :: 0 <= j < |init| ==> init[j] == fs[j];
      PackUncovered(init, i);
      WriteFixtureAt(Pack(init), fs[|fs| - 1], i);
    }
  }

  /** A byte holds the component of the last fixture that covers it. */
  lemma {:induction false} PackLastCover(fs: seq<Fixture>, i: int, j: int)
    requires 0 <= i < PAYLOAD_SIZE && 0 <= j < |fs| && Covers(fs[j], i)
    requires forall j' :: j < j' < |fs| ==> !Covers(fs[j'], i)
    ensures Pack(fs)[i] == Component(fs[j].color, i - (fs[j].channel - 1))
  {
    var init := fs[..|fs| - 1];
    var f := fs[|fs| - 1];
    WriteFixtureAt(Pack(init), f, i);
    if j < |init| {
      assert init[j] == fs[j];
      assert forall j' :: j < j' < |init| ==> init[j'] == fs[j'];
      assert !Covers(f, i);
      PackLastCover(init, i, j);
    }
  }

  lemma PackSnoc(fs: seq<Fixture>, f: Fixture)
    ensures Pack(fs + [f]) == WriteFixture(Pack(fs), f)
  {
    assert (fs + [f])[..|fs|] == fs;
  }

  /** A fixture whose channels do not fit the payload writes nothing. */
  lemma PackSkips(fs: seq<Fixture>, f: Fixture)
    requires !Transmittable(f)
    ensures Pack(fs + [f]) == Pack(fs)
  {
    PackSnoc(fs, f);
  }

  /** Fixtures that share a universe have channel ranges that do not
      overlap. */
  predicate NoOverlap(fs: seq<Fixture>)
  {
    forall i, j :: 0 <= i < j < |fs| && fs[i].universe == fs[j].universe ==>
      fs[i].channel - fs[j].channel >= CHANNELS_PER_FIXTURE || fs[j].channel - fs[i].channel >= CHANNELS_PER_FIXTURE
  }

  /** What WriteFixture leaves at one payload index. */
  lemma WriteFixtureAt(buf: seq<byte>, f: Fixture, i: int)
    requires |buf| == PAYLOAD_SIZE && 0 <= i < PAYLOAD_SIZE
    ensures WriteFixture(buf, f)[i] == if Covers(f, i) then Component(f.color, i - (f.channel - 1)) else buf[i]
  {
  }

  lemma NoOverlapInit(fs: seq<Fixture>)
    requires NoOverlap(fs) && |fs| > 0
    ensures NoOverlap(fs[..|fs| - 1])
  {
    var init := fs[..|fs| - 1];
    forall a, b | 0 <= a < b < |init| && init[a].universe == init[b].universe
      ensures init[a].channel - init[b].channel >= CHANNELS_PER_FIXTURE
              || init[b].channel - init[a].channel >= CHANNELS_PER_FIXTURE
    {
      assert init[a] == fs[a] && init[b] == fs[b];
    }
  }

  /** Without overlaps, every transmittable fixture's colour lands intact
      in its universe's payload, at channels `channel` to `channel + 2`
      (payload indices one lower). */
  lemma {:induction false} PackSlot(fs: seq<Fixture>, j: int, c: int)
    requires NoOverlap(fs)
    requires 0 <= j < |fs| && Transmittable(fs[j]) && 0 <= c < CHANNELS_PER_FIXTURE
    ensures Pack(OfUniverse(fs, fs[j].universe))[fs[j].channel - 1 + c] == Component(fs[j].color, c)
  {
    var u := fs[j].universe;
    var i := fs[j].channel - 1 + c;
    var init := fs[..|fs| - 1];
    var f := fs[|fs| - 1];
    var before := OfUniverse(init, u);
    assert OfUniverse(fs, u) == before + (if f.universe == u then [f] else []);
    if j == |fs| - 1 {
      PackSnoc(before, f);
      WriteFixtureAt(Pack(before), f, i);
    } else {
      assert init[j] == fs[j];
      NoOverlapInit(fs);
      PackSlot(init, j, c);
      if f.universe == u {
        assert fs[j].channel - f.channel >= CHANNELS_PER_FIXTURE || f.channel - fs[j].channel >= CHANNELS_PER_FIXTURE;
        PackSnoc(before, f);
        WriteFixtureAt(Pack(before), f, i);
      } else {
        assert OfUniverse(fs, u) == before;
      }
    }
  }

  // ---------------------------------------------------------------------
  // The source's one-sided channel check

  /** The guard the source writes, `fixture.channel + 2 <= 512`, evaluated
      in Int arithmetic. */
  predicate PackGuardAsWritten(f: Fixture)
  {
    Wrap32(f.channel + 2) <= PAYLOAD_SIZE
  }

  /** A fixture that passes the source's guard but would be written
      outside the 512-byte array. */
  predicate Throws(f: Fixture)
  {
    PackGuardAsWritten(f) && !Transmittable(f)
  }

  /** No fixture of the list makes the payload store throw. */
  predicate StoreSafe(fs: seq<Fixture>)
  {
    forall k :: 0 <= k < |fs| ==> !Throws(fs[k])
  }

  /** The packing loop exactly as written: a channel of 0 or less, or one
      so large that `channel + 2` overflows, passes the guard and the
      array store throws ArrayIndexOutOfBoundsException, reported here as
      the index of the first such fixture. Otherwise it is Pack. */
  function PackAsWritten(fs: seq<Fixture>): (r: Result<seq<byte>, nat>)
    ensures r.Failure? <==> exists j :: 0 <= j < |fs| && Throws(fs[j])
    ensures r.Failure? ==> r.error < |fs| && Throws(fs[r.error])
                           && forall j :: 0 <= j < r.error ==> !Throws(fs[j])
    ensures r.Success? ==> r.value == Pack(fs)
  {
    if |fs| == 0 then Success(seq(PAYLOAD_SIZE, _ => 0))
    else
      var init := fs[..|fs| - 1];
      var f := fs[|fs| - 1];
      assert fs == init + [f];
      assert forall j :: 0 <= j < |init| ==> init[j] == fs[j];
      match PackAsWritten(init)
      case Failure(j) => Failure(j)
      case Success(buf) =>
        if Throws(f) then Failure(|fs| - 1)
        else
          PackSnoc(init, f);
          Success(WriteFixture(buf, f))
  }

  /** Two inputs the guard lets through: a fixture at channel 0 (index -1)
      and one at channel 2^31 - 2, where `channel + 2` wraps to a negative
      Int. Pack skips both and sends an all-zero payload. */
  lemma PackGuardCounterexamples()
    ensures var f := NewFixture(0, 0, 0, 1, 0);
            PackAsWritten([f]) == Failure(0) && Pack([f]) == seq(PAYLOAD_SIZE, _ => 0)
    ensures var f := NewFixture(0, 0, 0, 1, I32_MAX - 1);
            PackAsWritten([f]) == Failure(0) && Pack([f]) == seq(PAYLOAD_SIZE, _ => 0)
  {
    var f := NewFixture(0, 0, 0, 1, I32_MAX - 1);
    assert Wrap32(f.channel + 2) == -0x8000_0000;
    PackSnoc([], f);
    PackSnoc([], NewFixture(0, 0, 0, 1, 0));
  }

  // ---------------------------------------------------------------------
  // Grid maps

  /** The fixtures carry createGrid's addresses, whatever their colours. */
  predicate GridAddressed(startUniverse: i32, fs: seq<Fixture>)
  {
    forall k :: 0 <= k < |fs| ==>
      fs[k].universe == GridUniverse(startUniverse, k) && fs[k].channel == GridChannel(k)
  }

  /** The largest grid whose universe counter has not gone round. */
  const MAX_GRID: nat := FIXTURES_PER_UNIVERSE * 0x1_0000_0000

  lemma GridNoOverlap(startUniverse: i32, fs: seq<Fixture>)
    requires GridAddressed(startUniverse, fs) && |fs| <= MAX_GRID
    ensures NoOverlap(fs)
  {
    forall i, j | 0 <= i < j < |fs| && fs[i].universe == fs[j].universe
      ensures fs[i].channel - fs[j].channel >= CHANNELS_PER_FIXTURE
              || fs[j].channel - fs[i].channel >= CHANNELS_PER_FIXTURE
    {
      GridAddressesDistinct(startUniverse, i, j);
    }
  }

  lemma GridTransmittable(startUniverse: i32, fs: seq<Fixture>)
    requires GridAddressed(startUniverse, fs)
    ensures forall k :: 0 <= k < |fs| ==> Transmittable(fs[k]) && !Throws(fs[k])
  {
    forall k | 0 <= k < |fs| ensures Transmittable(fs[k]) && !Throws(fs[k]) {
      GridChannelRange(k);
    }
  }

  /** On a grid every fixture's colour reaches its universe's payload. */
  lemma GridPayloads(startUniverse: i32, fs: seq<Fixture>, k: int, c: int)
    requires GridAddressed(startUniverse, fs) && |fs| <= MAX_GRID
    requires 0 <= k < |fs| && 0 <= c < CHANNELS_PER_FIXTURE
    ensures Pack(OfUniverse(fs, fs[k].universe))[fs[k].channel - 1 + c] == Component(fs[k].color, c)
  {
    GridNoOverlap(startUniverse, fs);
    GridChannelRange(k);
    PackSlot(fs, k, c);
  }

  /** On a grid the as-written packing never throws. */
  lemma GridPacksAsWritten(startUniverse: i32, fs: seq<Fixture>, u: i32)
    requires GridAddressed(startUniverse, fs)
    ensures PackAsWritten(OfUniverse(fs, u)) == Success(Pack(OfUniverse(fs, u)))
  {
    GridTransmittable(startUniverse, fs);
    var g := OfUniverse(fs, u);
    OfUniverseMembers(fs, u);
    forall i | 0 <= i < |g| ensures !Throws(g[i]) {
      var k :| 0 <= k < |fs| && fs[k] == g[i];
    }
  }

  /** The members of a universe's group are fixtures of the list. */
  lemma {:induction false} OfUniverseMembers(fs: seq<Fixture>, u: i32)
    ensures forall i :: 0 <= i < |OfUniverse(fs, u)| ==>
              OfUniverse(fs, u)[i] in fs && OfUniverse(fs, u)[i].universe == u
  {
    if |fs| > 0 {
      var init := fs[..|fs| - 1];
      OfUniverseMembers(init, u);
      assert forall g :: g in init ==> g in fs;
    }
  }

  // ---------------------------------------------------------------------
  // sendData

  /** `sendData()`'s packets, in dispatch order: one V1 packet with the
      default header per universe group, carrying that group's payload. */
  function Packets(fs: seq<Fixture>): (packets: seq<Packet>)
    ensures |packets| == |UniversesOf(fs)|
  {
    GroupingCount(fs);
    PacketsOf(GroupBy(fs))
  }

  /** `forEach { (universe, fixtures) -> ... }` over the groups. */
  function PacketsOf(gs: seq<Group>): (packets: seq<Packet>)
    ensures |packets| == |gs|
  {
    if |gs| == 0 then []
    else [DefaultV1(gs[0].universe, Pack(gs[0].members))] + PacketsOf(gs[1..])
  }

  lemma {:induction false} PacketsOfGroups(gs: seq<Group>)
    ensures forall i :: 0 <= i < |gs| ==> PacketsOf(gs)[i] == DefaultV1(gs[i].universe, Pack(gs[i].members))
  {
    if |gs| > 0 {
      PacketsOfGroups(gs[1..]);
    }
  }

  /** Each packet carries a universe the fixtures use, in the default V1
      header, with the payload packed from exactly that universe's
      fixtures. */
  lemma PacketsPerUniverse(fs: seq<Fixture>)
    ensures forall i :: 0 <= i < |Packets(fs)| ==>
              && Packets(fs)[i].universe in UniversesOf(fs)
              && Packets(fs)[i] == DefaultV1(Packets(fs)[i].universe, Pack(OfUniverse(fs, Packets(fs)[i].universe)))
  {
    PacketsOfGroups(GroupBy(fs));
  }

  /** Every universe the fixtures use gets a packet, and only one. */
  lemma PacketsCoverUniverses(fs: seq<Fixture>)
    ensures forall u :: u in UniversesOf(fs) ==> exists i :: 0 <= i < |Packets(fs)| && Packets(fs)[i].universe == u
    ensures forall i, j :: 0 <= i < j < |Packets(fs)| ==> Packets(fs)[i].universe != Packets(fs)[j].universe
  {
    var gs := GroupBy(fs);
    var ps := Packets(fs);
    PacketsOfGroups(gs);
    forall u | u in UniversesOf(fs) ensures exists i :: 0 <= i < |ps| && ps[i].universe == u {
      assert u in Keys(gs);
      var i :| 0 <= i < |gs| && gs[i].universe == u;
      assert ps[i].universe == u;
    }
  }

  /** Packets go out in the order each universe first appears. */
  lemma PacketsOrdered(fs: seq<Fixture>)
    ensures forall i :: 0 <= i < |Packets(fs)| ==> Packets(fs)[i].universe in UniversesOf(fs)
    ensures forall i, j :: 0 <= i < j < |Packets(fs)| ==>
              FirstSeen(fs, Packets(fs)[i].universe) < FirstSeen(fs, Packets(fs)[j].universe)
  {
    PacketsOfGroups(GroupBy(fs));
  }

  /** `KinetSender.sendPacket`: the encoded packet joins the outbox. Socket
      creation, DNS and swallowed errors are not modelled. */
  function SendPacket(outbox: seq<seq<byte>>, p: Packet): (r: seq<seq<byte>>)
    ensures |r| == |outbox| + 1 && r[|outbox|] == p.ToBytes()
    ensures forall i :: 0 <= i < |outbox| ==> r[i] == outbox[i]
  {
    outbox + [p.ToBytes()]
  }

  /** Send every packet in order: what was in the outbox stays, and the
      datagrams follow in packet order. */
  function SendAll(outbox: seq<seq<byte>>, packets: seq<Packet>): (r: seq<seq<byte>>)
    ensures |r| == |outbox| + |packets|
    ensures forall i :: 0 <= i < |outbox| ==> r[i] == outbox[i]
    ensures forall i :: |outbox| <= i < |r| ==> r[i] == packets[i - |outbox|].ToBytes()
    decreases |packets|
  {
    if |packets| == 0 then outbox
    else
      var next := SendPacket(outbox, packets[0]);
      var r := SendAll(next, packets[1..]);
      forall i | |next| <= i < |r| ensures r[i] == packets[i - |outbox|].ToBytes() {
        assert packets[1..][i - |next|] == packets[i - |outbox|];
      }
      r
  }

  // ---------------------------------------------------------------------
  // One tick

  datatype TickResult = TickResult(pixelMap: PixelMap, outbox: seq<seq<byte>>)

  /** The datagram of one universe's packet: 536 bytes, the KiNET magic,
      the universe in the header, the payload after it. */
  predicate IsUniverseDatagram(fs: seq<Fixture>, d: seq<byte>)
  {
    && |d| == V1_HEADER + PAYLOAD_SIZE
    && d[..4] == MagicBytes
    && S32(U32(d[20..24])) in UniversesOf(fs)
    && d[24..] == Pack(OfUniverse(fs, S32(U32(d[20..24]))))
  }

  lemma UniverseDatagram(fs: seq<Fixture>, u: i32)
    requires u in UniversesOf(fs)
    ensures IsUniverseDatagram(fs, DefaultV1(u, Pack(OfUniverse(fs, u))).ToBytes())
  {
    var b := DefaultV1(u, Pack(OfUniverse(fs, u))).ToBytes();
    DefaultV1Bytes(u, Pack(OfUniverse(fs, u)));
    assert b[..4] == b[..8][..4];
  }

  lemma PacketDatagrams(fs: seq<Fixture>, i: int)
    requires 0 <= i < |Packets(fs)|
    ensures IsUniverseDatagram(fs, Packets(fs)[i].ToBytes())
  {
    PacketsPerUniverse(fs);
    UniverseDatagram(fs, Packets(fs)[i].universe);
  }

  /** Sending a tick's packets appends one well-formed datagram per
      universe. */
  lemma SentDatagrams(fs: seq<Fixture>, outbox: seq<seq<byte>>)
    ensures forall i :: |outbox| <= i < |SendAll(outbox, Packets(fs))| ==>
              IsUniverseDatagram(fs, SendAll(outbox, Packets(fs))[i])
  {
    var packets := Packets(fs);
    forall j | 0 <= j < |packets| ensures IsUniverseDatagram(fs, packets[j].ToBytes()) {
      PacketDatagrams(fs, j);
    }
    SendAllKeeps(fs, outbox, packets);
  }

  lemma SendAllKeeps(fs: seq<Fixture>, outbox: seq<seq<byte>>, packets: seq<Packet>)
    requires forall j :: 0 <= j < |packets| ==> IsUniverseDatagram(fs, packets[j].ToBytes())
    ensures forall i :: |outbox| <= i < |SendAll(outbox, packets)| ==>
              IsUniverseDatagram(fs, SendAll(outbox, packets)[i])
  {
    var out := SendAll(outbox, packets);
    forall i | |outbox| <= i < |out| ensures IsUniverseDatagram(fs, out[i]) {
      var j := i - |outbox|;
      assert out[i] == packets[j].ToBytes();
    }
  }

  /** The universe a datagram's V1 header names. */
  function HeaderUniverse(d: seq<byte>): i32
    requires |d| >= V1_HEADER
  {
    S32(U32(d[20..24]))
  }

  /** The universe field of a V1 encoding reads back as the packet's
      universe. */
  lemma UniverseField(p: Packet)
    requires p.V1?
    ensures |p.ToBytes()| >= V1_HEADER && HeaderUniverse(p.ToBytes()) == p.universe
  {
    V1Layout(p);
    LE32RoundTrip(p.universe);
  }

  /** Datagram `d` goes out before datagram `e`: both name universes of
      the fixtures, and `d`'s universe appears first in the fixture list. */
  predicate SentBefore(fs: seq<Fixture>, d: seq<byte>, e: seq<byte>)
  {
    && |d| >= V1_HEADER && |e| >= V1_HEADER
    && HeaderUniverse(d) in UniversesOf(fs) && HeaderUniverse(e) in UniversesOf(fs)
    && FirstSeen(fs, HeaderUniverse(d)) < FirstSeen(fs, HeaderUniverse(e))
  }

  /** A tick's datagrams name pairwise different universes, in the order
      each universe first appears among the fixtures. */
  lemma SentInOrder(fs: seq<Fixture>, outbox: seq<seq<byte>>)
    ensures var r := SendAll(outbox, Packets(fs));
            forall i, j :: |outbox| <= i < j < |r| ==>
              SentBefore(fs, r[i], r[j]) && r[i][20..24] != r[j][20..24]
  {
    var ps := Packets(fs);
    var r := SendAll(outbox, ps);
    PacketsPerUniverse(fs);
    PacketsOrdered(fs);
    forall i, j | |outbox| <= i < j < |r|
      ensures SentBefore(fs, r[i], r[j]) && r[i][20..24] != r[j][20..24]
    {
      UniverseField(ps[i - |outbox|]);
      UniverseField(ps[j - |outbox|]);
    }
  }

  /** One iteration of the loop body: `updatePixels(time)` then
      `sendData()`, with both exception paths corrected (TickAsWritten
      is the loop body as written). Time advance and the delay are not
      modelled. */
  function Tick(m: PixelMap, frame: Option<Bitmap>, strategy: Strategy,
                t: real, outbox: seq<seq<byte>>): (r: TickResult)
    ensures r.pixelMap == UpdatePixels(m, frame, strategy, t)
    ensures r.pixelMap.width == m.width && r.pixelMap.height == m.height
    ensures SameLayout(r.pixelMap.fixtures, m.fixtures)
    ensures |r.outbox| == |outbox| + |UniversesOf(m.fixtures)|
    ensures r.outbox[..|outbox|] == outbox
    ensures forall i :: |outbox| <= i < |r.outbox| ==> IsUniverseDatagram(r.pixelMap.fixtures, r.outbox[i])
  {
    var m' := UpdatePixels(m, frame, strategy, t);
    LayoutUniverses(m'.fixtures, m.fixtures);
    SentDatagrams(m'.fixtures, outbox);
    TickResult(m', SendAll(outbox, Packets(m'.fixtures)))
  }

  /** A tick sends no universe twice, and sends the universes in the
      order they first appear among the engine's fixtures. */
  lemma TickInOrder(m: PixelMap, frame: Option<Bitmap>, strategy: Strategy,
                    t: real, outbox: seq<seq<byte>>)
    ensures var r := Tick(m, frame, strategy, t, outbox);
            forall i, j :: |outbox| <= i < j < |r.outbox| ==>
              && SentBefore(m.fixtures, r.outbox[i], r.outbox[j])
              && r.outbox[i][20..24] != r.outbox[j][20..24]
  {
    var fs := UpdatePixels(m, frame, strategy, t).fixtures;
    var r := Tick(m, frame, strategy, t, outbox);
    assert r.pixelMap.fixtures == fs;
    assert r.outbox == SendAll(outbox, Packets(fs));
    SentInOrder(fs, outbox);
    LayoutUniverses(fs, m.fixtures);
    forall i, j | |outbox| <= i < j < |r.outbox|
      ensures SentBefore(m.fixtures, r.outbox[i], r.outbox[j])
    {
      assert SentBefore(fs, r.outbox[i], r.outbox[j]);
    }
  }

  // ---------------------------------------------------------------------
  // One tick as written

  /** Where a tick of the source throws: `getPixel` at fixture `fixture`
      of the map, or the payload store at member `member` of the
      `group`-th universe group. Either exception ends the loop
      coroutine. */
  datatype Fault = SampleFault(fixture: nat) | StoreFault(group: nat, member: nat)

  /** What `sendData()` has handed to the sender, in order, when it
      returns or throws. */
  datatype Sent = Sent(packets: seq<Packet>, fault: Option<Fault>)

  /** `sendData()` as written, over the universe groups in order: a group
      whose packing throws ends it, after the packets of the groups before
      it have been handed over. SendDataFault says where it stops. */
  function SendDataAsWritten(gs: seq<Group>): (r: Sent)
    ensures r.fault.None? <==> forall g :: 0 <= g < |gs| ==> PackAsWritten(gs[g].members).Success?
    ensures r.fault.None? ==> r.packets == PacketsOf(gs)
    ensures r.fault.Some? ==> r.fault.value.StoreFault?
  {
    if |gs| == 0 then Sent([], None)
    else
      match PackAsWritten(gs[0].members)
      case Failure(j) => Sent([], Some(StoreFault(0, j)))
      case Success(payload) =>
        var rest := SendDataAsWritten(gs[1..]);
        assert forall g :: 1 <= g < |gs| ==> gs[g] == gs[1..][g - 1];
        var packets := [DefaultV1(gs[0].universe, payload)] + rest.packets;
        match rest.fault
        case None => Sent(packets, None)
        case Some(f) => Sent(packets, Some(StoreFault(f.group + 1, f.member)))
  }

  /** A send that faults stops at the first group whose packing throws,
      naming the fixture that threw, after handing over exactly the
      packets of the groups before it. */
  lemma SendDataFault(gs: seq<Group>)
    ensures var r := SendDataAsWritten(gs);
            r.fault.Some? ==>
              && r.fault.value.StoreFault? && r.fault.value.group < |gs|
              && (forall g :: 0 <= g < r.fault.value.group ==> PackAsWritten(gs[g].members).Success?)
              && PackAsWritten(gs[r.fault.value.group].members) == Failure(r.fault.value.member)
              && r.packets == PacketsOf(gs[..r.fault.value.group])
  {
    FaultGroup(gs);
    FaultPackets(gs);
  }

  lemma {:induction false} FaultGroup(gs: seq<Group>)
    ensures var r := SendDataAsWritten(gs);
            r.fault.Some? ==>
              && r.fault.value.group < |gs|
              && (forall g :: 0 <= g < r.fault.value.group ==> PackAsWritten(gs[g].members).Success?)
              && PackAsWritten(gs[r.fault.value.group].members) == Failure(r.fault.value.member)
  {
    if |gs| > 0 && PackAsWritten(gs[0].members).Success? {
      var rest := SendDataAsWritten(gs[1..]);
      FaultGroup(gs[1..]);
      if rest.fault.Some? {
        var f := rest.fault.value;
        assert SendDataAsWritten(gs).fault == Some(StoreFault(f.group + 1, f.member));
        PacksShift(gs, f.group);
      }
    }
  }

  /** The first group packs and the `n` after it do, so the first `n + 1`
      groups pack and group `n + 1` is the one after them. */
  lemma PacksShift(gs: seq<Group>, n: nat)
    requires n < |gs| - 1 && PackAsWritten(gs[0].members).Success?
    requires forall g :: 0 <= g < n ==> PackAsWritten(gs[1..][g].members).Success?
    ensures forall g :: 0 <= g < n + 1 ==> PackAsWritten(gs[g].members).Success?
    ensures gs[n + 1] == gs[1..][n]
  {
    forall g | 0 < g < n + 1 ensures PackAsWritten(gs[g].members).Success? {
      assert gs[g] == gs[1..][g - 1];
    }
  }

  lemma {:induction false} FaultPackets(gs: seq<Group>)
    ensures var r := SendDataAsWritten(gs);
            r.fault.Some? ==> r.fault.value.group <= |gs| && r.packets == PacketsOf(gs[..r.fault.value.group])
  {
    var r := SendDataAsWritten(gs);
    if |gs| > 0 && r.fault.Some? && PackAsWritten(gs[0].members).Success? {
      var g := SendDataAsWritten(gs[1..]).fault.value.group;
      FaultPackets(gs[1..]);
      assert gs[..g + 1][1..] == gs[1..][..g];
      assert gs[..g + 1][0] == gs[0];
    } else if |gs| > 0 && r.fault.Some? {
      assert gs[..0] == [];
    }
  }

  /** The packets of the first `n` groups are the first `n` packets. */
  lemma PacketsOfPrefix(gs: seq<Group>, n: nat)
    requires n <= |gs|
    ensures PacketsOf(gs[..n]) == PacketsOf(gs)[..n]
  {
    PacketsOfGroups(gs);
    PacketsOfGroups(gs[..n]);
  }

  /** Sending the first `n` packets leaves the outbox a prefix of sending
      all of them. */
  lemma SendAllPrefix(outbox: seq<seq<byte>>, ps: seq<Packet>, n: nat)
    requires n <= |ps|
    ensures SendAll(outbox, ps[..n]) == SendAll(outbox, ps)[..|outbox| + n]
  {
    var a, b := SendAll(outbox, ps[..n]), SendAll(outbox, ps)[..|outbox| + n];
    forall i | 0 <= i < |a| ensures a[i] == b[i] {
      if |outbox| <= i {
        assert ps[..n][i - |outbox|] == ps[i - |outbox|];
      }
    }
    Extensional(a, b);
  }

  /** Sequences that agree at every index are equal. Kept apart from the
      outboxes so that the solver does not compare datagrams. */
  lemma Extensional<T>(a: seq<T>, b: seq<T>)
    requires |a| == |b| && forall i :: 0 <= i < |a| ==> a[i] == b[i]
    ensures a == b
  {
  }

  /** A fixture belongs to its own universe's group. */
  lemma {:induction false} OfUniverseContains(fs: seq<Fixture>, k: int)
    requires 0 <= k < |fs|
    ensures fs[k] in OfUniverse(fs, fs[k].universe)
  {
    var init := fs[..|fs| - 1];
    if k < |fs| - 1 {
      OfUniverseContains(init, k);
      assert init[k] == fs[k];
    }
  }

  /** A universe whose packing throws has a fixture that throws. */
  lemma FailingGroupHasThrower(fs: seq<Fixture>, u: i32)
    requires PackAsWritten(OfUniverse(fs, u)).Failure?
    ensures exists k :: 0 <= k < |fs| && Throws(fs[k])
  {
    var members := OfUniverse(fs, u);
    var j :| 0 <= j < |members| && Throws(members[j]);
    OfUniverseMembers(fs, u);
    assert members[j] in fs;
  }

  /** A fixture that throws makes its universe's packing throw. */
  lemma ThrowerFailsGroup(fs: seq<Fixture>, k: int)
    requires 0 <= k < |fs| && Throws(fs[k])
    ensures PackAsWritten(OfUniverse(fs, fs[k].universe)).Failure?
  {
    OfUniverseContains(fs, k);
    var members := OfUniverse(fs, fs[k].universe);
    var j :| 0 <= j < |members| && members[j] == fs[k];
  }

  /** For any grouping that matches and covers the fixtures, some group's
      packing throws exactly when some fixture throws. */
  lemma GroupingThrows(fs: seq<Fixture>, gs: seq<Group>)
    requires GroupsMatch(fs, gs) && GroupsCover(fs, gs)
    ensures (exists g :: 0 <= g < |gs| && PackAsWritten(gs[g].members).Failure?)
            <==> exists k :: 0 <= k < |fs| && Throws(fs[k])
  {
    if exists g :: 0 <= g < |gs| && PackAsWritten(gs[g].members).Failure? {
      var g :| 0 <= g < |gs| && PackAsWritten(gs[g].members).Failure?;
      FailingGroupHasThrower(fs, gs[g].universe);
    }
    if exists k :: 0 <= k < |fs| && Throws(fs[k]) {
      var k :| 0 <= k < |fs| && Throws(fs[k]);
      assert fs[k].universe in UniversesOf(fs);
      var g :| 0 <= g < |gs| && gs[g].universe == fs[k].universe;
      ThrowerFailsGroup(fs, k);
      assert PackAsWritten(gs[g].members).Failure?;
    }
  }

  /** A faulting send over any groups has handed over a proper prefix of
      the packets of every group. */
  lemma SentPrefix(gs: seq<Group>)
    ensures var s := SendDataAsWritten(gs);
            s.fault.Some? ==> |s.packets| < |gs| && s.packets == PacketsOf(gs)[..|s.packets|]
  {
    SendDataFault(gs);
    var s := SendDataAsWritten(gs);
    if s.fault.Some? {
      PacketsOfPrefix(gs, s.fault.value.group);
    }
  }

  /** A send over a grouping of the fixtures faults exactly when some
      fixture throws. */
  lemma SentFault(fs: seq<Fixture>, gs: seq<Group>)
    requires GroupsMatch(fs, gs) && GroupsCover(fs, gs)
    ensures SendDataAsWritten(gs).fault.None? <==> StoreSafe(fs)
  {
    GroupingThrows(fs, gs);
  }

  /** `sendData()` as written on an already coloured map. */
  function SendDataOf(m: PixelMap): (r: Sent)
    ensures r.fault.None? <==> StoreSafe(m.fixtures)
    ensures r.fault.None? ==> r.packets == Packets(m.fixtures)
    ensures r.fault.Some? ==>
              && |r.packets| < |UniversesOf(m.fixtures)|
              && r.packets == Packets(m.fixtures)[..|r.packets|]
  {
    var gs := GroupBy(m.fixtures);
    GroupingCount(m.fixtures);
    SentFault(m.fixtures, gs);
    SentPrefix(gs);
    SendDataAsWritten(gs)
  }

  /** Sampling a prefix of the fixtures is the prefix of sampling them
      all. */
  lemma {:induction false} SamplePrefix(b: Bitmap, m: PixelMap, fs: seq<Fixture>, n: nat)
    requires n <= |fs|
    ensures Sample(b, m, fs[..n]) == Sample(b, m, fs)[..n]
  {
    if n > 0 {
      assert fs[..n][1..] == fs[1..][..n - 1];
      SamplePrefix(b, m, fs[1..], n - 1);
    }
  }

  /** The outcome of one loop iteration as written. */
  datatype TickOutcome = TickOutcome(pixelMap: PixelMap, outbox: seq<seq<byte>>, fault: Option<Fault>)

  /** Neither `getPixel` nor the payload store throws during the tick. */
  predicate FaultFree(m: PixelMap, frame: Option<Bitmap>, strategy: Strategy, t: real)
  {
    && (frame.Some? ==> forall i :: 0 <= i < |m.fixtures| ==> !SampleThrows(frame.value, m.fixtures[i]))
    && StoreSafe(UpdatePixels(m, frame, strategy, t).fixtures)
  }

  /** One iteration of the loop body exactly as written. It agrees with
      Tick unless the sampler or the payload store throws. On a fault, the
      datagrams sent are a proper prefix of what Tick sends; a sampler
      fault leaves the fixtures before the faulting one recoloured and the
      rest untouched. */
  function TickAsWritten(m: PixelMap, frame: Option<Bitmap>, strategy: Strategy,
                         t: real, outbox: seq<seq<byte>>): (r: TickOutcome)
    ensures r.fault.None? <==> FaultFree(m, frame, strategy, t)
    ensures r.fault.None? ==> TickResult(r.pixelMap, r.outbox) == Tick(m, frame, strategy, t, outbox)
    ensures r.fault.Some? ==>
              var full := Tick(m, frame, strategy, t, outbox).outbox;
              |outbox| <= |r.outbox| < |full| && r.outbox == full[..|r.outbox|]
    ensures r.fault.Some? && r.fault.value.StoreFault? ==> r.pixelMap == UpdatePixels(m, frame, strategy, t)
    ensures r.fault.Some? && r.fault.value.SampleFault? ==>
              var i := r.fault.value.fixture;
              && frame.Some? && i < |m.fixtures| && SampleThrows(frame.value, m.fixtures[i])
              && r.outbox == outbox
              && r.pixelMap.fixtures == Tick(m, frame, strategy, t, outbox).pixelMap.fixtures[..i] + m.fixtures[i..]
  {
    if frame.Some? && SampleAsWritten(frame.value, m, m.fixtures).Failure? then
      var i := SampleAsWritten(frame.value, m, m.fixtures).error;
      SampleFaultTick(frame.value, m, strategy, t, outbox, i);
      TickOutcome(m.(fixtures := Sample(frame.value, m, m.fixtures[..i]) + m.fixtures[i..]), outbox, Some(SampleFault(i)))
    else
      // the sampler completed, so the map is the one UpdatePixels computes
      var m' := UpdatePixels(m, frame, strategy, t);
      SendDataTick(m, frame, strategy, t, outbox);
      var s := SendDataOf(m');
      TickOutcome(m', SendAll(outbox, s.packets), s.fault)
  }

  /** A sampler fault at fixture `i`: the tick is not fault-free, Tick
      sends at least one datagram, and the fixtures before `i` are the
      ones Tick recolours. */
  lemma SampleFaultTick(b: Bitmap, m: PixelMap, strategy: Strategy,
                        t: real, outbox: seq<seq<byte>>, i: nat)
    requires SampleAsWritten(b, m, m.fixtures) == Failure(i)
    ensures var full := Tick(m, Some(b), strategy, t, outbox);
            && i < |m.fixtures| && |outbox| < |full.outbox| && full.outbox[..|outbox|] == outbox
            && Sample(b, m, m.fixtures[..i]) == full.pixelMap.fixtures[..i]
            && !FaultFree(m, Some(b), strategy, t)
  {
    SamplePrefix(b, m, m.fixtures, i);
    var full := Sample(b, m, m.fixtures);
    assert full[0].universe in UniversesOf(full);
  }

  /** Without a sampler fault, the tick as written is SendData on the map
      UpdatePixels computes, and it is fault-free exactly when the store
      does not throw. */
  lemma SendDataTick(m: PixelMap, frame: Option<Bitmap>, strategy: Strategy,
                     t: real, outbox: seq<seq<byte>>)
    requires frame.Some? ==> SampleAsWritten(frame.value, m, m.fixtures).Success?
    ensures var m' := UpdatePixels(m, frame, strategy, t);
            var s := SendDataOf(m');
            var sent := SendAll(outbox, s.packets);
            var full := Tick(m, frame, strategy, t, outbox).outbox;
            && (s.fault.None? <==> FaultFree(m, frame, strategy, t))
            && (s.fault.None? ==> sent == full)
            && (s.fault.Some? ==> |outbox| <= |sent| < |full| && sent == full[..|sent|])
  {
    var m' := UpdatePixels(m, frame, strategy, t);
    assert Tick(m, frame, strategy, t, outbox).outbox == SendAll(outbox, Packets(m'.fixtures));
    SentOfMap(m', outbox);
    NoSampleFault(m, frame, strategy, t);
  }

  /** What a send as written leaves in the outbox against what sending
      every universe's packet does. */
  lemma SentOfMap(m: PixelMap, outbox: seq<seq<byte>>)
    ensures var s := SendDataOf(m);
            var sent := SendAll(outbox, s.packets);
            var full := SendAll(outbox, Packets(m.fixtures));
            && (s.fault.None? ==> sent == full)
            && (s.fault.Some? ==> |outbox| <= |sent| < |full| && sent == full[..|sent|])
  {
    var s := SendDataOf(m);
    if s.fault.Some? {
      SentSome(outbox, Packets(m.fixtures), s.packets);
    }
  }

  /** Sending a proper prefix of some packets leaves a proper prefix of
      the outbox sending all of them leaves. */
  lemma SentSome(outbox: seq<seq<byte>>, ps: seq<Packet>, some: seq<Packet>)
    requires |some| < |ps| && some == ps[..|some|]
    ensures var sent := SendAll(outbox, some);
            var full := SendAll(outbox, ps);
            |outbox| <= |sent| < |full| && sent == full[..|sent|]
  {
    SentSomeLengths(outbox, ps, some);
    SentSomePrefix(outbox, ps, some);
  }

  lemma SentSomeLengths(outbox: seq<seq<byte>>, ps: seq<Packet>, some: seq<Packet>)
    requires |some| < |ps|
    ensures |outbox| <= |SendAll(outbox, some)| < |SendAll(outbox, ps)|
  {
  }

  lemma SentSomePrefix(outbox: seq<seq<byte>>, ps: seq<Packet>, some: seq<Packet>)
    requires |some| < |ps| && some == ps[..|some|]
    ensures SendAll(outbox, some) == SendAll(outbox, ps)[..|SendAll(outbox, some)|]
  {
    SendAllPrefix(outbox, ps, |some|);
  }

  /** A prefix of `b` is the prefix of its own length. Kept apart from
      the outboxes so that the solver does not compare datagrams. */
  lemma PrefixAt<T>(a: seq<T>, b: seq<T>, k: nat)
    requires k <= |b| && a == b[..k]
    ensures a == b[..|a|]
  {
  }

  /** Without a sampler fault, the only faults left are the store's. */
  lemma NoSampleFault(m: PixelMap, frame: Option<Bitmap>, strategy: Strategy, t: real)
    requires frame.Some? ==> SampleAsWritten(frame.value, m, m.fixtures).Success?
    ensures SendDataOf(UpdatePixels(m, frame, strategy, t)).fault.None? <==> FaultFree(m, frame, strategy, t)
  {
    if frame.Some? {
      SamplerCompletes(frame.value, m);
    }
  }

  lemma SamplerCompletes(b: Bitmap, m: PixelMap)
    requires SampleAsWritten(b, m, m.fixtures).Success?
    ensures forall i :: 0 <= i < |m.fixtures| ==> !SampleThrows(b, m.fixtures[i])
  {
  }

  // ---------------------------------------------------------------------
  // End to end

  /** SolidColorEffect as the engine's strategy: it only recolours. */
  function SolidStrategy(effect: SolidColorEffect.SolidColor): Strategy
  {
    (pm, tt) => SolidColorEffect.Update(effect, pm, tt)
  }

  /** A solid-colour tick on a grid, with no frame source: for every
      fixture, the tick sends a datagram whose header names the fixture's
      universe and whose payload holds the effect's colour at the fixture's
      three channels. */
  lemma SolidTickOnGrid(m: PixelMap, startUniverse: i32, effect: SolidColorEffect.SolidColor,
                        t: real, outbox: seq<seq<byte>>, k: int, c: int)
    requires GridAddressed(startUniverse, m.fixtures) && |m.fixtures| <= MAX_GRID
    requires 0 <= k < |m.fixtures| && 0 <= c < CHANNELS_PER_FIXTURE
    ensures var r := Tick(m, None, SolidStrategy(effect), t, outbox);
            exists i :: |outbox| <= i < |r.outbox|
                        && S32(U32(r.outbox[i][20..24])) == m.fixtures[k].universe
                        && r.outbox[i][V1_HEADER + m.fixtures[k].channel - 1 + c] == Component(effect.color, c)
  {
    var r := Tick(m, None, SolidStrategy(effect), t, outbox);
    var fs := r.pixelMap.fixtures;
    assert fs == SolidColorEffect.Paint(m.fixtures, effect.color);
    assert SameAddress(fs[k], m.fixtures[k]) && fs[k].color == effect.color;
    assert GridAddressed(startUniverse, fs) by {
      forall x | 0 <= x < |fs| ensures fs[x].universe == GridUniverse(startUniverse, x) && fs[x].channel == GridChannel(x) {
        assert SameAddress(fs[x], m.fixtures[x]);
      }
    }
    GridPayloads(startUniverse, fs, k, c);
    var u := fs[k].universe;
    var data := Pack(OfUniverse(fs, u));
    var packets := Packets(fs);
    assert u in UniversesOf(fs);
    PacketsCoverUniverses(fs);
    var j :| 0 <= j < |packets| && packets[j].universe == u;
    PacketsPerUniverse(fs);
    assert packets[j] == DefaultV1(u, data);
    var d := DefaultV1(u, data).ToBytes();
    DefaultV1Bytes(u, data);
    assert r.outbox[|outbox| + j] == d;
    assert d[V1_HEADER + fs[k].channel - 1 + c] == data[fs[k].channel - 1 + c];
  }
}
