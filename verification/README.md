# kinet-player core, modelled in Dafny

kinet-player is an Android app that drives LED fixtures over KiNET. A
pixel map places each fixture (one RGB pixel) on a grid and gives it a DMX
address (universe, start channel). The map comes either from a show
manifest or from a generated rectangular grid. Once started, an effect
engine loops. On each tick it colours every fixture, either from the
current video frame or from an effect strategy. It then groups the fixtures
by universe, packs each universe's colours into a 512-byte DMX payload,
wraps the payload in a KiNET V1 packet and hands the packet to the UDP
sender.

This project models that core as pure functions over immutable values:

| file | module | models |
|---|---|---|
| numeric.dfy | `Numeric` | Kotlin `Int`/`Short`/`Byte` as subset types, two's-complement wrap-around, little-endian field encoding (`ByteBuffer` in `LITTLE_ENDIAN` order) and its inverse |
| results.dfy | `Results` | `Option` and `Result` |
| kinet_packet.dfy | `KinetPacket` | `KinetV1Packet`/`KinetV2Packet`: constructor defaults, `toBytes`, `equals`; a decoder per variant as the encoder's partner |
| fixture.dfy | `Fixtures` | `Fixture` and its colour |
| show_models.dfy | `ShowModels` | the manifest fields `fromManifest` reads |
| pixel_map.dfy | `PixelMaps` | `PixelMap`, `fromManifest`, `createGrid` (a method with loops) |
| bitmap_sampler.dfy | `BitmapSampler` | `BitmapSampler.sample`, plus the bounds check as written |
| solid_color_effect.dfy | `SolidColorEffect` | `SolidColorEffect.update` |
| effect_engine.dfy | `EffectEngine` | `start`/`stop`, `updatePixels`, `sendData` (grouping, packing, V1 packets) and `KinetSender.sendPacket` as an append to an outbox of datagrams |

Modelling choices:

- Mutation in place becomes a new value. The source colours `Fixture`
  objects in place (`fixture.color = …`). Here the sampler and the effect
  return a new fixture list that has the same layout.
- A tick is one function. `Tick` does one loop iteration: `updatePixels`,
  then `sendData`, with the two guards corrected (see "## Findings").
  `TickAsWritten` is the same iteration with the guards as written: it
  reports where `getPixel` or the payload store would throw, and keeps
  what was sent before that point. The network becomes a list of
  datagrams that the tick appends to.
- Colours are exact 8-bit values. Compose's float components are modelled
  as the 8-bit values they encode, so `(c * 255).toInt().toByte()` is that
  byte.
- Integer widths are explicit. The packet fields have the widths of their
  Kotlin types. `Int` counters that can overflow wrap explicitly: the
  grid's universe and id counters, `maxX + 1`, and `channel + 2` in the
  payload guard.

## Model

Source paths are relative to the repository root.

| member | source | states |
|---|---|---|
| Numeric.Wrap32 | app/src/main/java/com/example/kinetplayer/model/PixelMap.kt:49 | an `Int` result is the mathematical value modulo 2^32, in range, and unchanged when no overflow occurs |
| Numeric.Wrap16 | app/src/main/java/com/example/kinetplayer/network/KinetPacket.kt:123 | `toShort()` keeps the value modulo 2^16 and is the identity on values that fit |
| Numeric.Wrap32Distinct | app/src/main/java/com/example/kinetplayer/model/PixelMap.kt:49 | two counter values less than 2^32 apart stay distinct after wrapping |
| Numeric.Wrap32Increment | app/src/main/java/com/example/kinetplayer/model/PixelMap.kt:49 | incrementing a wrapped counter is wrapping the incremented value, so `currentUniverse++` on the wrapped counter agrees with the closed form |
| Numeric.LE16RoundTrip | app/src/main/java/com/example/kinetplayer/network/KinetPacket.kt:33-34 | a `Short` written little-endian is two bytes that read back as the same signed value |
| Numeric.LE32RoundTrip | app/src/main/java/com/example/kinetplayer/network/KinetPacket.kt:35 | an `Int` written little-endian is four bytes that read back as the same signed value |
| Numeric.LE8RoundTrip | app/src/main/java/com/example/kinetplayer/network/KinetPacket.kt:36-37 | a `Byte` is written as one byte that reads back as the same signed value |
| Numeric.U16Inverse | app/src/main/java/com/example/kinetplayer/network/KinetPacket.kt:33-34 | every two-byte string is the encoding of the `Short` it reads as, so the encoding is onto |
| Numeric.U32Inverse | app/src/main/java/com/example/kinetplayer/network/KinetPacket.kt:35 | every four-byte string is the encoding of the `Int` it reads as |
| Numeric.U16Injective | app/src/main/java/com/example/kinetplayer/network/KinetPacket.kt:123 | two two-byte fields with the same unsigned value are the same bytes |
| KinetPacket.V1HeaderLayout | app/src/main/java/com/example/kinetplayer/network/KinetPacket.kt:32-40 | the V1 header is 24 bytes: magic, version, type, sequence, port, padding, flags, timer and universe, each at its fixed offset and little-endian |
| KinetPacket.Packet.Header | app/src/main/java/com/example/kinetplayer/network/KinetPacket.kt:32-40 | the header written before the payload is 24 bytes for V1 and 22 bytes for V2; the fields in it are stated by the layout lemmas |
| KinetPacket.V1Layout | app/src/main/java/com/example/kinetplayer/network/KinetPacket.kt:28-44 | `toBytes()` of a V1 packet is 24 + size bytes, with every field at its offset and the payload from byte 24 on |
| KinetPacket.V2HeaderLayout | app/src/main/java/com/example/kinetplayer/network/KinetPacket.kt:113-123 | the V2 header is 22 bytes: magic, version, type, sequence, universe, port, padding, flags and the `Short` length, each at its offset |
| KinetPacket.V2Layout | app/src/main/java/com/example/kinetplayer/network/KinetPacket.kt:93-127 | `toBytes()` of a V2 packet is 26 + size bytes: the header, a length field reading the payload size modulo 2^16, the payload from byte 22, then four zero bytes the allocation leaves unwritten |
| KinetPacket.Packet.ToBytes | app/src/main/java/com/example/kinetplayer/network/KinetPacket.kt:28-44 | the buffer is `ByteBuffer.allocate(24 + data.size)` for V1 and 26 + size bytes for V2, so the datagram's length depends only on the payload's |
| KinetPacket.LengthFieldLemma | app/src/main/java/com/example/kinetplayer/network/KinetPacket.kt:123 | `data.size.toShort()` written little-endian reads back as the size modulo 2^16 |
| KinetPacket.DefaultV1Bytes | app/src/main/java/com/example/kinetplayer/network/KinetPacket.kt:17-27 | a V1 packet built with the defaults encodes to magic 4A DC 01 04, version 1, type 0x0101, twelve zero bytes for sequence/port/padding/flags/timer, the universe, then the payload |
| KinetPacket.DefaultV2Bytes | app/src/main/java/com/example/kinetplayer/network/KinetPacket.kt:83-92 | a V2 packet built with the defaults encodes to magic, version 2, type 0x0108, zero sequence, the universe, zero port/padding/flags, the length, the payload and four zeros |
| KinetPacket.V1RoundTrip | app/src/main/java/com/example/kinetplayer/network/KinetPacket.kt:28-44 | decoding the encoding of any V1 packet gives the packet back |
| KinetPacket.V1HeaderOf | app/src/main/java/com/example/kinetplayer/network/KinetPacket.kt:32-40 | a V1 packet whose fields are the ones read from a datagram has the datagram's first 24 bytes as its header |
| KinetPacket.V1EncodeDecode | app/src/main/java/com/example/kinetplayer/network/KinetPacket.kt:28-44 | every byte string the V1 decoder accepts is exactly the encoding of what it decodes to |
| KinetPacket.V2RoundTrip | app/src/main/java/com/example/kinetplayer/network/KinetPacket.kt:93-127 | decoding the encoding of any V2 packet gives the packet back, whatever the payload size |
| KinetPacket.V2HeaderOf | app/src/main/java/com/example/kinetplayer/network/KinetPacket.kt:115-123 | a V2 packet whose fields and length are the ones read from a datagram has the datagram's first 22 bytes as its header |
| KinetPacket.V2HeaderReencodes | app/src/main/java/com/example/kinetplayer/network/KinetPacket.kt:113-126 | re-encoding a decoded V2 datagram gives the same size and the same 22 header bytes |
| KinetPacket.V2EncodeDecode | app/src/main/java/com/example/kinetplayer/network/KinetPacket.kt:93-127 | every byte string the V2 decoder accepts is exactly the encoding of what it decodes to |
| KinetPacket.V1EncodingInjective | app/src/main/java/com/example/kinetplayer/network/KinetPacket.kt:46-63 | two V1 packets are `equals` (all fields, payload by content) if and only if their encodings are equal |
| KinetPacket.V2EncodingInjective | app/src/main/java/com/example/kinetplayer/network/KinetPacket.kt:129-145 | two V2 packets are `equals` if and only if their encodings are equal |
| Fixtures.NewFixture | app/src/main/java/com/example/kinetplayer/model/Fixture.kt:8-15 | a fixture built without a colour is black |
| PixelMaps.Flatten | app/src/main/java/com/example/kinetplayer/model/PixelMap.kt:14-15 | a pixel definition is in the flattened list exactly when it is a pixel of some fixture definition |
| PixelMaps.ToFixture | app/src/main/java/com/example/kinetplayer/model/PixelMap.kt:16-23 | the runtime fixture takes the pixel's id hash, x, y, universe and channel, and starts black |
| PixelMaps.FlattenIndex | app/src/main/java/com/example/kinetplayer/model/PixelMap.kt:14-15 | the `flatMap` puts pixel p of fixture definition j at position offset(j) + p |
| PixelMaps.FlattenLength | app/src/main/java/com/example/kinetplayer/model/PixelMap.kt:14-25 | the flattened list holds every pixel of every fixture definition and nothing else |
| PixelMaps.MaxOrZero | app/src/main/java/com/example/kinetplayer/model/PixelMap.kt:29-30 | `maxOfOrNull … ?: 0` is 0 on an empty list; otherwise it is an element of the list and at least every element |
| PixelMaps.FromManifest | app/src/main/java/com/example/kinetplayer/model/PixelMap.kt:12-33 | one black fixture per manifest pixel, in manifest order, with its x, y, universe, channel and id copied; width and height are the wrapped maximum x and y plus one, so 1 x 1 for an empty manifest |
| PixelMaps.FromManifestPlacement | app/src/main/java/com/example/kinetplayer/model/PixelMap.kt:14-25 | pixel p of fixture definition j becomes exactly the fixture built from it, at its flattened position |
| PixelMaps.FromManifestBoundingBox | app/src/main/java/com/example/kinetplayer/model/PixelMap.kt:29-32 | when no coordinate is `Int.MAX_VALUE`, every fixture lies inside width x height, and some fixture touches the last column and some the last row |
| PixelMaps.GridChannelRange | app/src/main/java/com/example/kinetplayer/model/PixelMap.kt:48-51 | every grid fixture's three channels lie in 1..512 |
| PixelMaps.GridRollover | app/src/main/java/com/example/kinetplayer/model/PixelMap.kt:48-62 | after the 170th fixture of a universe (channel 508) the next fixture starts channel 1 of the wrapped next universe; otherwise it takes the next three channels of the same universe |
| PixelMaps.GridAddressesDistinct | app/src/main/java/com/example/kinetplayer/model/PixelMap.kt:41-62 | two grid fixtures that land in the same universe have channel ranges at least three apart, so they never overlap |
| PixelMaps.CounterStep | app/src/main/java/com/example/kinetplayer/model/PixelMap.kt:48-62 | the counters before fixture k roll over exactly when k is a positive multiple of 170; after the roll check they hold fixture k's closed-form address; after `+= 3` they are the state before fixture k + 1 |
| PixelMaps.EmitStep | app/src/main/java/com/example/kinetplayer/model/PixelMap.kt:46-62 | one inner iteration keeps the loop invariant: the added fixture is the closed-form grid fixture for its index, its three channels lie in 1..512, and after `currentChannel += 3` and `idCounter++` the counters are those of the next index |
| PixelMaps.EmitRow | app/src/main/java/com/example/kinetplayer/model/PixelMap.kt:46-63 | one pass of the inner loop appends `width` fixtures (none if the width is not positive), each the closed-form grid fixture for its index, and leaves the universe, channel and id counters at those of the next row's first index |
| PixelMaps.GridSizeStep | app/src/main/java/com/example/kinetplayer/model/PixelMap.kt:45-64 | one more row of the outer loop adds exactly `width` fixtures to the count of fixtures emitted so far (none if the width is not positive) |
| PixelMaps.CreateGrid | app/src/main/java/com/example/kinetplayer/model/PixelMap.kt:39-66 | the grid has the requested width and height and width x height fixtures (none if either is not positive); fixture k is at column k mod width, row k div width, with id k, the k-th DMX address and colour black |
| PixelMaps.CreateGridDefault | app/src/main/java/com/example/kinetplayer/model/PixelMap.kt:39 | `createGrid(width, height)` with the default first universe 0 gives width x height fixtures, fixture k being the closed-form grid fixture k counted from universe 0 |
| BitmapSampler.Sample | app/src/main/java/com/example/kinetplayer/engine/BitmapSampler.kt:10-24 | the fixture list keeps its layout; a fixture on the bitmap takes the RGB of the pixel under it; any other fixture is unchanged |
| BitmapSampler.SampleIgnoresPixelMap | app/src/main/java/com/example/kinetplayer/engine/BitmapSampler.kt:10 | the `pixelMap` argument does not affect the result |
| BitmapSampler.AlphaDiscarded | app/src/main/java/com/example/kinetplayer/engine/BitmapSampler.kt:17-21 | replacing the top byte (alpha) of a pixel's bit pattern leaves the colour it gives unchanged, and that byte is the pixel's alpha |
| BitmapSampler.SampleIdempotent | app/src/main/java/com/example/kinetplayer/engine/BitmapSampler.kt:10-24 | sampling the same frame twice gives what sampling it once gives |
| BitmapSampler.SampleAsWritten | app/src/main/java/com/example/kinetplayer/engine/BitmapSampler.kt:14-15 | with the one-sided guard, the sampler fails exactly when some fixture passes the guard with a negative coordinate, at the first such fixture; when it does not fail it agrees with `Sample` |
| BitmapSampler.NegativeCoordinateThrows | app/src/main/java/com/example/kinetplayer/engine/BitmapSampler.kt:14-15 | a fixture at x = -1 on a 1 x 1 frame makes the sampler as written throw, while `Sample` leaves it unchanged |
| BitmapSampler.TwoByTwoExample | app/src/test/java/com/example/kinetplayer/engine/BitmapSamplerTest.kt:23-46 | a 2 x 2 red/green/blue/white frame colours the four fixtures of the unit test red, green, blue and white |
| SolidColorEffect.Update | app/src/main/java/com/example/kinetplayer/engine/effects/SolidColorEffect.kt:6-11 | the map keeps its size and layout, and every fixture has the configured colour |
| SolidColorEffect.Paint | app/src/main/java/com/example/kinetplayer/engine/effects/SolidColorEffect.kt:8-10 | the `forEach` keeps every fixture's address and position and sets each one's colour to the configured colour |
| SolidColorEffect.UpdateIgnoresTime | app/src/main/java/com/example/kinetplayer/engine/effects/SolidColorEffect.kt:7 | the result does not depend on `time` |
| SolidColorEffect.UpdateIdempotent | app/src/main/java/com/example/kinetplayer/engine/effects/SolidColorEffect.kt:7-10 | applying the effect twice, at any two times, is applying it once |
| EffectEngine.NewEngine | app/src/main/java/com/example/kinetplayer/engine/EffectEngine.kt:22-23 | a new engine is stopped, has no job and satisfies the lifecycle invariant |
| EffectEngine.Start | app/src/main/java/com/example/kinetplayer/engine/EffectEngine.kt:26-40 | afterwards the engine is running; starting a running engine changes nothing; otherwise a job is set and exactly one more loop is live; the lifecycle invariant is kept |
| EffectEngine.Stop | app/src/main/java/com/example/kinetplayer/engine/EffectEngine.kt:42-47 | afterwards the engine is stopped with no job, and the job's loop, if any, is no longer live; from a valid state no loop is live |
| EffectEngine.StartEvents | app/src/main/java/com/example/kinetplayer/engine/EffectEngine.kt:26-32 | starting a stopped engine starts the frame source exactly when there is one, and launches the loop last |
| EffectEngine.StartIdempotent | app/src/main/java/com/example/kinetplayer/engine/EffectEngine.kt:27 | starting twice is starting once |
| EffectEngine.StopTwice | app/src/main/java/com/example/kinetplayer/engine/EffectEngine.kt:42-47 | a second stop cancels nothing more but stops the frame source again when there is one |
| EffectEngine.UpdatePixels | app/src/main/java/com/example/kinetplayer/engine/EffectEngine.kt:49-59 | either way only colours change: width, height and every fixture's id, position and address stay as they were; without a frame the colours are the effect strategy's; with a frame, each fixture on the frame takes its pixel's colour and the rest keep theirs |
| EffectEngine.FirstSeen | app/src/main/java/com/example/kinetplayer/engine/EffectEngine.kt:63 | the position of the first fixture with a given universe |
| EffectEngine.Insert | app/src/main/java/com/example/kinetplayer/engine/EffectEngine.kt:63 | adding a fixture to a grouping appends it to its universe's group, or opens a new last group for a new universe; other groups are unchanged |
| EffectEngine.InsertKeys | app/src/main/java/com/example/kinetplayer/engine/EffectEngine.kt:63 | after an insert the group keys stay distinct and gain the fixture's universe |
| EffectEngine.GroupBy | app/src/main/java/com/example/kinetplayer/engine/EffectEngine.kt:63 | `groupBy { it.universe }` has one group per distinct universe; each group holds that universe's fixtures in list order; groups are in order of first appearance |
| EffectEngine.GroupingCount | app/src/main/java/com/example/kinetplayer/engine/EffectEngine.kt:63 | there are as many groups as distinct universes |
| EffectEngine.LayoutUniverses | app/src/main/java/com/example/kinetplayer/engine/EffectEngine.kt:63 | recolouring cannot change the grouping's keys: fixture lists that differ only in colours have the same universes, each first seen at the same position |
| EffectEngine.PackContents | app/src/main/java/com/example/kinetplayer/engine/EffectEngine.kt:66-75 | payload byte i is 0 unless a fixture that passes the guard covers it, and is then the matching component of the last such fixture's colour |
| EffectEngine.WriteFixtureAt | app/src/main/java/com/example/kinetplayer/engine/EffectEngine.kt:68-73 | one fixture's three stores set the payload bytes it covers to its red, green and blue, and leave every other byte as it was |
| EffectEngine.PackSkips | app/src/main/java/com/example/kinetplayer/engine/EffectEngine.kt:68 | a fixture whose channels do not fit the payload leaves the payload unchanged |
| EffectEngine.PackSlot | app/src/main/java/com/example/kinetplayer/engine/EffectEngine.kt:66-75 | when no two fixtures overlap, each transmittable fixture's three channels in its universe's payload hold its red, green and blue |
| EffectEngine.PackAsWritten | app/src/main/java/com/example/kinetplayer/engine/EffectEngine.kt:66-75 | with the guard as written (`channel + 2` in `Int` arithmetic), packing throws exactly when some fixture passes the guard with a channel outside 1..510, at the first such fixture; otherwise it gives the corrected payload |
| EffectEngine.PackGuardCounterexamples | app/src/main/java/com/example/kinetplayer/engine/EffectEngine.kt:68-71 | channel 0 and channel `Int.MAX_VALUE - 1` pass the guard and make the store throw, where the corrected guard skips them |
| EffectEngine.GridNoOverlap | app/src/main/java/com/example/kinetplayer/model/PixelMap.kt:39-66 | fixtures addressed as `createGrid` addresses them never overlap in a universe |
| EffectEngine.GridTransmittable | app/src/main/java/com/example/kinetplayer/engine/EffectEngine.kt:68 | every grid fixture passes the guard and none makes the store throw |
| EffectEngine.GridPayloads | app/src/main/java/com/example/kinetplayer/engine/EffectEngine.kt:61-75 | in a grid, every fixture's colour reaches its three channels of its universe's payload |
| EffectEngine.GridPacksAsWritten | app/src/main/java/com/example/kinetplayer/engine/EffectEngine.kt:66-75 | on a grid the payload loop as written never throws and gives the corrected payload |
| EffectEngine.OfUniverseMembers | app/src/main/java/com/example/kinetplayer/engine/EffectEngine.kt:63 | a universe's group holds only fixtures of the map with that universe |
| EffectEngine.Packets | app/src/main/java/com/example/kinetplayer/engine/EffectEngine.kt:65-82 | one packet per distinct universe |
| EffectEngine.PacketsOfGroups | app/src/main/java/com/example/kinetplayer/engine/EffectEngine.kt:77-80 | each group becomes a V1 packet with the defaults, the group's universe and the group's packed payload |
| EffectEngine.PacketsPerUniverse | app/src/main/java/com/example/kinetplayer/engine/EffectEngine.kt:65-82 | every packet is the default V1 packet of one of the map's universes, carrying the payload packed from exactly that universe's fixtures |
| EffectEngine.PacketsCoverUniverses | app/src/main/java/com/example/kinetplayer/engine/EffectEngine.kt:63-82 | every universe of the map gets a packet and no universe gets two |
| EffectEngine.PacketsOrdered | app/src/main/java/com/example/kinetplayer/engine/EffectEngine.kt:63-65 | packets are sent in order of each universe's first appearance in the fixture list |
| EffectEngine.SendAll | app/src/main/java/com/example/kinetplayer/network/KinetSender.kt:13-30 | sending appends each packet's `toBytes()` in order and keeps what was already sent |
| EffectEngine.SendPacket | app/src/main/java/com/example/kinetplayer/network/KinetSender.kt:13-30 | sending one packet adds exactly its `toBytes()` after what was already sent |
| EffectEngine.UniverseDatagram | app/src/main/java/com/example/kinetplayer/engine/EffectEngine.kt:77-81 | the packet of a universe encodes to a 536-byte datagram with the KiNET magic, that universe in the header and its payload after it |
| EffectEngine.PacketDatagrams | app/src/main/java/com/example/kinetplayer/engine/EffectEngine.kt:77-81 | every packet of a tick encodes to such a datagram |
| EffectEngine.SentDatagrams | app/src/main/java/com/example/kinetplayer/engine/EffectEngine.kt:61-83 | every datagram that `sendData` adds to the outbox is such a datagram |
| EffectEngine.UniverseField | app/src/main/java/com/example/kinetplayer/network/KinetPacket.kt:40 | the universe written little-endian at bytes 20-23 of a V1 datagram reads back as the packet's universe |
| EffectEngine.SentInOrder | app/src/main/java/com/example/kinetplayer/engine/EffectEngine.kt:63-82 | the datagrams `sendData` adds name pairwise different universes, in the order each universe first appears among the fixtures |
| EffectEngine.Tick | app/src/main/java/com/example/kinetplayer/engine/EffectEngine.kt:33-36 | one loop iteration, with both exception paths corrected, recolours the map as `updatePixels` does, keeping its size and layout, then adds as many well-formed datagrams as the engine's map has universes after the datagrams already sent |
| EffectEngine.TickInOrder | app/src/main/java/com/example/kinetplayer/engine/EffectEngine.kt:33-35 | the datagrams of one tick name pairwise different universes (bytes 20-23 differ), sent in the order each universe first appears in the engine's fixture list; with Tick this is one datagram per universe |
| EffectEngine.SendDataAsWritten | app/src/main/java/com/example/kinetplayer/engine/EffectEngine.kt:61-83 | `sendData` as written over the universe groups completes exactly when no group's packing throws, and then sends one packet per group; otherwise it stops with a store fault |
| EffectEngine.SendDataFault | app/src/main/java/com/example/kinetplayer/engine/EffectEngine.kt:61-83 | when `sendData` as written stops, it stops at the first group whose packing throws, at the failing fixture, having sent the packets of exactly the groups before it |
| EffectEngine.FaultGroup | app/src/main/java/com/example/kinetplayer/engine/EffectEngine.kt:65-75 | the group where `sendData` as written stops is a group of the map whose packing throws, and every earlier group packs |
| EffectEngine.FaultPackets | app/src/main/java/com/example/kinetplayer/engine/EffectEngine.kt:65-81 | the packets sent before the fault are those of the groups before the faulting group |
| EffectEngine.SentPrefix | app/src/main/java/com/example/kinetplayer/engine/EffectEngine.kt:65-81 | a faulting `sendData` sends a proper prefix of the packets a completing one sends |
| EffectEngine.SentFault | app/src/main/java/com/example/kinetplayer/engine/EffectEngine.kt:63-75 | over the `groupBy` groups of a fixture list, `sendData` as written completes if and only if no fixture passes the guard with channels outside 1..512 |
| EffectEngine.SendDataOf | app/src/main/java/com/example/kinetplayer/engine/EffectEngine.kt:61-83 | `sendData` as written on a map completes exactly when no fixture makes the store throw, then sending what Packets gives; otherwise it sends a proper prefix of those packets |
| EffectEngine.TickAsWritten | app/src/main/java/com/example/kinetplayer/engine/EffectEngine.kt:33-35 | one loop iteration as written faults exactly when `getPixel` or the payload store would throw; without a fault it is Tick; with one it has sent a proper prefix of Tick's datagrams; a store fault leaves the map `updatePixels` made; a sampler fault at fixture i sends nothing and leaves fixtures i onward uncoloured |
| EffectEngine.SampleFaultTick | app/src/main/java/com/example/kinetplayer/engine/EffectEngine.kt:49-54 | when the sampler as written throws at fixture i, the fixtures before i are coloured as Tick colours them, and the tick is not fault-free |
| EffectEngine.SendDataTick | app/src/main/java/com/example/kinetplayer/engine/EffectEngine.kt:33-35 | after a sampler that completes, `sendData` as written faults exactly when the tick is not fault-free, and sends Tick's datagrams or a proper prefix of them |
| EffectEngine.SentOfMap | app/src/main/java/com/example/kinetplayer/engine/EffectEngine.kt:61-83 | the datagrams `sendData` as written adds are all those of the corrected send, or a proper prefix of them after the same earlier datagrams |
| EffectEngine.NoSampleFault | app/src/main/java/com/example/kinetplayer/engine/EffectEngine.kt:49-75 | when the sampler completes, the store faults exactly when the tick is not fault-free |
| EffectEngine.SolidTickOnGrid | app/src/main/java/com/example/kinetplayer/engine/EffectEngine.kt:33-36 | on a grid with no frame source, a solid-colour tick sends, for every fixture, a datagram naming the fixture's universe whose bytes at the fixture's channels hold the effect's colour |

## Left out

- Coroutines and timing are left out: the `scope.launch` loop, `delay(33)`, `isActive`, and the time step `time += 0.1f`, which is float arithmetic. `Tick` is one iteration with the time as a parameter. The engine lifecycle is modelled as the flag, the job and a log of start/launch/stop/cancel events.
- Colour floats are left out: Compose `Color` components are floats and `(c * 255).toInt().toByte()` converts them back. The model keeps each component as the exact byte it encodes, so float rounding is not modelled.
- `KinetSender` sockets are left out: the socket, the DNS lookup, the UDP send and the swallowed exceptions. `sendPacket` is an append of `toBytes()` to an outbox.
- Frame sources are parameters: the `FrameSource` and its `getCurrentFrame()` become an optional frame passed to the tick.
- Effect strategies are parameters: the strategy is a function passed to the tick, of type `Strategy`, which admits only functions that keep the map's width, height and fixture layout, as `update` can assign nothing but fixture colours. `RainbowEffect` and `SparkleEffect` are outside the core and not modelled.
- `String.hashCode()` is left out: the pixel ids in `fromManifest` are `pixelDef.id.hashCode()`, and the model takes the id function as a parameter.
- The packets' `hashCode` is left out because the model does not use it. `equals` is Dafny's structural equality.
- In V2 `toBytes`, the model leaves out the first buffer, which is filled and discarded. Only the returned buffer is modelled.
- Manifest fields that `fromManifest` does not read are left out, as are `ShowUtils`, the servers, discovery, the UI and the video pipeline.
- PixelMaps.GridAddressesDistinct: proved only for grids of fewer than `MAX_GRID` = 170 x 2^32 fixtures. Beyond that the wrapped universe counter comes round again and two fixtures share an address. The bound excludes no grid `createGrid` can build: the fixtures live in a Kotlin `List`, which holds at most `Int.MAX_VALUE` (2^31 - 1) elements, far fewer than 170 x 2^32.
- EffectEngine.GridNoOverlap: carries the same `MAX_GRID` bound, for the same reason. It excludes no buildable grid, as above.
- EffectEngine.GridPayloads: carries the `MAX_GRID` bound through GridNoOverlap. It excludes no buildable grid, as above.
- EffectEngine.SolidTickOnGrid: carries the `MAX_GRID` bound through GridPayloads. It excludes no buildable grid, as above.
- PixelMaps.FromManifestBoundingBox: assumes no coordinate is `Int.MAX_VALUE`. At that value `maxX + 1` wraps to a negative width. `FromManifest` itself models the wrap.
- SolidColorEffect.Default: the default colour (blue) is a constant with no property of its own.
- Grid channel list: `createGrid` rolls over when `channel + 2 > 512`, so a universe's 170 fixtures use start channels 1, 4, …, 508 and channels 511–512 stay unused; fixture 170 starts channel 1 of the next universe (`PixelMaps.GridRollover`).
- EffectEngine.UpdatePixels: follows the corrected `Sample`, so a fixture at a negative coordinate keeps its colour instead of making `getPixel` throw. `EffectEngine.TickAsWritten` models that exception path.
- EffectEngine.Packets: follows the corrected `Pack`, so a fixture with channel 0 or a channel at which `channel + 2` overflows is skipped instead of making the store throw. `EffectEngine.SendDataOf` and `EffectEngine.TickAsWritten` model that exception path.
- EffectEngine.Tick: is the corrected loop body; it always completes and sends one datagram per universe. `EffectEngine.TickAsWritten` models the body as written. Neither models what the exception does next: the loop coroutine ends with `isRunning` still true, so `start` returns early and cannot relaunch it, and the exception reaches the caller's scope uncaught.

## Findings

| source | as written | input that shows it | evidently intended | confidence | as-written member | corrected member |
|---|---|---|---|---|---|---|
| app/src/main/java/com/example/kinetplayer/engine/EffectEngine.kt:68-73 | the guard checks only `fixture.channel + 2 <= 512`, in `Int` arithmetic | a fixture with channel 0 (the store goes to index -1), or with channel `Int.MAX_VALUE - 1` (`channel + 2` wraps negative) | skip any fixture whose three channels are not within 1..512 | not executed | EffectEngine.PackAsWritten, EffectEngine.PackGuardCounterexamples, EffectEngine.SendDataOf, EffectEngine.TickAsWritten | EffectEngine.Pack, EffectEngine.PackContents, EffectEngine.PackSlot |
| app/src/main/java/com/example/kinetplayer/engine/BitmapSampler.kt:14-15 | the guard checks only `x < width && y < height` | a manifest pixel at x = -1; `getPixel(-1, 0)` throws IllegalArgumentException | sample only fixtures with 0 <= x < width and 0 <= y < height | not executed | BitmapSampler.SampleAsWritten, BitmapSampler.NegativeCoordinateThrows, EffectEngine.TickAsWritten | BitmapSampler.Sample |
