/** model/ShowModels.kt, reduced to the fields PixelMap.fromManifest reads. */
module ShowModels {
  import opened Numeric

  datatype DmxInfo = DmxInfo(universe: i32, channel: i32)

  datatype PixelDefinition = PixelDefinition(id: string, x: i32, y: i32, dmxInfo: DmxInfo)

  datatype FixtureDefinition = FixtureDefinition(pixels: seq<PixelDefinition>)

  datatype ShowManifest = ShowManifest(fixtures: seq<FixtureDefinition>)
}
