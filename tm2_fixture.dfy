/** The three-layer source of the `prepared_statement_sql` unit test, and what that test
    expects of its statement, derived from the general laws. */
module Tm2Fixture {
  import opened Strings
  import opened Numeric
  import opened Tm2
  import opened Tm2Laws
  import opened Tm2Patterns

  // The templates are written in pieces, cut at the words the test looks for.
  const WaterTable: string := "(SELECT " + "geometry" + " FROM " + "layer_water" + "(!bbox!))"
  const LandTable: string :=
    "(SELECT " + "geometry" + ", " + "osm_id" + " FROM " + "layer_land" + "(!bbox!))"
  const PoiTable: string := "(SELECT " + "geometry" + " FROM " + "layer_poi" + "(!bbox!))"

  const Water: DataLayer := DataLayer("water", DataLayerProperties(4), LayerSource(WaterTable, ""))
  const Land: DataLayer := DataLayer("land", DataLayerProperties(4), LayerSource(LandTable, "osm_id"))
  const Poi: DataLayer := DataLayer("poi", DataLayerProperties(32), LayerSource(PoiTable, ""))

  const TestSource: TM2Source := TM2Source(
    "Test Style", 256, [Water, Land, Poi], "OpenStreetMap", 0, 14,
    [0.0, 0.0, 4.0], [-180.0, -85.0511, 180.0, 85.0511])

  const OsmId: string := "osm_id"

  // ---------------------------------------------------------------------------
  // Sums over three layers

  lemma SourceCountThree(a: DataLayer, b: DataLayer, c: DataLayer, p: string)
    requires |p| > 0
    ensures SourceCount([a, b, c], p)
         == Count(a.id, p) + Count(a.source.keyField, p) + Count(a.source.table, p)
          + Count(b.id, p) + Count(b.source.keyField, p) + Count(b.source.table, p)
          + Count(c.id, p) + Count(c.source.keyField, p) + Count(c.source.table, p)
  {
    var ab, bc := [a, b, c], [b, c];
    assert ab[0] == a && ab[1..] == bc && bc[0] == b && bc[1..] == [c] && [c][1..] == [];
    assert SourceCount([c], p) == Count(c.id, p) + Count(c.source.keyField, p) + Count(c.source.table, p);
    assert SourceCount(bc, p)
        == Count(b.id, p) + Count(b.source.keyField, p) + Count(b.source.table, p) + SourceCount([c], p);
    assert SourceCount(ab, p)
        == Count(a.id, p) + Count(a.source.keyField, p) + Count(a.source.table, p) + SourceCount(bc, p);
  }

  lemma GeometryCountThree(a: DataLayer, b: DataLayer, c: DataLayer)
    ensures GeometryCount([a, b, c])
         == Count(a.source.table, GeometryToken) + Count(b.source.table, GeometryToken)
          + Count(c.source.table, GeometryToken)
  {
    var ab, bc := [a, b, c], [b, c];
    assert ab[0] == a && ab[1..] == bc && bc[0] == b && bc[1..] == [c] && [c][1..] == [];
    assert GeometryCount([c]) == Count(c.source.table, GeometryToken);
    assert GeometryCount(bc) == Count(b.source.table, GeometryToken) + GeometryCount([c]);
    assert GeometryCount(ab) == Count(a.source.table, GeometryToken) + GeometryCount(bc);
  }

  lemma Regroup5(a: string, g: string, b: string, c: string, d: string)
    ensures a + g + b + c + d == a + g + (b + c + d)
  {
  }

  lemma Regroup7(a: string, g: string, b: string, c: string, d: string, e: string, f: string)
    ensures a + g + b + c + d + e + f == a + g + (b + c + d + e + f)
  {
  }

  lemma Regroup7Mid(a: string, b: string, c: string, o: string, d: string, e: string, f: string)
    ensures a + b + c + o + d + e + f == (a + b + c) + o + (d + e + f)
  {
  }

  /** A self-guarded word between two texts that lack one of its characters each. */
  lemma CountOnce(x: string, w: string, y: string, cx: char, cy: char)
    requires |w| > 0 && Guarded(w, w)
    requires cx in w && cx !in x && cy in w && cy !in y
    ensures Count(x + w + y, w) == 1
  {
    CountZeroByChar(x, w, cx);
    CountZeroByChar(y, w, cy);
    CountSelf(w);
    CountAround(x, w, y, w);
  }

  // ---------------------------------------------------------------------------
  // `geometry` in the templates

  lemma GeometrySelfGuarded()
    ensures Guarded(GeometryToken, GeometryToken) && 'g' in GeometryToken
  {
    assert GeometryToken[1..] == "eometry" && GeometryToken[..|GeometryToken| - 1] == "geometr";
    GuardedByChars(GeometryToken, GeometryToken);
  }

  lemma TablesGeometry()
    ensures Count(WaterTable, GeometryToken) == 1
    ensures Count(LandTable, GeometryToken) == 1
    ensures Count(PoiTable, GeometryToken) == 1
  {
    GeometrySelfGuarded();
    Regroup5("(SELECT ", "geometry", " FROM ", "layer_water", "(!bbox!))");
    AbsentFromThree(" FROM ", "layer_water", "(!bbox!))", 'g');
    CountOnce("(SELECT ", GeometryToken, " FROM " + "layer_water" + "(!bbox!))", 'g', 'g');
    Regroup5("(SELECT ", "geometry", " FROM ", "layer_poi", "(!bbox!))");
    AbsentFromThree(" FROM ", "layer_poi", "(!bbox!))", 'g');
    CountOnce("(SELECT ", GeometryToken, " FROM " + "layer_poi" + "(!bbox!))", 'g', 'g');
    Regroup7("(SELECT ", "geometry", ", ", "osm_id", " FROM ", "layer_land", "(!bbox!))");
    AbsentFromThree(", ", "osm_id", " FROM ", 'g');
    AbsentFromThree(", " + "osm_id" + " FROM ", "layer_land", "(!bbox!))", 'g');
    CountOnce("(SELECT ", GeometryToken, ", " + "osm_id" + " FROM " + "layer_land" + "(!bbox!))", 'g', 'g');
  }

  // ---------------------------------------------------------------------------
  // `ST_AsMVT(` and `ST_AsMVTGeom(`: no layer spells out a `V`

  lemma WaterLacksV()
    ensures LayerLacks(Water, 'V')
  {
    AbsentFromThree("(SELECT " + "geometry", " FROM ", "layer_water", 'V');
  }

  lemma LandLacksV()
    ensures LayerLacks(Land, 'V')
  {
    AbsentFromThree("(SELECT " + "geometry" + ", ", "osm_id", " FROM ", 'V');
  }

  lemma PoiLacksV()
    ensures LayerLacks(Poi, 'V')
  {
    AbsentFromThree("(SELECT " + "geometry", " FROM ", "layer_poi", 'V');
  }

  lemma SourceLacksV()
    ensures forall i :: 0 <= i < |TestSource.layers| ==> LayerLacks(TestSource.layers[i], 'V')
  {
    WaterLacksV();
    LandLacksV();
    PoiLacksV();
    forall i | 0 <= i < |TestSource.layers| ensures LayerLacks(TestSource.layers[i], 'V') {
      if i == 0 {
        assert TestSource.layers[i] == Water;
      } else if i == 1 {
        assert TestSource.layers[i] == Land;
      } else {
        assert TestSource.layers[i] == Poi;
      }
    }
  }

  /** The statement is not empty and has one `ST_AsMVT(` per layer: three. */
  lemma TestSqlMvtCalls()
    ensures Count(PreparedStatementSql(TestSource), MvtCall) == 3
    ensures |PreparedStatementSql(TestSource)| > 0
  {
    MvtCallCount(TestSource);
    SourceLacksV();
    assert 'V' in MvtCall;
    SourceCountZero(TestSource.layers, MvtCall, 'V');
    CountPositiveContains(PreparedStatementSql(TestSource), MvtCall);
  }

  /** One `ST_AsMVTGeom(` per `geometry` of the templates: three. */
  lemma TestSqlMvtGeomCalls()
    ensures Count(PreparedStatementSql(TestSource), MvtGeomCall) == 3
  {
    MvtGeomCallCount(TestSource);
    SourceLacksV();
    assert 'V' in MvtGeomCall;
    SourceCountZero(TestSource.layers, MvtGeomCall, 'V');
    GeometryCountThree(Water, Land, Poi);
    TablesGeometry();
  }

  // ---------------------------------------------------------------------------
  // `osm_id`: once as the key argument and once in the land template

  lemma OsmIdEnds()
    ensures OsmId[1..] == "sm_id" && OsmId[..|OsmId| - 1] == "osm_i" && OsmId[0] == 'o'
    ensures Avoids("sm_id", PieceStarts) && Avoids("osm_i", PieceEnds) && Avoids("osm_i", "yta")
    ensures 's' in OsmId && 'd' in OsmId && NumeralFree(OsmId)
  {
  }

  lemma QueryPiecesLackS()
    ensures Avoids(GeometryToken, "s") && Avoids(BboxNoBufferToken, "s") && Avoids(PixelWidthToken, "s")
    ensures Avoids(BboxToken, "s") && Avoids(TileEnvelope, "s") && Avoids(MarginHead, "s")
  {
  }

  lemma FixedPiecesLackD()
    ensures 'd' !in GeomTail && 'd' !in SelectHead && 'd' !in GeomHead
  {
  }

  lemma OsmIdPlaceholdersInert()
    ensures Inert(GeometryToken, OsmId) && Inert(BboxNoBufferToken, OsmId)
    ensures Inert(PixelWidthToken, OsmId) && Inert(BboxToken, OsmId)
  {
    var p := OsmId;
    OsmIdEnds();
    QueryPiecesLackS();
    assert 's' !in GeometryToken && 's' !in BboxNoBufferToken && 's' !in PixelWidthToken && 's' !in BboxToken;
    assert 'g' in PieceStarts && '!' in PieceStarts && 'y' in "yta" && '!' in PieceEnds;
    InertByChars(GeometryToken, p, 's');
    InertByChars(BboxNoBufferToken, p, 's');
    InertByChars(PixelWidthToken, p, 's');
    InertByChars(BboxToken, p, 's');
  }

  lemma OsmIdSubstitutesInert()
    ensures Inert(TileEnvelope, OsmId) && Inert("$1", OsmId) && Inert("$4", OsmId)
    ensures Inert(MarginHead, OsmId) && Inert(")", OsmId)
  {
    var p := OsmId;
    OsmIdEnds();
    QueryPiecesLackS();
    assert 's' !in TileEnvelope && 's' !in MarginHead;
    assert 'S' in PieceStarts && '$' in PieceStarts && ')' in PieceStarts;
    assert ')' in PieceEnds && '1' in PieceEnds && '4' in PieceEnds && ' ' in PieceEnds;
    InertByChars(TileEnvelope, p, 's');
    InertByChars("$1", p, 's');
    InertByChars("$4", p, 's');
    InertByChars(MarginHead, p, 's');
    InertByChars(")", p, 's');
  }

  /** `z(!scale_denominator!)` holds `o` only before `m` and `r`, never before `s`. */
  lemma OsmIdScaleDenominatorInert()
    ensures Inert(ScaleDenominatorToken, OsmId)
  {
    var p := OsmId;
    OsmIdEnds();
    assert 'z' in PieceStarts && ')' in PieceEnds;
    GuardedByChars(ScaleDenominatorToken, p);
    CountZeroByProbe(ScaleDenominatorToken, p, 1);
  }

  /** `,true) as geom` ends in `om`, which `osm_id` cannot continue. */
  lemma OsmIdColumnSafe()
    ensures EntrySafe(GeomHead, OsmId) && Inert(GeomTail, OsmId)
  {
    var p := OsmId;
    OsmIdEnds();
    FixedPiecesLackD();
    assert 'S' in PieceStarts && ',' in PieceStarts;
    EntryByFirstChar(GeomHead, p);
    EntryByFirstChar(GeomTail, p);
    ExitByProbe(GeomTail, p, 1);
    CountZeroByChar(GeomTail, p, 'd');
  }

  lemma OsmIdQueryReady()
    ensures QueryReady(OsmId)
  {
    OsmIdEnds();
    OsmIdPlaceholdersInert();
    OsmIdSubstitutesInert();
    OsmIdScaleDenominatorInert();
    OsmIdColumnSafe();
  }

  lemma OsmIdSelectReady()
    ensures SelectReady(OsmId)
  {
    OsmIdEnds();
    SelectPiecesLackAll('d');
    assert Avoids("sm_id", SelectStarts) && Avoids("osm_i", SelectEnds);
    SelectReadyByChars(OsmId, "sm_id", "osm_i", 'd');
  }

  lemma OsmIdSelfGuarded()
    ensures Guarded(OsmId, OsmId)
  {
    OsmIdEnds();
    GuardedByChars(OsmId, OsmId);
  }

  lemma LandTableOsmId()
    ensures Count(LandTable, OsmId) == 1
  {
    OsmIdEnds();
    OsmIdSelfGuarded();
    Regroup7Mid("(SELECT ", "geometry", ", ", "osm_id", " FROM ", "layer_land", "(!bbox!))");
    AbsentFromThree("(SELECT ", "geometry", ", ", 'd');
    AbsentFromThree(" FROM ", "layer_land", "(!bbox!))", 's');
    CountOnce("(SELECT " + "geometry" + ", ", OsmId, " FROM " + "layer_land" + "(!bbox!))", 'd', 's');
  }

  lemma OsmIdOtherTexts()
    ensures Count(WaterTable, OsmId) == 0 && Count(PoiTable, OsmId) == 0
    ensures Count("water", OsmId) == 0 && Count("land", OsmId) == 0 && Count("poi", OsmId) == 0
    ensures Count("", OsmId) == 0 && Count(OsmId, OsmId) == 1
  {
    OsmIdEnds();
    AbsentFromThree("(SELECT " + "geometry", " FROM ", "layer_water", 'd');
    CountZeroByChar(WaterTable, OsmId, 'd');
    AbsentFromThree("(SELECT " + "geometry", " FROM ", "layer_poi", 'd');
    CountZeroByChar(PoiTable, OsmId, 'd');
    CountSelf(OsmId);
  }

  /** `osm_id` occurs twice: the key argument of the land layer, and its template. */
  lemma TestSqlOsmIds()
    ensures Count(PreparedStatementSql(TestSource), OsmId) == 2
  {
    OsmIdQueryReady();
    OsmIdSelectReady();
    OsmIdEnds();
    FixedPiecesLackD();
    CountZeroByChar(SelectHead, OsmId, 'd');
    CountZeroByChar(GeomHead, OsmId, 'd');
    StatementCountBySource(TestSource, OsmId);
    SourceCountThree(Water, Land, Poi, OsmId);
    LandTableOsmId();
    OsmIdOtherTexts();
  }

  // ---------------------------------------------------------------------------
  // The layer names of the templates

  lemma NameFirstChar()
    ensures 'l' !in GeometryToken && 'l' !in GeomTail && 'l' !in SelectTail && 'l' !in StatementTail
  {
  }

  /** A `layer_...` name reaches the statement from its template. */
  lemma LayerNameSurvives(name: string, tail: string, init: string, i: nat)
    requires |name| > 1 && tail == name[1..] && init == name[..|name| - 1]
    requires name[0] == 'l' && 'y' in name && NumeralFree(name)
    requires Avoids(tail, PieceStarts) && Avoids(init, PieceEnds) && 'm' !in init
    requires Avoids(tail, SelectStarts) && Avoids(init, SelectEnds)
    requires i < |TestSource.layers| && Contains(TestSource.layers[i].source.table, name)
    ensures Contains(PreparedStatementSql(TestSource), name)
  {
    NameFirstChar();
    QueryPiecesLackV();
    SelectPiecesLackAll('y');
    QueryReadyByChars(name, tail, init, 'y', 'l');
    SelectReadyByChars(name, tail, init, 'y');
    TemplateTextSurvives(TestSource, i, name);
  }

  lemma ContainsMiddle(a: string, w: string, b: string)
    ensures Contains(a + w + b, w)
  {
    assert OccursAt(w, w, 0);
    ContainsRight(a, w, w);
    ContainsLeft(a + w, b, w);
  }

  lemma WaterNameTexts()
    ensures "ayer_water" == "layer_water"[1..] && "layer_wate" == "layer_water"[..10]
    ensures NumeralFree("layer_water") && 'y' in "layer_water" && "layer_water"[0] == 'l'
  {
  }

  lemma WaterNameEnds()
    ensures Avoids("ayer_water", PieceStarts) && Avoids("layer_wate", PieceEnds) && 'm' !in "layer_wate"
    ensures Avoids("ayer_water", SelectStarts) && Avoids("layer_wate", SelectEnds)
  {
  }

  lemma TestSqlNamesWater()
    ensures Contains(PreparedStatementSql(TestSource), "layer_water")
  {
    WaterNameTexts();
    WaterNameEnds();
    assert TestSource.layers[0] == Water;
    ContainsMiddle("(SELECT " + "geometry" + " FROM ", "layer_water", "(!bbox!))");
    LayerNameSurvives("layer_water", "ayer_water", "layer_wate", 0);
  }

  lemma LandNameTexts()
    ensures "ayer_land" == "layer_land"[1..] && "layer_lan" == "layer_land"[..9]
    ensures NumeralFree("layer_land") && 'y' in "layer_land" && "layer_land"[0] == 'l'
  {
  }

  lemma LandNameEnds()
    ensures Avoids("ayer_land", PieceStarts) && Avoids("layer_lan", PieceEnds) && 'm' !in "layer_lan"
    ensures Avoids("ayer_land", SelectStarts) && Avoids("layer_lan", SelectEnds)
  {
  }

  lemma TestSqlNamesLand()
    ensures Contains(PreparedStatementSql(TestSource), "layer_land")
  {
    LandNameTexts();
    LandNameEnds();
    assert TestSource.layers[1] == Land;
    ContainsMiddle("(SELECT " + "geometry" + ", " + "osm_id" + " FROM ", "layer_land", "(!bbox!))");
    LayerNameSurvives("layer_land", "ayer_land", "layer_lan", 1);
  }

  lemma PoiNameTexts()
    ensures "ayer_poi" == "layer_poi"[1..] && "layer_po" == "layer_poi"[..8]
    ensures NumeralFree("layer_poi") && 'y' in "layer_poi" && "layer_poi"[0] == 'l'
  {
  }

  lemma PoiNameEnds()
    ensures Avoids("ayer_poi", PieceStarts) && Avoids("layer_po", PieceEnds) && 'm' !in "layer_po"
    ensures Avoids("ayer_poi", SelectStarts) && Avoids("layer_po", SelectEnds)
  {
  }

  lemma TestSqlNamesPoi()
    ensures Contains(PreparedStatementSql(TestSource), "layer_poi")
  {
    PoiNameTexts();
    PoiNameEnds();
    assert TestSource.layers[2] == Poi;
    ContainsMiddle("(SELECT " + "geometry" + " FROM ", "layer_poi", "(!bbox!))");
    LayerNameSurvives("layer_poi", "ayer_poi", "layer_po", 2);
  }

  // ---------------------------------------------------------------------------
  // The numbers of the test layers

  /** A 4-pixel buffer is 32 extent units, a 32-pixel one 256. */
  lemma TestBuffers()
    ensures BufferInExtent(Water.properties) == 32 && BufferInExtent(Land.properties) == 32
    ensures BufferInExtent(Poi.properties) == 256
  {
    BufferInExtentExact(Water.properties);
    BufferInExtentExact(Land.properties);
    BufferInExtentExact(Poi.properties);
  }
}
