/** What the compiled TM2 statement contains: which placeholders are gone, and how many
    times a pattern occurs in the statement, as a function of the layers' own text. */
module Tm2Laws {
  import opened Strings
  import opened Numeric
  import opened Tm2

  // The fixed text of the statement, cut where layer text is spliced in (written as the
  // pieces of the format strings they join).
  const GeomHead: string := "ST_AsMVTGeom(" + "geometry,!bbox_nobuffer!,4096,"
  const GeomTail: string := ",true) as geom"
  const TileEnvelope: string := "ST_TileEnvelope($1, $2, $3)"
  const MarginHead: string := "ST_TileEnvelope($1, $2, $3, margin => "
  const SelectHead: string := "SELECT " + "ST_AsMVT(t.*, '"
  const NoKeyMiddle: string := "', 4096, 'geom'" + ")" + " AS mvt FROM ("
  const KeyMiddle: string := "', 4096, 'geom'" + ", '"
  const KeyTail: string := "'" + ")" + " AS mvt FROM ("
  const SelectTail: string := ") as t"
  const StatementHead: string := "SELECT STRING_AGG(a.mvt, NULL) FROM ("
  const StatementTail: string := ") a"
  const UnionAll: string := " UNION ALL "

  predicate IsNumeral(c: char) {
    '0' <= c <= '9' || c == '-' || c == '.'
  }

  /** The pattern has no character of a printed number. */
  predicate NumeralFree(p: string) {
    forall k :: 0 <= k < |p| ==> !IsNumeral(p[k])
  }

  /** Printed numbers cannot take part in an occurrence of a numeral-free pattern. */
  lemma NumeralTextInert(t: string, p: string)
    requires |p| > 0 && NumeralFree(p)
    requires |t| > 0 && forall k :: 0 <= k < |t| ==> IsNumeral(t[k])
    ensures Inert(t, p) && t[0] !in p && t[|t| - 1] !in p
  {
    InertByChars(t, p, p[0]);
  }

  // ---------------------------------------------------------------------------
  // Shape of the substituted texts

  lemma GeomColumnShape(props: DataLayerProperties)
    ensures GeomColumn(props) == GeomHead + IntText(BufferInExtent(props)) + GeomTail
  {
  }

  lemma BufferedEnvelopeShape(props: DataLayerProperties)
    ensures BufferedEnvelope(props) == MarginHead + TilePctText(props) + ")"
  {
  }

  lemma TilePctNumeral(props: DataLayerProperties)
    ensures var t := TilePctText(props); |t| > 0 && forall k :: 0 <= k < |t| ==> IsNumeral(t[k])
  {
  }

  /** A character absent from three texts is absent from their concatenation. */
  lemma AbsentFromThree(a: string, b: string, c: string, x: char)
    requires x !in a && x !in b && x !in c
    ensures x !in a + b + c
  {
  }

  lemma MarginHeadChars()
    ensures MarginHead[0] == 'S' && '!' !in MarginHead
  {
  }

  /** The margin envelope starts with `S`, ends with `)` and holds no `!`, so it never
      forms or completes a placeholder. */
  lemma BufferedEnvelopeChars(props: DataLayerProperties)
    ensures var e := BufferedEnvelope(props);
      |e| > 0 && e[0] == 'S' && e[|e| - 1] == ')' && '!' !in e
  {
    var t := TilePctText(props);
    TilePctNumeral(props);
    assert '!' !in t;
    MarginHeadChars();
    AbsentFromThree(MarginHead, t, ")", '!');
    BufferedEnvelopeShape(props);
  }

  // ---------------------------------------------------------------------------
  // Placeholders

  /** A placeholder-like pattern: it holds a `!` but no `S` or `$`, and no `)`, `1` or `4`
      before its last character. */
  predicate BangDelimited(p: string) {
    |p| > 1 && '!' in p && 'S' !in p && '$' !in p
    && ')' !in p[..|p| - 1] && '1' !in p[..|p| - 1] && '4' !in p[..|p| - 1]
  }

  lemma TokensBangDelimited()
    ensures BangDelimited(BboxNoBufferToken) && BangDelimited(ScaleDenominatorToken)
    ensures BangDelimited(PixelWidthToken) && BangDelimited(BboxToken)
  {
  }

  /** None of the substitutes can form, start or finish a placeholder-like pattern. */
  lemma SubstitutesInert(props: DataLayerProperties, p: string)
    requires BangDelimited(p)
    ensures Inert(TileEnvelope, p) && Inert("$1", p) && Inert("$4", p)
    ensures Inert(BufferedEnvelope(props), p)
  {
    assert 'S' !in p[1..] && '$' !in p[1..];
    assert TileEnvelope[0] == 'S' && TileEnvelope[|TileEnvelope| - 1] == ')' && '!' !in TileEnvelope;
    InertByChars(TileEnvelope, p, '!');
    InertByChars("$1", p, '!');
    InertByChars("$4", p, '!');
    BufferedEnvelopeChars(props);
    InertByChars(BufferedEnvelope(props), p, '!');
  }

  /** `!bbox_nobuffer!` is gone after its own substitution, and none of the later
      substitutes brings it back. */
  lemma QueryHasNoBboxNoBuffer(layer: DataLayer)
    ensures Count(LayerQuery(layer), BboxNoBufferToken) == 0
    ensures !Contains(LayerQuery(layer), BboxNoBufferToken)
  {
    var env := BufferedEnvelope(layer.properties);
    var s1 := Replace(layer.source.table, GeometryToken, GeomColumn(layer.properties));
    var s2 := Replace(s1, BboxNoBufferToken, TileEnvelope);
    var s3 := Replace(s2, ScaleDenominatorToken, "$1");
    var s4 := Replace(s3, PixelWidthToken, "$4");
    assert LayerQuery(layer) == Replace(s4, BboxToken, env);
    TokensBangDelimited();
    SubstitutesInert(layer.properties, BboxNoBufferToken);
    ReplaceRemoves(s1, BboxNoBufferToken, TileEnvelope);
    ReplaceKeepsAbsent(s2, ScaleDenominatorToken, "$1", BboxNoBufferToken);
    ReplaceKeepsAbsent(s3, PixelWidthToken, "$4", BboxNoBufferToken);
    ReplaceKeepsAbsent(s4, BboxToken, env, BboxNoBufferToken);
    CountZeroIff(LayerQuery(layer), BboxNoBufferToken);
  }

  /** `z(!scale_denominator!)` is gone after its own substitution, and none of the later
      substitutes brings it back. */
  lemma QueryHasNoScaleDenominator(layer: DataLayer)
    ensures Count(LayerQuery(layer), ScaleDenominatorToken) == 0
    ensures !Contains(LayerQuery(layer), ScaleDenominatorToken)
  {
    var env := BufferedEnvelope(layer.properties);
    var s1 := Replace(layer.source.table, GeometryToken, GeomColumn(layer.properties));
    var s2 := Replace(s1, BboxNoBufferToken, TileEnvelope);
    var s3 := Replace(s2, ScaleDenominatorToken, "$1");
    var s4 := Replace(s3, PixelWidthToken, "$4");
    assert LayerQuery(layer) == Replace(s4, BboxToken, env);
    TokensBangDelimited();
    SubstitutesInert(layer.properties, ScaleDenominatorToken);
    ReplaceRemoves(s2, ScaleDenominatorToken, "$1");
    ReplaceKeepsAbsent(s3, PixelWidthToken, "$4", ScaleDenominatorToken);
    ReplaceKeepsAbsent(s4, BboxToken, env, ScaleDenominatorToken);
    CountZeroIff(LayerQuery(layer), ScaleDenominatorToken);
  }

  /** `!pixel_width!` is gone after its own substitution, and the last substitute does not
      bring it back. */
  lemma QueryHasNoPixelWidth(layer: DataLayer)
    ensures Count(LayerQuery(layer), PixelWidthToken) == 0
    ensures !Contains(LayerQuery(layer), PixelWidthToken)
  {
    var env := BufferedEnvelope(layer.properties);
    var s1 := Replace(layer.source.table, GeometryToken, GeomColumn(layer.properties));
    var s2 := Replace(s1, BboxNoBufferToken, TileEnvelope);
    var s3 := Replace(s2, ScaleDenominatorToken, "$1");
    var s4 := Replace(s3, PixelWidthToken, "$4");
    assert LayerQuery(layer) == Replace(s4, BboxToken, env);
    TokensBangDelimited();
    SubstitutesInert(layer.properties, PixelWidthToken);
    ReplaceRemoves(s3, PixelWidthToken, "$4");
    ReplaceKeepsAbsent(s4, BboxToken, env, PixelWidthToken);
    CountZeroIff(LayerQuery(layer), PixelWidthToken);
  }

  /** `!bbox!` is substituted last, by an envelope without a `!`. */
  lemma QueryHasNoBbox(layer: DataLayer)
    ensures Count(LayerQuery(layer), BboxToken) == 0
    ensures !Contains(LayerQuery(layer), BboxToken)
  {
    var env := BufferedEnvelope(layer.properties);
    var s1 := Replace(layer.source.table, GeometryToken, GeomColumn(layer.properties));
    var s2 := Replace(s1, BboxNoBufferToken, TileEnvelope);
    var s3 := Replace(s2, ScaleDenominatorToken, "$1");
    var s4 := Replace(s3, PixelWidthToken, "$4");
    assert LayerQuery(layer) == Replace(s4, BboxToken, env);
    TokensBangDelimited();
    SubstitutesInert(layer.properties, BboxToken);
    ReplaceRemoves(s4, BboxToken, env);
  }

  // ---------------------------------------------------------------------------
  // Counting a pattern through a layer's query

  /** The patterns whose occurrences in a query come only from the template and from the
      `ST_AsMVTGeom(...)` head: none of the fixed texts can hold, start or finish one. */
  predicate QueryReady(p: string) {
    |p| > 0 && NumeralFree(p)
    && Inert(GeometryToken, p) && Inert(BboxNoBufferToken, p) && Inert(ScaleDenominatorToken, p)
    && Inert(PixelWidthToken, p) && Inert(BboxToken, p)
    && Inert(TileEnvelope, p) && Inert("$1", p) && Inert("$4", p)
    && EntrySafe(MarginHead, p) && Count(MarginHead, p) == 0 && Inert(")", p)
    && EntrySafe(GeomHead, p) && Inert(GeomTail, p)
  }

  lemma GeomColumnCount(props: DataLayerProperties, p: string)
    requires QueryReady(p)
    ensures Guarded(GeomColumn(props), p)
    ensures Count(GeomColumn(props), p) == Count(GeomHead, p)
  {
    var d := IntText(BufferInExtent(props));
    GeomColumnShape(props);
    NumeralTextInert(d, p);
    EntrySafeMeans(GeomHead, d, GeomTail, p);
    ExitSafeMeans(d, GeomTail, p);
    CountConcat3(GeomHead, d, GeomTail, p);
    EntryByBarrier(GeomHead, d + GeomTail, p);
    ExitByBarrier(GeomHead + d, GeomTail, p);
    assert GeomHead + (d + GeomTail) == GeomHead + d + GeomTail;
  }

  lemma BufferedEnvelopeInert(props: DataLayerProperties, p: string)
    requires QueryReady(p)
    ensures Inert(BufferedEnvelope(props), p)
  {
    var t := TilePctText(props);
    BufferedEnvelopeShape(props);
    NumeralTextInert(t, p);
    EntrySafeMeans(MarginHead, t, ")", p);
    ExitSafeMeans(t, ")", p);
    CountConcat3(MarginHead, t, ")", p);
    EntryByBarrier(MarginHead, t + ")", p);
    ExitByBarrier(MarginHead + t, ")", p);
    assert MarginHead + (t + ")") == MarginHead + t + ")";
  }

  /** The `geometry` step: each replaced placeholder brings the column's occurrences. */
  lemma GeometryStep(table: string, g: string, p: string)
    requires Inert(GeometryToken, p) && Guarded(g, p)
    ensures Count(Replace(table, GeometryToken, g), p)
         == Count(table, p) + Count(table, GeometryToken) * Count(g, p)
  {
    assert Count(GeometryToken, p) == 0 && Guarded(GeometryToken, p);
    ReplaceCount(table, GeometryToken, g, p);
  }

  /** Each `geometry` of the template becomes one `ST_AsMVTGeom(...)` head; otherwise a
      ready pattern occurs in the query exactly as often as in the template. */
  lemma QueryCount(layer: DataLayer, p: string)
    requires QueryReady(p)
    ensures Count(LayerQuery(layer), p)
         == Count(layer.source.table, p) + Count(layer.source.table, GeometryToken) * Count(GeomHead, p)
  {
    var table := layer.source.table;
    var g := GeomColumn(layer.properties);
    var env := BufferedEnvelope(layer.properties);
    var s1 := Replace(table, GeometryToken, g);
    var s2 := Replace(s1, BboxNoBufferToken, TileEnvelope);
    var s3 := Replace(s2, ScaleDenominatorToken, "$1");
    var s4 := Replace(s3, PixelWidthToken, "$4");
    assert LayerQuery(layer) == Replace(s4, BboxToken, env);
    assert Inert(BboxNoBufferToken, p) && Inert(TileEnvelope, p);
    assert Inert(ScaleDenominatorToken, p) && Inert("$1", p);
    assert Inert(PixelWidthToken, p) && Inert("$4", p) && Inert(BboxToken, p);
    GeomColumnCount(layer.properties, p);
    GeometryStep(table, g, p);
    ReplaceKeepsCount(s1, BboxNoBufferToken, TileEnvelope, p);
    ReplaceKeepsCount(s2, ScaleDenominatorToken, "$1", p);
    ReplaceKeepsCount(s3, PixelWidthToken, "$4", p);
    BufferedEnvelopeInert(layer.properties, p);
    ReplaceKeepsCount(s4, BboxToken, env, p);
  }

  // ---------------------------------------------------------------------------
  // Counting a pattern through the whole statement

  /** The patterns that the fixed text of a row can neither start, finish nor hold, except
      for whole occurrences inside `SELECT ST_AsMVT(t.*, '`. */
  predicate RowReady(p: string) {
    |p| > 0 && Guarded(SelectHead, p)
    && Inert(NoKeyMiddle, p) && Inert(KeyMiddle, p) && Inert(KeyTail, p) && Inert(SelectTail, p)
  }

  /** The same for all the fixed text around the layer queries, the aggregation and the
      union separators included. */
  predicate SelectReady(p: string) {
    RowReady(p) && Inert(StatementHead, p) && Inert(StatementTail, p) && Inert(UnionAll, p)
  }

  lemma Regroup(a: string, b: string, id: string, c: string, d: string, e: string, q: string, f: string)
    ensures a + (b + id + c + "" + d) + e + q + f == (a + b) + id + (c + d + e) + q + f
  {
  }

  lemma RegroupKey(a: string, b: string, id: string, c: string, k1: string, key: string, k2: string,
                   d: string, e: string, q: string, f: string)
    ensures a + (b + id + c + (k1 + key + k2) + d) + e + q + f
         == (a + b) + id + (c + k1) + key + (k2 + d + e) + q + f
  {
  }

  /** A row, cut at the places where layer text is spliced in. */
  lemma RowShape(id: string, key: string, query: string)
    ensures |key| == 0 ==>
      SelectRow(LayerColumn(id, key), query) == SelectHead + id + NoKeyMiddle + query + SelectTail
    ensures |key| > 0 ==>
      SelectRow(LayerColumn(id, key), query)
      == SelectHead + id + KeyMiddle + key + KeyTail + query + SelectTail
  {
    if |key| == 0 {
      RowShapeNoKey(id, key, query);
    } else {
      RowShapeKey(id, key, query);
    }
  }

  lemma RowShapeNoKey(id: string, key: string, query: string)
    requires |key| == 0
    ensures SelectRow(LayerColumn(id, key), query) == SelectHead + id + NoKeyMiddle + query + SelectTail
  {
    assert KeyClause(key) == "";
    Regroup("SELECT ", "ST_AsMVT(t.*, '", id, "', 4096, 'geom'", ")", " AS mvt FROM (", query, ") as t");
  }

  lemma RowShapeKey(id: string, key: string, query: string)
    requires |key| > 0
    ensures SelectRow(LayerColumn(id, key), query)
         == SelectHead + id + KeyMiddle + key + KeyTail + query + SelectTail
  {
    assert KeyClause(key) == ", '" + key + "'";
    RegroupKey("SELECT ", "ST_AsMVT(t.*, '", id, "', 4096, 'geom'", ", '", key, "'", ")", " AS mvt FROM (",
               query, ") as t");
  }

  /** A row holds a ready pattern as often as its id, key field and query hold it, plus the
      occurrences inside the fixed `SELECT ST_AsMVT(t.*, '`. */
  lemma RowCount(id: string, key: string, query: string, p: string)
    requires RowReady(p)
    ensures Count(SelectRow(LayerColumn(id, key), query), p)
         == Count(SelectHead, p) + Count(id, p) + Count(key, p) + Count(query, p)
  {
    RowShape(id, key, query);
    if |key| == 0 {
      assert Guarded(SelectHead, p) && Guarded(NoKeyMiddle, p) && Guarded(SelectTail, p);
      assert Count(NoKeyMiddle, p) == 0 && Count(SelectTail, p) == 0 && Count(key, p) == 0;
      CountFive(SelectHead, id, NoKeyMiddle, query, SelectTail, p);
    } else {
      assert Guarded(SelectHead, p) && Guarded(KeyMiddle, p) && Guarded(KeyTail, p) && Guarded(SelectTail, p);
      assert Count(KeyMiddle, p) == 0 && Count(KeyTail, p) == 0 && Count(SelectTail, p) == 0;
      CountSeven(SelectHead, id, KeyMiddle, key, KeyTail, query, SelectTail, p);
    }
  }

  /** The occurrences contributed by the layers' own text: ids, key fields and compiled
      queries. */
  function RowsCount(layers: seq<DataLayer>, p: string): (n: nat)
    requires |p| > 0
    ensures |layers| == 0 ==> n == 0
    decreases |layers|
  {
    if |layers| == 0 then 0
    else Count(layers[0].id, p) + Count(layers[0].source.keyField, p) + Count(LayerQuery(layers[0]), p)
         + RowsCount(layers[1..], p)
  }

  lemma {:induction false} SelectsCount(layers: seq<DataLayer>, p: string)
    requires RowReady(p)
    ensures SumCounts(LayerSelects(layers), p) == |layers| * Count(SelectHead, p) + RowsCount(layers, p)
    decreases |layers|
  {
    if |layers| > 0 {
      var selects, layer, rest := LayerSelects(layers), layers[0], layers[1..];
      var query := LayerQuery(layer);
      assert selects[1..] == LayerSelects(rest);
      assert selects[0] == SelectRow(LayerColumn(layer.id, layer.source.keyField), query);
      assert SumCounts(selects, p) == Count(selects[0], p) + SumCounts(LayerSelects(rest), p);
      assert RowsCount(layers, p)
          == Count(layer.id, p) + Count(layer.source.keyField, p) + Count(query, p) + RowsCount(rest, p);
      RowCount(layer.id, layer.source.keyField, query, p);
      SelectsCount(rest, p);
      MulSucc(|rest|, Count(SelectHead, p));
    }
  }

  lemma MulSucc(n: nat, c: nat)
    ensures (n + 1) * c == n * c + c
  {
  }

  /** Counting across a guarded head and tail around an arbitrary middle. */
  lemma CountEnclosed(h: string, m: string, t: string, p: string)
    requires |p| > 0 && Guarded(h, p) && Guarded(t, p)
    ensures Count(h + m + t, p) == Count(h, p) + Count(m, p) + Count(t, p)
  {
    CountBack(h + m, t, p);
    CountFront(h, m, p);
  }

  /** The statement holds a ready pattern once per layer for every occurrence in
      `SELECT ST_AsMVT(t.*, '`, plus what the layers' own text contributes; the union
      separators and the aggregation around them add none. */
  lemma StatementCount(source: TM2Source, p: string)
    requires SelectReady(p)
    ensures Count(PreparedStatementSql(source), p)
         == |source.layers| * Count(SelectHead, p) + RowsCount(source.layers, p)
  {
    var selects := LayerSelects(source.layers);
    var joined := Join(selects, UnionAll);
    assert PreparedStatementSql(source) == StatementHead + joined + StatementTail;
    assert Guarded(StatementHead, p) && Guarded(StatementTail, p) && Guarded(UnionAll, p);
    assert Count(StatementHead, p) == 0 && Count(StatementTail, p) == 0 && Count(UnionAll, p) == 0;
    CountEnclosed(StatementHead, joined, StatementTail, p);
    CountJoin(selects, UnionAll, p);
    assert Separators(|selects|) * Count(UnionAll, p) == 0;
    SelectsCount(source.layers, p);
  }

  /** The separators: a pattern that ` UNION ALL ` guards and that the aggregation around
      the rows neither holds nor straddles occurs in the statement once per separator for
      each occurrence inside ` UNION ALL `, plus what the rows hold. */
  lemma StatementSeparatorCount(source: TM2Source, p: string)
    requires |p| > 0 && Guarded(UnionAll, p) && Inert(StatementHead, p) && Inert(StatementTail, p)
    ensures Count(PreparedStatementSql(source), p)
         == Separators(|source.layers|) * Count(UnionAll, p) + SumCounts(LayerSelects(source.layers), p)
  {
    var selects := LayerSelects(source.layers);
    var joined := Join(selects, UnionAll);
    assert PreparedStatementSql(source) == StatementHead + joined + StatementTail;
    CountEnclosed(StatementHead, joined, StatementTail, p);
    CountJoin(selects, UnionAll, p);
  }

  // ---------------------------------------------------------------------------
  // Counting in terms of the source as written

  /** The occurrences in the layers' ids, key fields and table templates. */
  function SourceCount(layers: seq<DataLayer>, p: string): (n: nat)
    requires |p| > 0
    ensures |layers| == 0 ==> n == 0
    decreases |layers|
  {
    if |layers| == 0 then 0
    else Count(layers[0].id, p) + Count(layers[0].source.keyField, p) + Count(layers[0].source.table, p)
         + SourceCount(layers[1..], p)
  }

  /** The `geometry` placeholders of all table templates. */
  function GeometryCount(layers: seq<DataLayer>): (n: nat)
    ensures |layers| == 0 ==> n == 0
    decreases |layers|
  {
    if |layers| == 0 then 0 else Count(layers[0].source.table, GeometryToken) + GeometryCount(layers[1..])
  }

  lemma {:induction false} RowsCountBySource(layers: seq<DataLayer>, p: string)
    requires QueryReady(p)
    ensures RowsCount(layers, p) == SourceCount(layers, p) + GeometryCount(layers) * Count(GeomHead, p)
    decreases |layers|
  {
    if |layers| > 0 {
      var layer, rest := layers[0], layers[1..];
      var g := Count(layer.source.table, GeometryToken);
      assert GeometryCount(layers) == g + GeometryCount(rest);
      assert SourceCount(layers, p)
          == Count(layer.id, p) + Count(layer.source.keyField, p) + Count(layer.source.table, p) + SourceCount(rest, p);
      assert RowsCount(layers, p)
          == Count(layer.id, p) + Count(layer.source.keyField, p) + Count(LayerQuery(layer), p) + RowsCount(rest, p);
      QueryCount(layer, p);
      RowsCountBySource(rest, p);
      MulAdd(g, GeometryCount(rest), Count(GeomHead, p));
    }
  }

  lemma MulAdd(a: nat, b: nat, c: nat)
    ensures (a + b) * c == a * c + b * c
  {
  }

  /** The statement's count of a pattern that both the fixed text and the placeholder
      substitutions leave alone. */
  lemma StatementCountBySource(source: TM2Source, p: string)
    requires SelectReady(p) && QueryReady(p)
    ensures Count(PreparedStatementSql(source), p)
         == |source.layers| * Count(SelectHead, p) + SourceCount(source.layers, p)
            + GeometryCount(source.layers) * Count(GeomHead, p)
  {
    StatementCount(source, p);
    RowsCountBySource(source.layers, p);
  }

  // ---------------------------------------------------------------------------
  // The buffer argument

  /** Every buffer size up to 2^24 in magnitude converts to `f32` exactly, so the
      `ST_AsMVTGeom` buffer argument is eight times the configured buffer. */
  lemma BufferInExtentExact(props: DataLayerProperties)
    requires -TwoTo24 <= props.bufferSize <= TwoTo24
    ensures BufferInExtent(props) == 8 * props.bufferSize
  {
    RoundToF32Exact(props.bufferSize);
  }

  /** Beyond 2^24 the conversion rounds to a nearest `f32` (a multiple of the spacing of
      `f32` values there), and while eight times that value fits in an `i32` (every buffer
      strictly within `2^28 - 8` in magnitude), the argument is exactly eight times it. */
  lemma BufferInExtentRounded(props: DataLayerProperties)
    requires -(TwoTo24 * 16 - 8) < props.bufferSize < TwoTo24 * 16 - 8
    ensures BufferInExtent(props) == 8 * RoundToF32(props.bufferSize)
    ensures var m := if props.bufferSize < 0 then -props.bufferSize else props.bufferSize;
      var b := BufferInExtent(props) / 8;
      BufferInExtent(props) % 8 == 0
      && 2 * (props.bufferSize - b) <= Ulp(m) && 2 * (b - props.bufferSize) <= Ulp(m)
  {
    var m: nat := if props.bufferSize < 0 then -props.bufferSize else props.bufferSize;
    var r: int := RoundMagnitude(m);
    RoundMagnitudeNearest(m);
    RoundMagnitudeBelow(m);
    var x := if props.bufferSize < 0 then -r else r;
    assert RoundToF32(props.bufferSize) == x;
    assert BufferInExtent(props) == 8 * x;
    assert BufferInExtent(props) / 8 == x;
  }

  /** Buffers of `2^28 - 8` or more in magnitude round to at least `2^28`, whose eighth
      multiple no longer fits in an `i32`: the cast saturates. */
  lemma BufferInExtentSaturates(props: DataLayerProperties)
    ensures props.bufferSize >= TwoTo24 * 16 - 8 ==> BufferInExtent(props) == 0x7FFF_FFFF
    ensures props.bufferSize <= -(TwoTo24 * 16 - 8) ==> BufferInExtent(props) == -0x8000_0000
  {
    var b := props.bufferSize;
    if b >= TwoTo24 * 16 - 8 {
      RoundMagnitudeAbove(b);
    } else if b <= -(TwoTo24 * 16 - 8) {
      RoundMagnitudeAbove(-b);
    }
  }
}
