/** How often the statement holds the two function calls it is built from, and which
    placeholders it can no longer hold, for every TM2 source. */
module Tm2Patterns {
  import opened Strings
  import opened Tm2
  import opened Tm2Laws

  const MvtCall: string := "ST_AsMVT("
  const MvtGeomCall: string := "ST_AsMVTGeom("

  // ---------------------------------------------------------------------------
  // Characters missing from the fixed pieces

  /** `c` is missing from every fixed piece of a layer's query except `geometry`. */
  predicate QueryPiecesLack(c: char) {
    c !in BboxNoBufferToken && c !in ScaleDenominatorToken && c !in PixelWidthToken
    && c !in BboxToken && c !in TileEnvelope && c !in "$1" && c !in "$4"
    && c !in MarginHead && c !in ")" && c !in GeomTail
  }

  /** `c` is missing from every fixed piece of the statement around the queries, apart from
      `SELECT ST_AsMVT(t.*, '`. */
  predicate SelectPiecesLack(c: char) {
    c !in NoKeyMiddle && c !in KeyMiddle && c !in KeyTail && c !in SelectTail
    && c !in StatementHead && c !in StatementTail && c !in UnionAll
  }

  lemma QueryPiecesAvoidVy()
    ensures Avoids(BboxNoBufferToken, "Vy") && Avoids(ScaleDenominatorToken, "Vy")
    ensures Avoids(PixelWidthToken, "Vy") && Avoids(BboxToken, "Vy") && Avoids(TileEnvelope, "Vy")
  {
  }

  lemma QueryTextsAvoidVy()
    ensures Avoids("$1", "Vy") && Avoids("$4", "Vy") && Avoids(MarginHead, "Vy") && Avoids(")", "Vy")
    ensures Avoids(GeomTail, "Vy") && Avoids(GeometryToken, "Vl")
  {
  }

  lemma QueryPiecesLackV()
    ensures QueryPiecesLack('V') && QueryPiecesLack('y') && 'V' !in GeometryToken && 'l' !in GeometryToken
  {
    QueryPiecesAvoidVy();
    QueryTextsAvoidVy();
  }

  const SelectLacks: string := "Vyd!"

  lemma KeyPiecesAvoid()
    ensures Avoids(NoKeyMiddle, SelectLacks) && Avoids(KeyMiddle, SelectLacks) && Avoids(KeyTail, SelectLacks)
  {
  }

  lemma OuterPiecesAvoid()
    ensures Avoids(SelectTail, SelectLacks) && Avoids(StatementHead, SelectLacks)
    ensures Avoids(StatementTail, SelectLacks) && Avoids(UnionAll, SelectLacks)
  {
  }

  /** `c` is missing from the pieces around the queries for each `c` of `V`, `y`, `d`, `!`. */
  lemma SelectPiecesLackAll(c: char)
    requires c in SelectLacks
    ensures SelectPiecesLack(c)
  {
    KeyPiecesAvoid();
    OuterPiecesAvoid();
  }

  // ---------------------------------------------------------------------------
  // Readiness from the pattern's characters

  /** The first characters of the fixed pieces, and their last characters apart from the
      `y`, `m`, `t` and `a` that some patterns hold: all pieces, and the pieces around the
      queries only. */
  const PieceStarts: string := "g!zS$),' "
  const PieceEnds: string := "!)14 '("
  const SelectStarts: string := "S') "
  const SelectEnds: string := "'( "

  /** A pattern is ready for the query count when no fixed piece can start inside it after
      its first character or end inside it before its last, and it has a character each
      piece lacks. */
  lemma QueryReadyByChars(p: string, tail: string, init: string, c: char, g: char)
    requires |p| > 1 && tail == p[1..] && init == p[..|p| - 1]
    requires NumeralFree(p) && c in p && g in p
    requires QueryPiecesLack(c) && g !in GeometryToken
    requires Avoids(tail, PieceStarts) && Avoids(init, PieceEnds)
    requires 'y' !in init || p[0] !in GeometryToken
    requires 'm' !in init || p[0] !in GeomTail
    ensures QueryReady(p)
  {
    assert 'g' in PieceStarts && '!' in PieceStarts && 'z' in PieceStarts && 'S' in PieceStarts;
    assert '$' in PieceStarts && ')' in PieceStarts && ',' in PieceStarts;
    assert '!' in PieceEnds && ')' in PieceEnds && '1' in PieceEnds && '4' in PieceEnds && ' ' in PieceEnds;
    InertByChars(GeometryToken, p, g);
    InertByChars(BboxNoBufferToken, p, c);
    InertByChars(ScaleDenominatorToken, p, c);
    InertByChars(PixelWidthToken, p, c);
    InertByChars(BboxToken, p, c);
    InertByChars(TileEnvelope, p, c);
    InertByChars("$1", p, c);
    InertByChars("$4", p, c);
    InertByChars(MarginHead, p, c);
    InertByChars(")", p, c);
    EntryByFirstChar(GeomHead, p);
    InertByChars(GeomTail, p, c);
  }

  /** The same for the statement's pieces around the queries. */
  lemma SelectReadyByChars(p: string, tail: string, init: string, c: char)
    requires |p| > 1 && tail == p[1..] && init == p[..|p| - 1]
    requires c in p && SelectPiecesLack(c)
    requires Avoids(tail, SelectStarts) && Avoids(init, SelectEnds)
    requires 't' !in init || p[0] !in SelectTail
    requires 'a' !in init || p[0] !in StatementTail
    ensures SelectReady(p)
  {
    assert 'S' in SelectStarts && '\'' in SelectStarts && ')' in SelectStarts && ' ' in SelectStarts;
    assert '\'' in SelectEnds && '(' in SelectEnds && ' ' in SelectEnds;
    GuardedByChars(SelectHead, p);
    InertByChars(NoKeyMiddle, p, c);
    InertByChars(KeyMiddle, p, c);
    InertByChars(KeyTail, p, c);
    InertByChars(SelectTail, p, c);
    InertByChars(StatementHead, p, c);
    InertByChars(StatementTail, p, c);
    InertByChars(UnionAll, p, c);
  }

  // ---------------------------------------------------------------------------
  // `ST_AsMVT(`

  lemma MvtCallSlices()
    ensures "T_AsMVT(" == MvtCall[1..] && "ST_AsMVT" == MvtCall[..|MvtCall| - 1] && 'V' in MvtCall
  {
  }

  lemma MvtCallEnds()
    ensures Avoids("T_AsMVT(", PieceStarts) && Avoids("ST_AsMVT", PieceEnds) && Avoids("ST_AsMVT", "ymta")
    ensures Avoids("T_AsMVT(", SelectStarts) && Avoids("ST_AsMVT", SelectEnds)
  {
  }

  lemma MvtCallQueryReady()
    ensures QueryReady(MvtCall)
  {
    QueryPiecesLackV();
    MvtCallNumeralFree();
    MvtCallSlices();
    MvtCallEnds();
    QueryReadyByChars(MvtCall, "T_AsMVT(", "ST_AsMVT", 'V', 'V');
  }

  lemma MvtCallSelectReady()
    ensures SelectReady(MvtCall)
  {
    SelectPiecesLackAll('V');
    MvtCallSlices();
    MvtCallEnds();
    SelectReadyByChars(MvtCall, "T_AsMVT(", "ST_AsMVT", 'V');
  }

  lemma MvtCallNumeralFree()
    ensures NumeralFree(MvtCall)
  {
  }

  lemma SelectHeadSplit()
    ensures SelectHead == "SELECT " + MvtCall + "t.*, '"
  {
    assert "ST_AsMVT(t.*, '" == MvtCall + "t.*, '";
  }

  /** `SELECT ST_AsMVT(t.*, '` holds the call once; the geometry column does not. */
  lemma MvtCallFixedCounts()
    ensures Count(SelectHead, MvtCall) == 1 && Count(GeomHead, MvtCall) == 0
  {
    var p := MvtCall;
    GuardedByChars(p, p);
    CountSelf(p);
    SelectHeadSplit();
    CountZeroByChar("SELECT ", p, '(');
    CountZeroByChar("t.*, '", p, 'S');
    CountAround("SELECT ", p, "t.*, '", p);
    CountZeroByProbe(GeomHead, p, 8);
  }

  /** The statement calls `ST_AsMVT(` once per layer, plus as often as the layers' ids,
      key fields and table templates spell it out. */
  lemma MvtCallCount(source: TM2Source)
    ensures Count(PreparedStatementSql(source), MvtCall)
         == |source.layers| + SourceCount(source.layers, MvtCall)
  {
    MvtCallQueryReady();
    MvtCallSelectReady();
    MvtCallFixedCounts();
    StatementCountBySource(source, MvtCall);
  }

  // ---------------------------------------------------------------------------
  // `ST_AsMVTGeom(`

  lemma MvtGeomCallSlices()
    ensures "T_AsMVTGeom(" == MvtGeomCall[1..] && "ST_AsMVTGeom" == MvtGeomCall[..|MvtGeomCall| - 1]
    ensures 'V' in MvtGeomCall && 'G' in MvtGeomCall
  {
  }

  lemma MvtGeomCallEnds()
    ensures Avoids("T_AsMVTGeom(", PieceStarts) && Avoids("ST_AsMVTGeom", PieceEnds)
    ensures Avoids("ST_AsMVTGeom", "yta")
    ensures Avoids("T_AsMVTGeom(", SelectStarts) && Avoids("ST_AsMVTGeom", SelectEnds)
  {
  }

  lemma MvtGeomCallNumeralFree()
    ensures NumeralFree(MvtGeomCall) && 'S' !in GeomTail
  {
  }

  lemma MvtGeomCallQueryReady()
    ensures QueryReady(MvtGeomCall)
  {
    QueryPiecesLackV();
    MvtGeomCallNumeralFree();
    MvtGeomCallSlices();
    MvtGeomCallEnds();
    QueryReadyByChars(MvtGeomCall, "T_AsMVTGeom(", "ST_AsMVTGeom", 'V', 'V');
  }

  lemma MvtGeomCallSelectReady()
    ensures SelectReady(MvtGeomCall)
  {
    SelectPiecesLackAll('V');
    MvtGeomCallSlices();
    MvtGeomCallEnds();
    SelectReadyByChars(MvtGeomCall, "T_AsMVTGeom(", "ST_AsMVTGeom", 'V');
  }

  lemma GeomHeadSplit()
    ensures GeomHead == MvtGeomCall + "geometry,!bbox_nobuffer!,4096,"
  {
  }

  lemma SelectHeadLacksG()
    ensures 'G' !in SelectHead && 'S' !in "geometry,!bbox_nobuffer!,4096,"
  {
  }

  /** The geometry column holds the call once; `SELECT ST_AsMVT(t.*, '` does not. */
  lemma MvtGeomCallFixedCounts()
    ensures Count(SelectHead, MvtGeomCall) == 0 && Count(GeomHead, MvtGeomCall) == 1
  {
    var p, rest := MvtGeomCall, "geometry,!bbox_nobuffer!,4096,";
    MvtGeomCallSlices();
    MvtGeomCallEnds();
    SelectHeadLacksG();
    CountZeroByChar(SelectHead, p, 'G');
    GuardedByChars(p, p);
    CountSelf(p);
    CountZeroByChar(rest, p, 'S');
    CountFront(p, rest, p);
    GeomHeadSplit();
  }

  /** The statement calls `ST_AsMVTGeom(` once per `geometry` in the table templates, plus
      as often as the layers' ids, key fields and templates spell it out. */
  lemma MvtGeomCallCount(source: TM2Source)
    ensures Count(PreparedStatementSql(source), MvtGeomCall)
         == SourceCount(source.layers, MvtGeomCall) + GeometryCount(source.layers)
  {
    MvtGeomCallQueryReady();
    MvtGeomCallSelectReady();
    MvtGeomCallFixedCounts();
    StatementCountBySource(source, MvtGeomCall);
  }

  // ---------------------------------------------------------------------------
  // Placeholders in the whole statement

  /** The `!`-delimited placeholders whose last character cannot be supplied by the text
      that follows a query. */
  predicate BangPlaceholder(p: string) {
    p == BboxNoBufferToken || p == PixelWidthToken || p == BboxToken
  }

  /** What a layer's id and key field contribute, the only text of a row besides its
      query that comes from the source. */
  function NamesCount(layers: seq<DataLayer>, p: string): (n: nat)
    requires |p| > 0
    decreases |layers|
  {
    if |layers| == 0 then 0
    else Count(layers[0].id, p) + Count(layers[0].source.keyField, p) + NamesCount(layers[1..], p)
  }

  /** No compiled query holds a placeholder, so the rows hold one only where an id or key
      field spells it out. */
  lemma {:induction false} RowsCountPlaceholder(layers: seq<DataLayer>, p: string)
    requires p == BboxNoBufferToken || p == ScaleDenominatorToken || p == PixelWidthToken || p == BboxToken
    ensures RowsCount(layers, p) == NamesCount(layers, p)
    decreases |layers|
  {
    if |layers| > 0 {
      var layer, rest := layers[0], layers[1..];
      assert RowsCount(layers, p)
          == Count(layer.id, p) + Count(layer.source.keyField, p) + Count(LayerQuery(layer), p) + RowsCount(rest, p);
      assert NamesCount(layers, p) == Count(layer.id, p) + Count(layer.source.keyField, p) + NamesCount(rest, p);
      if p == BboxNoBufferToken {
        QueryHasNoBboxNoBuffer(layer);
      } else if p == ScaleDenominatorToken {
        QueryHasNoScaleDenominator(layer);
      } else if p == PixelWidthToken {
        QueryHasNoPixelWidth(layer);
      } else {
        QueryHasNoBbox(layer);
      }
      RowsCountPlaceholder(rest, p);
    }
  }

  lemma BangSlices()
    ensures "bbox_nobuffer!" == BboxNoBufferToken[1..] && "!bbox_nobuffer" == BboxNoBufferToken[..|BboxNoBufferToken| - 1]
    ensures "pixel_width!" == PixelWidthToken[1..] && "!pixel_width" == PixelWidthToken[..|PixelWidthToken| - 1]
    ensures "bbox!" == BboxToken[1..] && "!bbox" == BboxToken[..|BboxToken| - 1]
  {
  }

  lemma BangEnds()
    ensures Avoids("bbox_nobuffer!", SelectStarts) && Avoids("!bbox_nobuffer", SelectEnds)
    ensures Avoids("pixel_width!", SelectStarts) && Avoids("!pixel_width", SelectEnds)
    ensures Avoids("bbox!", SelectStarts) && Avoids("!bbox", SelectEnds)
  {
  }

  lemma BangFirst(p: string)
    requires BangPlaceholder(p)
    ensures |p| > 1 && p[0] == '!' && '!' !in SelectHead
  {
  }

  lemma BangSelectReady(p: string)
    requires BangPlaceholder(p)
    ensures SelectReady(p)
  {
    SelectPiecesLackAll('!');
    BangSlices();
    BangEnds();
    BangFirst(p);
    if p == BboxNoBufferToken {
      SelectReadyByChars(p, "bbox_nobuffer!", "!bbox_nobuffer", '!');
    } else if p == PixelWidthToken {
      SelectReadyByChars(p, "pixel_width!", "!pixel_width", '!');
    } else {
      SelectReadyByChars(p, "bbox!", "!bbox", '!');
    }
  }

  /** The statement holds `!bbox_nobuffer!`, `!pixel_width!` or `!bbox!` exactly as often as
      the layers' ids and key fields, which are spliced in verbatim, spell it out. */
  lemma StatementPlaceholderCount(source: TM2Source, p: string)
    requires BangPlaceholder(p)
    ensures Count(PreparedStatementSql(source), p) == NamesCount(source.layers, p)
  {
    BangSelectReady(p);
    BangFirst(p);
    CountZeroByChar(SelectHead, p, '!');
    StatementCount(source, p);
    RowsCountPlaceholder(source.layers, p);
  }

  lemma {:induction false} NamesCountZero(layers: seq<DataLayer>, p: string)
    requires |p| > 0 && '!' in p
    requires forall i :: 0 <= i < |layers| ==> '!' !in layers[i].id && '!' !in layers[i].source.keyField
    ensures NamesCount(layers, p) == 0
    decreases |layers|
  {
    if |layers| > 0 {
      CountZeroByChar(layers[0].id, p, '!');
      CountZeroByChar(layers[0].source.keyField, p, '!');
      NamesCountZero(layers[1..], p);
    }
  }

  /** When no id or key field holds a `!`, none of these placeholders survives into the
      statement. */
  lemma StatementHasNoPlaceholders(source: TM2Source, p: string)
    requires BangPlaceholder(p)
    requires forall i :: 0 <= i < |source.layers| ==>
      '!' !in source.layers[i].id && '!' !in source.layers[i].source.keyField
    ensures !Contains(PreparedStatementSql(source), p)
  {
    BangFirst(p);
    StatementPlaceholderCount(source, p);
    NamesCountZero(source.layers, p);
    CountZeroIff(PreparedStatementSql(source), p);
  }

  // ---------------------------------------------------------------------------
  // Template text that survives

  lemma {:induction false} SourceCountCovers(layers: seq<DataLayer>, i: nat, p: string)
    requires |p| > 0 && i < |layers|
    ensures Count(layers[i].source.table, p) <= SourceCount(layers, p)
    decreases i
  {
    var rest := layers[1..];
    assert SourceCount(layers, p)
        == Count(layers[0].id, p) + Count(layers[0].source.keyField, p) + Count(layers[0].source.table, p)
           + SourceCount(rest, p);
    if i > 0 {
      assert rest[i - 1] == layers[i];
      SourceCountCovers(rest, i - 1, p);
    }
  }

  /** Text of a template that no substitution and no fixed piece can disturb reaches the
      statement. */
  lemma TemplateTextSurvives(source: TM2Source, i: nat, p: string)
    requires QueryReady(p) && SelectReady(p)
    requires i < |source.layers| && Contains(source.layers[i].source.table, p)
    ensures Contains(PreparedStatementSql(source), p)
  {
    var sql := PreparedStatementSql(source);
    ContainsCountPositive(source.layers[i].source.table, p);
    SourceCountCovers(source.layers, i, p);
    StatementCountBySource(source, p);
    MulNonneg(|source.layers|, Count(SelectHead, p));
    MulNonneg(GeometryCount(source.layers), Count(GeomHead, p));
    CountPositiveContains(sql, p);
  }

  lemma MulNonneg(a: nat, b: nat)
    ensures a * b >= 0
  {
  }

  /** The layer's id, key field and template all lack `c`. */
  predicate LayerLacks(layer: DataLayer, c: char) {
    c !in layer.id && c !in layer.source.keyField && c !in layer.source.table
  }

  /** A pattern with a character that no id, key field or template holds. */
  lemma {:induction false} SourceCountZero(layers: seq<DataLayer>, p: string, c: char)
    requires |p| > 0 && c in p
    requires forall i :: 0 <= i < |layers| ==> LayerLacks(layers[i], c)
    ensures SourceCount(layers, p) == 0
    decreases |layers|
  {
    if |layers| > 0 {
      assert LayerLacks(layers[0], c);
      CountZeroByChar(layers[0].id, p, c);
      CountZeroByChar(layers[0].source.keyField, p, c);
      CountZeroByChar(layers[0].source.table, p, c);
      assert forall i :: 0 <= i < |layers[1..]| ==> layers[1..][i] == layers[i + 1];
      SourceCountZero(layers[1..], p, c);
    }
  }

  // ---------------------------------------------------------------------------
  // The `UNION ALL` separators

  const UnionWord: string := "UNION"

  lemma UnionWordSlices()
    ensures "NION" == UnionWord[1..] && "UNIO" == UnionWord[..|UnionWord| - 1] && 'U' in UnionWord
  {
  }

  lemma UnionWordEnds()
    ensures Avoids("NION", PieceStarts) && Avoids("UNIO", PieceEnds) && Avoids("UNIO", "ymt")
    ensures Avoids("NION", SelectStarts) && Avoids("UNIO", SelectEnds)
  {
  }

  lemma UnionWordNumeralFree()
    ensures NumeralFree(UnionWord)
  {
  }

  lemma QueryPiecesAvoidU()
    ensures Avoids(BboxNoBufferToken, "U") && Avoids(ScaleDenominatorToken, "U")
    ensures Avoids(PixelWidthToken, "U") && Avoids(BboxToken, "U") && Avoids(TileEnvelope, "U")
    ensures Avoids("$1", "U") && Avoids("$4", "U") && Avoids(MarginHead, "U") && Avoids(")", "U")
    ensures Avoids(GeomTail, "U") && Avoids(GeometryToken, "U")
  {
  }

  lemma RowPiecesAvoidU()
    ensures Avoids(SelectHead, "U") && Avoids(GeomHead, "U")
    ensures Avoids(NoKeyMiddle, "U") && Avoids(KeyMiddle, "U") && Avoids(KeyTail, "U") && Avoids(SelectTail, "U")
  {
  }

  lemma UnionWordQueryReady()
    ensures QueryReady(UnionWord)
  {
    QueryPiecesAvoidU();
    assert QueryPiecesLack('U') && 'U' !in GeometryToken;
    UnionWordSlices();
    UnionWordEnds();
    UnionWordNumeralFree();
    QueryReadyByChars(UnionWord, "NION", "UNIO", 'U', 'U');
  }

  lemma UnionWordRowReady()
    ensures RowReady(UnionWord)
  {
    var p := UnionWord;
    RowPiecesAvoidU();
    UnionWordSlices();
    UnionWordEnds();
    assert 'S' in SelectStarts && '\'' in SelectStarts && ')' in SelectStarts;
    assert '\'' in SelectEnds && '(' in SelectEnds;
    GuardedByChars(SelectHead, p);
    InertByChars(NoKeyMiddle, p, 'U');
    InertByChars(KeyMiddle, p, 'U');
    InertByChars(KeyTail, p, 'U');
    InertByChars(SelectTail, p, 'U');
  }

  /** ` UNION ALL ` holds the word once and cannot be straddled by it. */
  lemma UnionAllCount()
    ensures Guarded(UnionAll, UnionWord) && Count(UnionAll, UnionWord) == 1
  {
    var p := UnionWord;
    UnionWordSlices();
    assert UnionAll == " " + p + " ALL ";
    GuardedByChars(" ", p);
    GuardedByChars(" ALL ", p);
    CountZeroByChar(" ALL ", p, 'U');
    CountSelf(p);
    CountEnclosed(" ", p, " ALL ", p);
    GuardedByChars(UnionAll, p);
  }

  const AggregateFront: string := "SELECT STRING_AGG(a.mvt, "
  const AggregateBack: string := "NULL) FROM ("

  lemma AggregateSplit()
    ensures StatementHead == AggregateFront + AggregateBack
  {
  }

  lemma AggregateChars()
    ensures Avoids(AggregateFront, "U") && Avoids(AggregateBack, "I") && Avoids(StatementTail, "U")
    ensures AggregateFront[0] == 'S' && AggregateFront[|AggregateFront| - 1] == ' '
    ensures StatementHead[0] == 'S' && StatementHead[|StatementHead| - 1] == '('
    ensures StatementTail[0] == ')' && StatementTail[|StatementTail| - 1] == 'a'
  {
  }

  /** The aggregation around the rows holds no pattern with a `U` and an `I` that it cannot
      straddle, although it holds each of those letters. */
  lemma StatementEndsInert(p: string, tail: string, init: string)
    requires |p| > 1 && tail == p[1..] && init == p[..|p| - 1] && 'U' in p && 'I' in p
    requires Avoids(tail, "S)") && Avoids(init, " (a")
    ensures Inert(StatementHead, p) && Inert(StatementTail, p)
  {
    AggregateChars();
    assert 'S' in "S)" && ')' in "S)" && ' ' in " (a" && '(' in " (a" && 'a' in " (a";
    GuardedByChars(AggregateFront, p);
    AggregateSplit();
    CountFront(AggregateFront, AggregateBack, p);
    CountZeroByChar(AggregateFront, p, 'U');
    CountZeroByChar(AggregateBack, p, 'I');
    GuardedByChars(StatementHead, p);
    InertByChars(StatementTail, p, 'U');
  }

  /** The rows hold a pattern with a `U` only where the ids, key fields and templates spell
      it out. */
  lemma UnionRowsCount(layers: seq<DataLayer>, p: string)
    requires RowReady(p) && QueryReady(p) && 'U' in p
    ensures SumCounts(LayerSelects(layers), p) == SourceCount(layers, p)
  {
    HeadsLackU();
    CountZeroByChar(SelectHead, p, 'U');
    CountZeroByChar(GeomHead, p, 'U');
    SelectsCount(layers, p);
    RowsCountBySource(layers, p);
    assert |layers| * Count(SelectHead, p) == 0 && GeometryCount(layers) * Count(GeomHead, p) == 0;
  }

  lemma HeadsLackU()
    ensures 'U' !in SelectHead && 'U' !in GeomHead
  {
    RowPiecesAvoidU();
  }

  lemma UnionWordOuterEnds()
    ensures Avoids("NION", "S)") && Avoids("UNIO", " (a") && 'I' in UnionWord
  {
  }

  /** `UNION` occurs in the statement once per separator, one fewer times than there are
      layers, plus as often as the ids, key fields and templates spell it out. */
  lemma StatementUnionCount(source: TM2Source)
    ensures Count(PreparedStatementSql(source), UnionWord)
         == Separators(|source.layers|) + SourceCount(source.layers, UnionWord)
  {
    UnionAllCount();
    UnionWordSlices();
    UnionWordOuterEnds();
    StatementEndsInert(UnionWord, "NION", "UNIO");
    StatementSeparatorCount(source, UnionWord);
    UnionWordRowReady();
    UnionWordQueryReady();
    UnionRowsCount(source.layers, UnionWord);
  }

  /** When no id, key field or template holds a `U`, the statement holds `UNION` exactly
      once between each two consecutive layers' rows. */
  lemma StatementSeparators(source: TM2Source)
    requires forall i :: 0 <= i < |source.layers| ==> LayerLacks(source.layers[i], 'U')
    ensures Count(PreparedStatementSql(source), UnionWord) == Separators(|source.layers|)
    ensures |source.layers| > 0 ==> Count(PreparedStatementSql(source), UnionWord) == |source.layers| - 1
  {
    StatementUnionCount(source);
    UnionWordSlices();
    SourceCountZero(source.layers, UnionWord, 'U');
  }
}
