/** The TileMill 2 (`.tm2source`) data-source model and its compiler into one PostGIS
    statement that renders every layer of a vector tile.

    The compiled statement expects the bind parameters $1 = zoom, $2 = x, $3 = y and
    $4 = pixel scale; binding and running it is database I/O and is not modelled. */
module Tm2 {
  import opened Strings
  import opened Numeric

  const TileExtent: int := 4096
  const TileSize: int := 512

  /** A layer's data source: a wrapped sub-query template and an optional key column
      (the empty string when absent). */
  datatype LayerSource = LayerSource(table: string, keyField: string)

  /** `buffer-size`, in pixels of a 512-pixel tile. */
  datatype DataLayerProperties = DataLayerProperties(bufferSize: I64)

  datatype DataLayer = DataLayer(id: string, properties: DataLayerProperties, source: LayerSource)

  /** The whole source description. `center` and `bounds` are `f64` triples/quadruples that
      the compiler never reads; they are carried as reals. */
  datatype TM2Source = TM2Source(
    name: string,
    pixelScale: I64,
    layers: seq<DataLayer>,
    attribution: string,
    minZoom: I64,
    maxZoom: I64,
    center: seq<real>,
    bounds: seq<real>)

  // ---------------------------------------------------------------------------
  // Table-template extraction (TM2Source::from)

  /** Unicode `White_Space`, the set `str::trim` removes. */
  predicate IsWhitespace(c: char) {
    c == ' ' || ('\t' <= c <= '\r') || c == '\U{0085}' || c == '\U{00A0}' || c == '\U{1680}'
    || ('\U{2000}' <= c <= '\U{200A}') || c == '\U{2028}' || c == '\U{2029}'
    || c == '\U{202F}' || c == '\U{205F}' || c == '\U{3000}'
  }

  function TrimStart(s: string): (t: string)
    ensures |t| <= |s| && t == s[|s| - |t|..]
    ensures |t| > 0 ==> !IsWhitespace(t[0])
    ensures forall k :: 0 <= k < |s| - |t| ==> IsWhitespace(s[k])
    decreases |s|
  {
    if |s| > 0 && IsWhitespace(s[0]) then TrimStart(s[1..]) else s
  }

  function TrimEnd(s: string): (t: string)
    ensures t <= s
    ensures |t| > 0 ==> !IsWhitespace(t[|t| - 1])
    ensures forall k :: |t| <= k < |s| ==> IsWhitespace(s[k])
    decreases |s|
  {
    if |s| > 0 && IsWhitespace(s[|s| - 1]) then TrimEnd(s[..|s| - 1]) else s
  }

  /** `str::trim`: neither end of the result is whitespace. */
  function Trim(s: string): (t: string)
    ensures |t| <= |s|
    ensures |t| > 0 ==> !IsWhitespace(t[0]) && !IsWhitespace(t[|t| - 1])
  {
    TrimEnd(TrimStart(s))
  }

  /** One iteration of the loop in `TM2Source::from`:
      `table.trim().chars().skip(1).take(table.len() - 7)`. The count handed to `take`
      is the UNTRIMMED length in UTF-8 bytes, minus 7; a table shorter than 7 bytes makes
      the `usize` subtraction underflow, which panics, hence the precondition. */
  function StripTable(table: string): (stripped: string)
    requires Utf8Len(table) >= 7
    ensures |stripped| <= Utf8Len(table) - 7
  {
    var trimmed := Trim(table);
    var skipped := if |trimmed| == 0 then "" else trimmed[1..];
    var n := Utf8Len(table) - 7;
    if n < |skipped| then skipped[..n] else skipped
  }

  function StripLayer(layer: DataLayer): DataLayer
    requires Utf8Len(layer.source.table) >= 7
  {
    layer.(source := layer.source.(table := StripTable(layer.source.table)))
  }

  /** A table without surrounding whitespace loses its first character, and is then cut to
      `len - 7` characters where `len` counts bytes: each multi-byte character lets one
      more character of the closing text through. */
  lemma StripTableUnwrapped(table: string)
    requires Utf8Len(table) >= 7 && |table| > 0
    requires !IsWhitespace(table[0]) && !IsWhitespace(table[|table| - 1])
    ensures Utf8Len(table) - 6 <= |table| ==> StripTable(table) == table[1..Utf8Len(table) - 6]
    ensures Utf8Len(table) - 6 > |table| ==> StripTable(table) == table[1..]
  {
    assert TrimStart(table) == table;
    assert TrimEnd(table) == table;
  }

  /** On ASCII text, the first character and the last six go: `table[1 .. L-6]`, of
      length `L - 7`. */
  lemma StripTableAscii(table: string)
    requires |table| >= 7 && IsAscii(table)
    requires !IsWhitespace(table[0]) && !IsWhitespace(table[|table| - 1])
    ensures Utf8Len(table) == |table|
    ensures StripTable(table) == table[1..|table| - 6]
    ensures |StripTable(table)| == |table| - 7
  {
    Utf8LenAscii(table);
    StripTableUnwrapped(table);
  }

  /** Round trip with the wrapping convention `(<query>) as t`: one opening character and a
      six-character closing, neither whitespace, come off and an ASCII query is returned
      intact. */
  lemma StripTableInvertsWrapping(query: string, open: char, close: string)
    requires |close| == 6 && !IsWhitespace(open) && !IsWhitespace(close[5])
    requires IsAscii([open] + query + close)
    ensures StripTable([open] + query + close) == query
  {
    var table := [open] + query + close;
    StripTableAscii(table);
    assert table[1..|table| - 6] == query;
  }

  /** With whitespace around the wrapped text, `take` still counts from the untrimmed
      length, so fewer than six closing characters are dropped: a trailing newline after
      `(<query>) as t` leaves `<query>)` behind. */
  lemma StripTableWithSurroundingWhitespace(lead: string, core: string, trail: string)
    requires forall k :: 0 <= k < |lead| ==> IsWhitespace(lead[k])
    requires forall k :: 0 <= k < |trail| ==> IsWhitespace(trail[k])
    requires |core| >= 7 && !IsWhitespace(core[0]) && !IsWhitespace(core[|core| - 1])
    requires |lead| + |trail| <= 6 && IsAscii(lead + core + trail)
    ensures StripTable(lead + core + trail) == core[1..|core| - 6 + |lead| + |trail|]
  {
    var table := lead + core + trail;
    Utf8LenAscii(table);
    assert Utf8Len(table) == |lead| + |core| + |trail|;
    TrimPadded(lead, core, trail);
    StripTrimmedTo(table, core);
  }

  /** When trimming leaves `core` and the byte budget ends inside it, the result is a
      prefix of `core` after its first character. */
  lemma StripTrimmedTo(table: string, core: string)
    requires Utf8Len(table) >= 7 && Trim(table) == core && Utf8Len(table) - 6 <= |core|
    ensures StripTable(table) == core[1..Utf8Len(table) - 6]
  {
  }

  lemma TrimPadded(lead: string, core: string, trail: string)
    requires forall k :: 0 <= k < |lead| ==> IsWhitespace(lead[k])
    requires forall k :: 0 <= k < |trail| ==> IsWhitespace(trail[k])
    requires |core| > 0 && !IsWhitespace(core[0]) && !IsWhitespace(core[|core| - 1])
    ensures Trim(lead + core + trail) == core
  {
    assert lead + core + trail == lead + (core + trail);
    TrimStartSkips(lead, core + trail);
    TrimEndSkips(core, trail);
  }

  lemma {:induction false} TrimStartSkips(ws: string, s: string)
    requires forall k :: 0 <= k < |ws| ==> IsWhitespace(ws[k])
    requires |s| > 0 && !IsWhitespace(s[0])
    ensures TrimStart(ws + s) == s
    decreases |ws|
  {
    if |ws| > 0 {
      assert (ws + s)[1..] == ws[1..] + s;
      TrimStartSkips(ws[1..], s);
    } else {
      assert ws + s == s;
    }
  }

  lemma {:induction false} TrimEndSkips(s: string, ws: string)
    requires forall k :: 0 <= k < |ws| ==> IsWhitespace(ws[k])
    requires |s| > 0 && !IsWhitespace(s[|s| - 1])
    ensures TrimEnd(s + ws) == s
    decreases |ws|
  {
    if |ws| > 0 {
      assert (s + ws)[..|s + ws| - 1] == s + ws[..|ws| - 1];
      TrimEndSkips(s, ws[..|ws| - 1]);
    } else {
      assert s + ws == s;
    }
  }

  /** `TM2Source::from` after YAML deserialisation: walk the layers and overwrite each
      layer's table with its stripped form, touching nothing else. */
  method From(parsed: TM2Source) returns (result: TM2Source)
    requires forall i :: 0 <= i < |parsed.layers| ==> Utf8Len(parsed.layers[i].source.table) >= 7
    ensures |result.layers| == |parsed.layers|
    ensures forall i :: 0 <= i < |parsed.layers| ==>
      result.layers[i].id == parsed.layers[i].id
      && result.layers[i].properties == parsed.layers[i].properties
      && result.layers[i].source.keyField == parsed.layers[i].source.keyField
      && result.layers[i].source.table == StripTable(parsed.layers[i].source.table)
    ensures result.(layers := parsed.layers) == parsed
  {
    var layers := parsed.layers;
    var i := 0;
    while i < |layers|
      invariant 0 <= i <= |layers| == |parsed.layers|
      invariant forall k :: 0 <= k < i ==> layers[k] == StripLayer(parsed.layers[k])
      invariant forall k :: i <= k < |layers| ==> layers[k] == parsed.layers[k]
    {
      var layer := layers[i];
      var stripped := layer.(source := layer.source.(table := StripTable(layer.source.table)));
      assert stripped == StripLayer(parsed.layers[i]);
      layers := layers[i := stripped];
      i := i + 1;
    }
    result := parsed.(layers := layers);
    assert forall i :: 0 <= i < |parsed.layers| ==> result.layers[i] == StripLayer(parsed.layers[i]);
  }

  // ---------------------------------------------------------------------------
  // Statement compilation (prepared_statement_sql)

  /** The placeholder tokens of a TM2 table template, in the order they are rewritten. */
  const GeometryToken: string := "geometry"
  const BboxNoBufferToken: string := "!bbox_nobuffer!"
  const ScaleDenominatorToken: string := "z(!scale_denominator!)"
  const PixelWidthToken: string := "!pixel_width!"
  const BboxToken: string := "!bbox!"

  /** `(buffer_size_as_tile_pct() * TILE_EXTENT as f32) as i32`. The buffer is converted to
      `f32` (rounding), divided by 512 and multiplied by 4096; both are powers of two, so
      those two steps are exact and the value is eight times the rounded buffer; the final
      cast saturates. */
  function BufferInExtent(props: DataLayerProperties): I32 {
    SaturateI32(RoundToF32(props.bufferSize) * 8)
  }

  /** `format!("{}", buffer_size_as_tile_pct())`: the decimal text of the `f32` value
      `buffer_size / 512`. */
  function TilePctText(props: DataLayerProperties): string {
    Over512Text(RoundToF32(props.bufferSize))
  }

  /** The text that replaces `geometry`: the clipped, tile-space geometry column. */
  function GeomColumn(props: DataLayerProperties): string {
    "ST_AsMVTGeom(" + "geometry,!bbox_nobuffer!,4096," + IntText(BufferInExtent(props)) + ",true) as geom"
  }

  /** The text that replaces `!bbox!`: the tile envelope with the layer's margin. */
  function BufferedEnvelope(props: DataLayerProperties): string {
    "ST_TileEnvelope($1, $2, $3, margin => " + TilePctText(props) + ")"
  }

  /** The layer's sub-query: five literal replacements applied in sequence. */
  function LayerQuery(layer: DataLayer): string {
    var withGeom := Replace(layer.source.table, GeometryToken, GeomColumn(layer.properties));
    var withTile := Replace(withGeom, BboxNoBufferToken, "ST_TileEnvelope($1, $2, $3)");
    var withZoom := Replace(withTile, ScaleDenominatorToken, "$1");
    var withPixel := Replace(withZoom, PixelWidthToken, "$4");
    Replace(withPixel, BboxToken, BufferedEnvelope(layer.properties))
  }

  /** The optional key argument of `ST_AsMVT`. */
  function KeyClause(keyField: string): (clause: string)
    ensures |clause| == 0 <==> |keyField| == 0
    ensures |keyField| > 0 ==>
      |clause| == |keyField| + 4 && clause[..3] == ", '" && clause[3..|clause| - 1] == keyField
      && clause[|clause| - 1] == '\''
  {
    if |keyField| > 0 then ", '" + keyField + "'" else ""
  }

  /** The `ST_AsMVT(...)` column of a layer's row. */
  function LayerColumn(id: string, keyField: string): string {
    "ST_AsMVT(t.*, '" + id + "', 4096, 'geom'" + KeyClause(keyField) + ")"
  }

  /** A row selecting `column` over the sub-query `query`. */
  function SelectRow(column: string, query: string): string {
    "SELECT " + column + " AS mvt FROM (" + query + ") as t"
  }

  /** One layer's row: its MVT blob. */
  function LayerSelect(layer: DataLayer): string {
    SelectRow(LayerColumn(layer.id, layer.source.keyField), LayerQuery(layer))
  }

  /** The per-layer statements, one per layer, in layer order. */
  function LayerSelects(layers: seq<DataLayer>): (selects: seq<string>)
    ensures |selects| == |layers|
    ensures forall i :: 0 <= i < |layers| ==> selects[i] == LayerSelect(layers[i])
    decreases |layers|
  {
    if |layers| == 0 then [] else [LayerSelect(layers[0])] + LayerSelects(layers[1..])
  }

  /** `prepared_statement_sql`: all layer rows, concatenated into one blob. */
  function PreparedStatementSql(source: TM2Source): string {
    "SELECT STRING_AGG(a.mvt, NULL) FROM (" + Join(LayerSelects(source.layers), " UNION ALL ") + ") a"
  }
}
