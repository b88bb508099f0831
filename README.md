# TM2 source compiler of tile_sorcerer, in Dafny

tile_sorcerer serves Mapbox Vector Tiles from PostGIS. It reads a TileMill 2
(`.tm2source`) description made of layers. Each layer has an id, a `buffer-size` and a
data source, which is a wrapped sub-query template with placeholder tokens plus an
optional key field. The description is compiled into a single SQL statement. For each
layer, that statement:

- rewrites the template's placeholders;
- clips the geometry with `ST_AsMVTGeom`;
- encodes the rows with `ST_AsMVT`.

It then joins every layer's row with `UNION ALL` and aggregates the result into one blob.

This project models that compiler, `src/tm2.rs`:

- the records `TM2Source`, `DataLayer`, `LayerSource` and `DataLayerProperties`;
- the table-stripping loop of `TM2Source::from`, as a `method` over the layer sequence;
- `buffer_size_as_tile_pct`, and the `f32` arithmetic and `as i32` cast around it;
- `prepared_statement_sql`: its five `str::replace` calls, the optional key clause, the
  `ST_AsMVT` column, the per-layer `SELECT` and the `UNION ALL` join.

The Rust string operations it relies on are modelled in the `Strings` module:

- `replace`: leftmost, non-overlapping, single pass;
- `matches().count()`, `contains`, `split`, `join` and `len` (a UTF-8 byte count).

The numeric side is in `Numeric`:

- `i64 as f32`, with ties to even;
- saturating `f32 as i32`;
- `{}` formatting of integers and of the exact `f32` values `n / 512`.

Files and modules:

- `strings.dfy` (`Strings`): the string model, and a counting theory for `replace` and `join`.
  If `p` cannot straddle `q` or `r`, then `Count(Replace(s, q, r), p) + k·Count(q, p) ==
  Count(s, p) + k·Count(r, p)`, where `k` is the number of replaced occurrences.
- `numeric.dfy` (`Numeric`): float rounding, the saturating cast and decimal text.
- `tm2.dfy` (`Tm2`): the records, `trim`, the strip loop (`Tm2.From`) and the statement
  compiler.
- `tm2_laws.dfy` (`Tm2Laws`):
  - which placeholders no compiled query can still hold;
  - how many times a pattern occurs in the statement, as a function of the layers' ids,
    key fields and templates;
  - the buffer argument.
- `tm2_patterns.dfy` (`Tm2Patterns`):
  - that law instantiated for `ST_AsMVT(` and `ST_AsMVTGeom(`;
  - the statement-level absence of the `!`-delimited placeholders;
  - the survival of template text.
- `tm2_fixture.dfy` (`Tm2Fixture`): the three-layer source of the unit test in
  `src/tm2.rs`, with each of that test's assertions derived from the general laws.

The compiled statement expects four bind parameters: `$1` = zoom, `$2` = x, `$3` = y and
`$4` = pixel scale. Binding and running it is database I/O and is not modelled.

Two details of the code that the model keeps:

- each query computes its buffered envelope inside the statement, as
  `ST_TileEnvelope($1, $2, $3, margin => ...)`, from the bound scalars;
- `TM2Source::from` cuts the trimmed table at `len() - 7`, where `len()` counts the
  **bytes** of the untrimmed table (see `Tm2.StripTableWithSurroundingWhitespace`).

## Model

| member | source | states |
|---|---|---|
| Strings.Count | src/tm2.rs:232-234 | `matches().count()`, leftmost and non-overlapping: positive exactly when the pattern occurs (`CountPositiveContains`, `ContainsCountPositive`, `CountZeroIff`) and additive over unstraddled seams (`CountJoin`, `ReplaceCount`) |
| Strings.Contains | src/tm2.rs:229-231 | `str::contains`: some index where the pattern occurs; tied to `Count` by `CountZeroIff` |
| Strings.Replace | src/tm2.rs:101-111 | `str::replace`: its partner `ReplaceIsJoinOfSplit` shows it is the join of `split` with the replacement, so a single pass that never rescans inserted text |
| Strings.Split | src/tm2.rs:101-111 | `str::split`: at least one piece, the first a prefix of the text; `SplitLength`, `SplitPiecesFree` and `SplitJoinRoundTrip` give the piece count, token-free pieces and the round trip |
| Strings.Join | src/tm2.rs:128-131 | `join`: its count of a pattern is given by `CountJoin`, and its containment by `ContainsInJoin` |
| Strings.Utf8Len | src/tm2.rs:79 | `str::len`: the UTF-8 byte length lies between the character count and four times it |
| Strings.Utf8LenAscii | src/tm2.rs:79 | the byte length equals the character count exactly when every character is ASCII |
| Strings.ReplaceIsJoinOfSplit | src/tm2.rs:101-111 | `replace` is a single pass: the text is cut at the leftmost, non-overlapping occurrences, and each one becomes one copy of the replacement, which is never rescanned |
| Strings.ReplaceSelf | src/tm2.rs:101-111 | replacing a token by itself gives the text back |
| Strings.SplitLength | src/tm2.rs:101-111 | there is one more piece than there are (counted) occurrences |
| Strings.SplitPiecesFree | src/tm2.rs:101-111 | no piece between replaced occurrences still holds the token |
| Strings.SplitJoinRoundTrip | src/tm2.rs:101-111 | joining the pieces with the token restores the text |
| Strings.CountPositiveContains | src/tm2.rs:229-234 | a positive `matches().count()` implies `contains` |
| Strings.ContainsCountPositive | src/tm2.rs:229-234 | `contains` implies a positive count |
| Strings.CountZeroIff | src/tm2.rs:229-234 | the count is zero if and only if the pattern does not occur |
| Strings.CountJoin | src/tm2.rs:128-131 | the count in a `join` is the pieces' counts plus the separators' counts, when the separator is guarded against the pattern |
| Strings.ContainsInJoin | src/tm2.rs:128-131 | whatever a piece contains, the joined text contains |
| Strings.ReplaceCount | src/tm2.rs:101-111 | the counting law: the count after replacing k occurrences of q by r, plus k times q's count, equals the count before plus k times r's count |
| Strings.ReplaceKeepsCount | src/tm2.rs:101-111 | a replacement that the pattern cannot touch leaves the pattern's count unchanged |
| Strings.ReplaceRemoves | src/tm2.rs:101-111 | after replacing q by a text that cannot form, start or finish q, no q remains |
| Strings.ReplaceKeepsAbsent | src/tm2.rs:101-111 | an absent pattern stays absent when the replacement cannot form it |
| Strings.ReplaceAbsent | src/tm2.rs:101-111 | replacing a token that does not occur changes nothing |
| Numeric.RoundToF32 | src/tm2.rs:63 | `i64 as f32`, as the integer the float holds; `RoundMagnitudeNearest` states the rounding, `RoundToF32Exact` the exact range |
| Numeric.RoundMagnitudeNearest | src/tm2.rs:63 | `i64 as f32` yields a 24-bit significand times the spacing, within half a spacing of the input; strictly nearer than every other `f32` off a tie, and with an even significand on a tie |
| Numeric.RoundMagnitudeBelow | src/tm2.rs:63 | magnitudes below 2^28 - 8 round to at most 2^28 - 16 |
| Numeric.RoundMagnitudeAbove | src/tm2.rs:63 | magnitudes from 2^28 - 8 on round to at least 2^28 (2^28 - 8 is a tie that goes to the even significand 2^24) |
| Numeric.RoundToF32Exact | src/tm2.rs:63 | integers up to 2^24 in magnitude convert to `f32` exactly |
| Numeric.SaturateI32 | src/tm2.rs:94 | `as i32` keeps in-range values and saturates at the bounds |
| Numeric.NatText | src/tm2.rs:92-97 | `{}` of a natural number gives decimal digits with no leading zero |
| Numeric.IntText | src/tm2.rs:92-97 | `{}` of an `i32`: digits with a leading `-` exactly for negatives |
| Numeric.IntTextRoundTrip | src/tm2.rs:92-97 | the digits after the optional `-` of an `i32`'s text have no leading zero and read back as its magnitude |
| Numeric.NatTextRoundTrip | src/tm2.rs:92-97 | reading the printed digits back gives the number |
| Numeric.Over512Text | src/tm2.rs:107-110 | the margin text consists of digits, `-` and `.` only |
| Numeric.PaddedRoundTrip | src/tm2.rs:107-110 | the nine fractional digits read back as `frac * 1953125`, which is exactly `frac / 512` |
| Numeric.StripTrailingZerosValue | src/tm2.rs:107-110 | dropping k trailing zeros divides the digits' value by 10^k |
| Numeric.FractionDigitsExact | src/tm2.rs:107-110 | the printed fraction of `frac / 512` has one to nine digits, no trailing zero, and denotes exactly `frac / 512` |
| Tm2.Trim | src/tm2.rs:76 | `str::trim`: no longer than the input, and neither end of the result is whitespace; `TrimPadded` gives the exact result |
| Tm2.TrimStart | src/tm2.rs:76 | drops exactly the leading whitespace and keeps a suffix |
| Tm2.TrimEnd | src/tm2.rs:76 | drops exactly the trailing whitespace and keeps a prefix |
| Tm2.TrimPadded | src/tm2.rs:76 | `trim` of whitespace, core and whitespace is the core |
| Tm2.StripTable | src/tm2.rs:73-80 | the stripped table is at most `len - 7` characters long |
| Tm2.StripTableUnwrapped | src/tm2.rs:73-80 | without surrounding whitespace, the table loses its first character and is cut at `len - 6` bytes' worth |
| Tm2.StripTableAscii | src/tm2.rs:73-80 | an ASCII table loses its first character and its last six, leaving `len - 7` characters |
| Tm2.StripTableInvertsWrapping | src/tm2.rs:73-80 | stripping returns the query wrapped as one opening character plus a six-character close |
| Tm2.StripTableWithSurroundingWhitespace | src/tm2.rs:73-80 | with whitespace around the table, `take` still counts the untrimmed length, so that many closing characters are kept |
| Tm2.From | src/tm2.rs:69-84 | the loop replaces every layer's table by its stripped form; the layer count, ids, properties, key fields and all other fields are unchanged |
| Tm2.KeyClause | src/tm2.rs:113-117 | the key clause is empty if and only if the key field is empty; otherwise it is the key field framed by `, '` and `'` |
| Tm2.BufferInExtent | src/tm2.rs:94 | `(buffer_size_as_tile_pct() * 4096) as i32`; its value is stated by `BufferInExtentExact`, `BufferInExtentRounded` and `BufferInExtentSaturates` |
| Tm2.TilePctText | src/tm2.rs:109 | the `margin =>` text; `Over512Text` gives its characters and `FractionDigitsExact` its exact value |
| Tm2.GeomColumn | src/tm2.rs:91-96 | the text that replaces `geometry`; `GeomColumnCount` shows it holds a ready pattern only as often as its `ST_AsMVTGeom(...` head |
| Tm2.BufferedEnvelope | src/tm2.rs:105-110 | the text that replaces `!bbox!`; `BufferedEnvelopeChars` and `BufferedEnvelopeInert` show it cannot form a placeholder or a ready pattern |
| Tm2.LayerQuery | src/tm2.rs:98-111 | the five replacements in order; `QueryHasNoBboxNoBuffer`, `QueryHasNoScaleDenominator`, `QueryHasNoPixelWidth`, `QueryHasNoBbox` and `QueryCount` state what the query holds |
| Tm2.LayerColumn | src/tm2.rs:119-122 | the `ST_AsMVT(t.*, '<id>', 4096, 'geom'<key clause>)` column, spelled out by `RowShape` |
| Tm2.SelectRow | src/tm2.rs:124 | `SELECT <column> AS mvt FROM (<query>) as t`, spelled out by `RowShape` and counted by `RowCount` |
| Tm2.LayerSelect | src/tm2.rs:88-125 | one layer's row, counted by `RowCount` and `SelectsCount` |
| Tm2.PreparedStatementSql | src/tm2.rs:86-132 | the rows joined by ` UNION ALL ` inside `STRING_AGG`; `StatementCountBySource`, `StatementUnionCount`, `StatementPlaceholderCount` and `TemplateTextSurvives` state what it holds |
| Tm2.LayerSelects | src/tm2.rs:87-126 | one row per layer, in layer order |
| Tm2Laws.BufferedEnvelopeChars | src/tm2.rs:105-110 | the margin envelope starts with `S`, ends with `)` and holds no `!` |
| Tm2Laws.SubstitutesInert | src/tm2.rs:102-110 | none of the four substitutes can form, start or finish a `!`-delimited placeholder |
| Tm2Laws.QueryHasNoBboxNoBuffer | src/tm2.rs:98-111 | no compiled query contains `!bbox_nobuffer!` |
| Tm2Laws.QueryHasNoScaleDenominator | src/tm2.rs:98-111 | no compiled query contains `z(!scale_denominator!)` |
| Tm2Laws.QueryHasNoPixelWidth | src/tm2.rs:98-111 | no compiled query contains `!pixel_width!` |
| Tm2Laws.QueryHasNoBbox | src/tm2.rs:98-111 | no compiled query contains `!bbox!` |
| Tm2Laws.GeomColumnCount | src/tm2.rs:91-96 | the geometry column holds a ready pattern exactly as often as its fixed `ST_AsMVTGeom(...` head does |
| Tm2Laws.BufferedEnvelopeInert | src/tm2.rs:105-110 | the margin envelope cannot form, start or finish a ready pattern |
| Tm2Laws.GeometryStep | src/tm2.rs:101 | each replaced `geometry` contributes exactly the column's occurrences |
| Tm2Laws.QueryCount | src/tm2.rs:98-111 | a query holds a ready pattern as often as its template does, plus once per `geometry` for each occurrence in the column head |
| Tm2Laws.RowShape | src/tm2.rs:113-124 | the format of a layer's row, both without and with a key field |
| Tm2Laws.RowCount | src/tm2.rs:113-124 | a row's count is the count in `SELECT ST_AsMVT(t.*, '` plus those of the id, the key field and the query |
| Tm2Laws.SelectsCount | src/tm2.rs:87-126 | summed over the rows: once per layer for the fixed head, plus the layers' own text |
| Tm2Laws.StatementSeparatorCount | src/tm2.rs:126-131 | a pattern that ` UNION ALL ` guards occurs in the statement once per separator, one fewer than there are layers, for each occurrence in ` UNION ALL `, plus what the rows hold |
| Tm2Laws.StatementCount | src/tm2.rs:128-131 | the `STRING_AGG` wrapper and the `UNION ALL` separators add no occurrence of a ready pattern |
| Tm2Laws.RowsCountBySource | src/tm2.rs:98-124 | the rows' count in terms of the source as written: ids, key fields, templates, and the `geometry` tokens |
| Tm2Laws.StatementCountBySource | src/tm2.rs:86-132 | the statement's count of a ready pattern equals layers × head count + the source's own count + `geometry` tokens × column-head count |
| Tm2Laws.BufferInExtentExact | src/tm2.rs:94 | for buffers up to 2^24 in magnitude, the `ST_AsMVTGeom` buffer argument is exactly 8 × `buffer_size` |
| Tm2Laws.BufferInExtentRounded | src/tm2.rs:94 | for every buffer strictly within 2^28 - 8 in magnitude, negative ones included, the argument is exactly 8 × the `f32` the buffer rounds to, a multiple of 8 within half a spacing of 8 × the buffer |
| Tm2Laws.BufferInExtentSaturates | src/tm2.rs:94 | from 2^28 - 8 in magnitude on, the cast saturates at `i32::MAX`, or at `i32::MIN` for negative buffers |
| Tm2Patterns.MvtCallCount | src/tm2.rs:119-131 | `ST_AsMVT(` occurs once per layer, plus as often as the ids, key fields and templates spell it out |
| Tm2Patterns.MvtGeomCallCount | src/tm2.rs:91-111 | `ST_AsMVTGeom(` occurs once per `geometry` token of the templates, plus as often as the source spells it out |
| Tm2Patterns.RowsCountPlaceholder | src/tm2.rs:98-124 | the rows hold a placeholder token only where an id or key field spells it out |
| Tm2Patterns.StatementPlaceholderCount | src/tm2.rs:86-132 | the statement holds `!bbox_nobuffer!`, `!pixel_width!` or `!bbox!` exactly as often as the ids and key fields do |
| Tm2Patterns.StatementHasNoPlaceholders | src/tm2.rs:86-132 | when no id or key field contains `!`, none of those three placeholders remains in the statement |
| Tm2Patterns.StatementUnionCount | src/tm2.rs:126-131 | `UNION` occurs in the statement `|layers| - 1` times (none for no layers), plus as often as the ids, key fields and templates spell it out |
| Tm2Patterns.StatementSeparators | src/tm2.rs:126-131 | with no `U` in any id, key field or template, `UNION` occurs exactly `|layers| - 1` times |
| Tm2Patterns.TemplateTextSurvives | src/tm2.rs:86-132 | a ready pattern contained in any layer's template is contained in the statement |
| Tm2Fixture.TestSqlMvtCalls | src/tm2.rs:226-232 | the test statement is non-empty and holds `ST_AsMVT(` exactly 3 times |
| Tm2Fixture.TestSqlMvtGeomCalls | src/tm2.rs:233 | the test statement holds `ST_AsMVTGeom(` exactly 3 times |
| Tm2Fixture.TestSqlOsmIds | src/tm2.rs:234 | the test statement holds `osm_id` exactly twice |
| Tm2Fixture.TestSqlNamesWater | src/tm2.rs:229 | the test statement contains `layer_water` |
| Tm2Fixture.TestSqlNamesLand | src/tm2.rs:230 | the test statement contains `layer_land` |
| Tm2Fixture.TestSqlNamesPoi | src/tm2.rs:231 | the test statement contains `layer_poi` |
| Tm2Fixture.TestBuffers | src/tm2.rs:185-221 | the test layers' buffer arguments are 32, 32 and 256 |

## Left out

- YAML deserialisation (`serde_yaml::from_str`) and its error, and `src/error.rs`: `Tm2.From` starts from the parsed record.
- `render_mvt` and the `TileSource` trait: binding the four parameters and running the statement is database I/O.
- The tile and envelope arithmetic of `src/lib.rs`, which is not part of this model.
- `center` and `bounds` are fixed-size `f64` arrays that the compiler never reads. They are carried as sequences of reals, with no length constraint.
- Tm2.TilePctText: the margin is printed as the exact decimal expansion of the `f32` value `buffer / 512`. Rust's `{}` prints the shortest text that rounds back to the same `f32`. The two agree whenever the exact expansion is that shortest text, as for the test's 0.0078125 and 0.0625. They can differ for buffers with more significant digits.
- Tm2.StripTable: for a table shorter than 7 bytes, `len() - 7` underflows. With overflow checks on (debug and test builds) that panics. In a default release build it wraps to a huge count, and `take` then keeps all of the trimmed table after its first character. The model makes a length of at least 7 bytes a precondition and covers neither behaviour.
- Tm2Patterns.StatementHasNoPlaceholders: does not cover `z(!scale_denominator!)`. A template ending in `z(!scale_denominator!` receives its `)` from the `) as t` that follows it, so the statement can hold that token. `Tm2Laws.QueryHasNoScaleDenominator` covers the query level.
- Tm2Laws.StatementCountBySource: holds only for patterns that no fixed text can straddle (`QueryReady` and `SelectReady`). A pattern that straddles fixed text is counted by the raw `Count` only. For example, `geometry` straddles the column's trailing `as geom` when the template continues with `etry`.
