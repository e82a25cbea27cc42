# vt2geojson command core, in Dafny

`vt2geojson` converts one Mapbox Vector Tile into a GeoJSON FeatureCollection. This
project models the decisions its command (`cmd/vt2geojson/main.go`) makes itself, and
proves what they guarantee:

- **Reading the tile from the source name** (`tryParseTileXYZ`). The source path or URL
  is searched for the leftmost `z/x/y.mvt` or `z/x/y.vector.pbf`. Each group is parsed
  as a 32-bit unsigned number. The tile is built from the groups (zoom from the first,
  column from the second, row from the third) and then checked.
- **Choosing the tile.** The source name is parsed only when the `x`, `y` and `z` flags
  are all zero. Otherwise the flags, converted to 32 bits, are the tile.
- **Gathering the output features.** With a layer name, the output is that layer's
  features. Without one, it is the features of every layer, one layer after another.
- **The order in which `main` gives up.** The checks run in this order: the version
  flag, the source flag, loading, decoding, the summary flag, and the tile.

Files:

- `wrappers.dfy`: the `Option`/`Result` types that stand for Go's `(value, error)` pairs.
- `decimal.dfy`: digit strings, their values, and `strconv.ParseUint(s, 10, 32)`.
- `maptile.dfy`: the tile and its validity.
- `tile_pattern.dfy`: the regular expression. `MatchesAt` states declaratively what a
  match is. `MatchAt`/`Find` are a scanner for this one pattern, proved equal to it in
  both directions. `Find` is proved to return the leftmost match.
- `vt2geojson.dfy`: `tryParseTileXYZ`, the tile choice, the layer merge (a method with a
  loop over the layer map) and `main`'s sequence of checks.
- `tile_examples.dfy`: concrete sources and flags worked through the model.

Tile validity is the predicate `z <= maxZoom && x < 2^z && y < 2^z`. The zoom limit
`maxZoom` is a parameter, because `maptile` is not part of this model.

Go's map iteration order is unspecified. The merge loop therefore takes the next layer
by nondeterministic choice, and reports the order it used as a ghost output. Every
property of the merged list holds for every such order.

Two consequences of the code worth knowing:

- Tile 0/0/0 can still be selected through the flags. The all-zero test (main.go:74)
  looks at the flags before `uint32(...)`/`maptile.Zoom(...)` (main.go:81) cut them to
  32 bits. So when the flag type is wider than 32 bits, a non-zero flag whose low 32
  bits are zero selects tile 0/0/0 (`Vt2GeoJson.ExplicitFlagsIgnoreSource`,
  `TileExamples.WideFlagWrapsAround`).
- A marshal error is printed, the output is still printed, and main returns normally
  (main.go:102-106). Serialization is not part of this model (see below).

## Model

| member | source | states |
|---|---|---|
| Decimal.ParseUint32Spec | cmd/vt2geojson/main.go:24-32 | The base-10, 32-bit unsigned parse succeeds exactly when the string is non-empty, all digits, and denotes a value below 2^32. The result is then that value. An all-digit string denoting 2^32 or more is a range error. |
| Decimal.ParseFormatRoundTrip | cmd/vt2geojson/main.go:24-32 | Every value below 2^32, written in decimal, parses back to itself. |
| Decimal.TwoDigitsFit | cmd/vt2geojson/main.go:16-26 | A one- or two-digit group denotes less than 100, and parsing it always succeeds with that value. |
| TilePattern.DigitRun | cmd/vt2geojson/main.go:16 | The run counted from a position is all digits, and is followed by the end of the string or a non-digit (the maximal `[0-9]+`). |
| TilePattern.MatchAtSound | cmd/vt2geojson/main.go:16-17 | When the scanner reports groups at a position, the string holds `z/x/y` plus `.mvt` or `.vector.pbf` there with those groups, z being one or two digits and x, y one or more. |
| TilePattern.MatchAtComplete | cmd/vt2geojson/main.go:16-17 | Every match of the pattern at a position is the one the scanner reports there: at a fixed start the groups are determined. |
| TilePattern.FindSpec | cmd/vt2geojson/main.go:16-18 | A reported match is a match, and no match starts before it. Nothing is reported exactly when no position holds a match. |
| TilePattern.FindLeftmost | cmd/vt2geojson/main.go:16-17 | The leftmost match is the one reported, with its position and groups. |
| TilePattern.FindAfterDigitFreePrefix | cmd/vt2geojson/main.go:16-17 | Putting a string without digits in front of the source moves the match by that string's length and leaves its groups unchanged. Without a match before, there is none after. |
| TilePattern.FindIgnoresSuffix | cmd/vt2geojson/main.go:16-17 | Once the source holds a match, appending anything, including another tile, leaves the reported match and position unchanged. |
| Vt2GeoJson.TryParseTileXYZ | cmd/vt2geojson/main.go:15-40 | A result without error carries a valid tile. An out-of-range tile comes back together with its own error. Every other error comes with the zero tile. |
| Vt2GeoJson.TryParseFromMatch | cmd/vt2geojson/main.go:16-39 | Given the leftmost match, a column or row of 2^32 or more is a parse error with the zero tile. Otherwise the tile is (column = second group, row = third group, zoom = first group), and the error is absent exactly when that tile is valid. |
| Vt2GeoJson.TryParseWithoutMatch | cmd/vt2geojson/main.go:17-20 | A source with no match anywhere gives the zero tile and the no-match error. |
| Vt2GeoJson.ZoomNeverFails | cmd/vt2geojson/main.go:16-26 | Parsing the zoom never fails, and every returned tile has zoom below 100. |
| Vt2GeoJson.TryParseAfterDigitFreePrefix | cmd/vt2geojson/main.go:16-17 | A digit-free prefix in front of a source that holds a match does not change the tile or the error. |
| Vt2GeoJson.TryParseIgnoresSuffix | cmd/vt2geojson/main.go:16-17 | Text after a match does not change the tile or the error. |
| Vt2GeoJson.ToUint32 | cmd/vt2geojson/main.go:81 | The conversion to 32 bits leaves a value below 2^32 unchanged, and otherwise differs from the value by a multiple of 2^32. |
| Vt2GeoJson.SelectTile | cmd/vt2geojson/main.go:73-86 | Every tile chosen, from the source or from the flags, is valid. |
| Vt2GeoJson.ExplicitFlagsIgnoreSource | cmd/vt2geojson/main.go:80-85 | With any of x, y, z non-zero, the source name has no effect. The tile is the flags cut to 32 bits, accepted when valid and otherwise the invalid-flags error. Flags within 32 bits give exactly their own tile. |
| Vt2GeoJson.ZeroFlagsParseSource | cmd/vt2geojson/main.go:74-79 | With x, y, z all zero, the choice succeeds exactly when parsing the source does, and then with the parsed tile. A source without a match is an error even though 0/0/0 is valid. |
| Vt2GeoJson.ProjectToWGS84 | cmd/vt2geojson/main.go:87 | Reprojection keeps the layer names, extents and the number and order of features. Each feature is replaced by its own projection for the chosen tile and its layer's extent. |
| Vt2GeoJson.ToFeatureCollections | cmd/vt2geojson/main.go:90 | There is one feature list per layer name, holding that layer's features. |
| Vt2GeoJson.GatherFeatures | cmd/vt2geojson/main.go:92-101 | With a layer name, the output is exactly that layer's features in their order, or empty when it is absent. Without one, the output is the concatenation of all layers' features in a visiting order that lists every layer exactly once. |
| Vt2GeoJson.MergedFeatures | cmd/vt2geojson/main.go:97-101 | For every visiting order, the merged list holds every feature of every layer as often as it occurs in that layer, and its length is the sum of the layer sizes. |
| Vt2GeoJson.Prepare | cmd/vt2geojson/main.go:42-86 | Reprojection is reached exactly when the version and summary flags are off, the source is non-empty, loading and decoding succeed and the tile choice succeeds. It then uses the decoded layers and the chosen (valid) tile. |
| Vt2GeoJson.LaterChecksInOrder | cmd/vt2geojson/main.go:55-86 | Past the version and source checks, a load error ends the run with that error, then a decode error, then the summary flag with the decoded layers, then a tile-choice error with that error. |
| Vt2GeoJson.VersionFirst | cmd/vt2geojson/main.go:45-53 | The version flag ends the run before the source flag, loading or decoding can have any effect. An empty source ends it before anything is loaded or decoded. |
| Vt2GeoJson.StopStatus | cmd/vt2geojson/main.go:45-86 | A run that stops early exits with status 0 exactly for the version and summary modes, and with status 1 on every failure. |
| Vt2GeoJson.Run | cmd/vt2geojson/main.go:42-101 | A run ends as the checks decide. A converting run has a valid tile and status 0. Its features are the projected features of the named layer (or none), or of all layers in some visiting order, with the total size of all layers. |
| TileExamples.UrlSource | cmd/vt2geojson/main.go:15-40 | `14/1308/6777.mvt` inside a URL, with a digit-free prefix and any suffix, gives zoom 14, column 1308, row 6777 and no error. |
| TileExamples.ThreeDigitZoom | cmd/vt2geojson/main.go:16-34 | `123/4/5.mvt` gives zoom 23, column 4, row 5: the match starts at the second digit. |
| TileExamples.VectorPbfSource | cmd/vt2geojson/main.go:16-34 | `7/3/2.vector.pbf` gives zoom 7, column 3, row 2. |
| TileExamples.ColumnOutOfRange | cmd/vt2geojson/main.go:34-37 | `7/200/3.mvt` returns the tile (200, 3, 7) together with the invalid-tile error. |
| TileExamples.NoTileInName | cmd/vt2geojson/main.go:17-20 | `tiles/data.mvt` gives the zero tile and the no-match error. |
| TileExamples.ZeroFlagsDoNotSelectZeroTile | cmd/vt2geojson/main.go:74-79 | Flags 0/0/0 with the source `tiles/data.mvt` are an error, although tile 0/0/0 is valid. |
| TileExamples.WideFlagWrapsAround | cmd/vt2geojson/main.go:74-81 | An x flag of 2^32 passes the all-zero test but becomes column 0, so tile 0/0/0 is selected. |

## Left out

- `cmd/vt2geojson/version.go` and `printVersion`: they only print build strings. The version mode is the outcome `VersionPrinted`.
- `loadMVT`, `unmarshalMVT` and `printLayersSummary` are not part of this model. They do file and HTTP I/O, gzip and protobuf decoding. Loading and decoding are the function parameters `load` and `unmarshal`, and the summary mode is the outcome `SummaryPrinted`.
- Vt2GeoJson.ProjectToWGS84: the reprojection itself (floating-point Web Mercator arithmetic in the orb library) is the function parameter `project`. The model states only which tile and extent each feature is projected with, and that count and order are kept.
- `maptile.New` and `Tile.Valid` are not part of this model. Validity is `x < 2^z && y < 2^z` with the zoom limit as the parameter `maxZoom`, rather than the library's exact rule.
- JSON serialization and printing (main.go:102-106) are left out. A marshal error is printed, the output is still printed, and the process still exits 0.
- Flag parsing, the global flag record, messages printed with `fmt` and `os.Exit`: the flags are the input record `Flags`, and each way the run ends is an `Outcome` with an exit status.
- The flag declarations are not part of this model. The flags are unbounded naturals, and their conversion to 32 bits is written out (`ToUint32`).
- Vt2GeoJson.GatherFeatures: the Go map's visiting order is a nondeterministic choice, not the runtime's actual order. Appending in place to the FeatureCollection's slice is modelled as reassigning a sequence.
- Error messages: errors are datatype values carrying the offending digits, source or flags, not formatted strings.
