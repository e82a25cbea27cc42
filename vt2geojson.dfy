/**
  The command's own logic (cmd/vt2geojson/main.go): reading a tile's zoom, column and
  row out of the source path or URL, choosing between that and the -x/-y/-z flags, the
  order in which main gives up, and gathering the features it prints.
*/
module Vt2GeoJson {
  import opened Wrappers
  import opened Decimal
  import opened MapTile
  import opened TilePattern

  // ---------------------------------------------------------------------------
  // tryParseTileXYZ

  /** Why tryParseTileXYZ fails. */
  datatype TileError =
    | NoTileInSource(source: string)
    | ZoomUnparsable(digits: string, err: NumError)
    | ColumnUnparsable(digits: string, err: NumError)
    | RowUnparsable(digits: string, err: NumError)
    | InvalidTile(tile: Tile)

  /** tryParseTileXYZ returns a tile and an error; on most failures the tile is the zero tile. */
  datatype TileAndError = TileAndError(tile: Tile, err: Option<TileError>)

  /** maptile.Tile{} */
  const ZeroTile: Tile := Tile(0, 0, 0)

  /**
    Finds the leftmost `z/x/y.mvt` or `z/x/y.vector.pbf` in the source, parses the three
    groups as 32-bit unsigned numbers, builds the tile (column, row, zoom) and checks it.
    A tile that parses but is out of range is returned together with the error.
  */
  function TryParseTileXYZ(source: string, maxZoom: nat): (r: TileAndError)
    ensures r.err.None? ==> Valid(r.tile, maxZoom)
    ensures r.err.Some? && r.err.value.InvalidTile?
            ==> r.err.value.tile == r.tile && !Valid(r.tile, maxZoom)
    ensures r.err.Some? && !r.err.value.InvalidTile? ==> r.tile == ZeroTile
  {
    match Find(source)
    case None => TileAndError(ZeroTile, Some(NoTileInSource(source)))
    case Some((_, g)) =>
      match ParseUint32(g.z)
      case Failure(e) => TileAndError(ZeroTile, Some(ZoomUnparsable(g.z, e)))
      case Success(z) =>
        match ParseUint32(g.x)
        case Failure(e) => TileAndError(ZeroTile, Some(ColumnUnparsable(g.x, e)))
        case Success(x) =>
          match ParseUint32(g.y)
          case Failure(e) => TileAndError(ZeroTile, Some(RowUnparsable(g.y, e)))
          case Success(y) =>
            var tile := New(x, y, z);
            if !Valid(tile, maxZoom) then TileAndError(tile, Some(InvalidTile(tile)))
            else TileAndError(tile, None)
  }

  /**
    With a leftmost match whose groups are `g`: a column or row too large for 32 bits
    is an error with the zero tile; otherwise the tile's zoom, column and row are the
    values of the first, second and third group, and it is an error exactly when that
    tile is not valid.
  */
  lemma TryParseFromMatch(source: string, maxZoom: nat, i: nat, g: Groups)
    requires Leftmost(source, i, g)
    ensures var r := TryParseTileXYZ(source, maxZoom);
      if Value(g.x) >= Uint32Limit then
        r == TileAndError(ZeroTile, Some(ColumnUnparsable(g.x, ErrRange)))
      else if Value(g.y) >= Uint32Limit then
        r == TileAndError(ZeroTile, Some(RowUnparsable(g.y, ErrRange)))
      else
        && r.tile == Tile(Value(g.x), Value(g.y), Value(g.z))
        && (r.err.None? <==> Valid(r.tile, maxZoom))
        && (r.err.Some? ==> r.err.value == InvalidTile(r.tile))
  {
    FindLeftmost(source, i, g);
    TwoDigitsFit(g.z);
    ParseUint32Spec(g.x);
    ParseUint32Spec(g.y);
  }

  /** Without a match anywhere in the source, the result is the no-match error and the zero tile. */
  lemma TryParseWithoutMatch(source: string, maxZoom: nat)
    requires NoMatch(source)
    ensures TryParseTileXYZ(source, maxZoom) == TileAndError(ZeroTile, Some(NoTileInSource(source)))
  {
    FindSpec(source);
  }

  /**
    The zoom group has at most two digits, so parsing it never fails and the zoom of
    any tile returned is below 100.
  */
  lemma ZoomNeverFails(source: string, maxZoom: nat)
    ensures var r := TryParseTileXYZ(source, maxZoom);
      && !(r.err.Some? && r.err.value.ZoomUnparsable?)
      && r.tile.z < 100
  {
    FindSpec(source);
    if Find(source).Some? {
      var g := Find(source).value.1;
      TwoDigitsFit(g.z);
    }
  }

  /**
    A digit-free prefix before the source (a scheme and host, say) leaves the result
    unchanged: the same tile and the same error.
  */
  lemma TryParseAfterDigitFreePrefix(p: string, source: string, maxZoom: nat)
    requires forall k | 0 <= k < |p| :: !IsDigit(p[k])
    requires Find(source).Some?
    ensures TryParseTileXYZ(p + source, maxZoom) == TryParseTileXYZ(source, maxZoom)
  {
    FindAfterDigitFreePrefix(p, source);
  }

  /**
    Whatever follows a match (a query string, a later z/x/y.mvt) leaves the result
    unchanged.
  */
  lemma TryParseIgnoresSuffix(source: string, suffix: string, maxZoom: nat)
    requires Find(source).Some?
    ensures TryParseTileXYZ(source + suffix, maxZoom) == TryParseTileXYZ(source, maxZoom)
  {
    FindIgnoresSuffix(source, suffix);
  }

  // ---------------------------------------------------------------------------
  // Choosing the tile (main.go, after the layers are decoded)

  /** The command-line flags main reads. */
  datatype Flags = Flags(
    mvtSource: string,
    gzipped: bool,
    x: nat,
    y: nat,
    z: nat,
    layer: string,
    summary: bool,
    printVersion: bool)

  /** Go's uint32(v) conversion: the low 32 bits of an unsigned value. */
  function ToUint32(v: nat): (r: Uint32)
    ensures v < Uint32Limit ==> r == v
    ensures (v - r) % Uint32Limit == 0
  {
    v % Uint32Limit
  }

  datatype SelectError =
    | ParseFailed(err: TileError)
    | InvalidFlags(x: nat, y: nat, z: nat)

  /**
    The source path is parsed only when the x, y and z flags are all zero; otherwise
    the flags, converted to 32 bits, are the tile, and must be valid.
  */
  function SelectTile(flags: Flags, maxZoom: nat): (r: Result<Tile, SelectError>)
    ensures r.Success? ==> Valid(r.value, maxZoom)
  {
    if flags.x == 0 && flags.y == 0 && flags.z == 0 then
      var parsed := TryParseTileXYZ(flags.mvtSource, maxZoom);
      if parsed.err.Some? then Failure(ParseFailed(parsed.err.value)) else Success(parsed.tile)
    else
      var tile := New(ToUint32(flags.x), ToUint32(flags.y), ToUint32(flags.z));
      if !Valid(tile, maxZoom) then Failure(InvalidFlags(flags.x, flags.y, flags.z))
      else Success(tile)
  }

  /**
    When any of x, y, z is set, the source string plays no part: the tile is the flags
    cut to 32 bits, accepted exactly when it is valid. Flags within 32 bits are taken
    as they are.
  */
  lemma ExplicitFlagsIgnoreSource(flags: Flags, maxZoom: nat, otherSource: string)
    requires flags.x != 0 || flags.y != 0 || flags.z != 0
    ensures SelectTile(flags.(mvtSource := otherSource), maxZoom) == SelectTile(flags, maxZoom)
    ensures var t := Tile(ToUint32(flags.x), ToUint32(flags.y), ToUint32(flags.z));
      SelectTile(flags, maxZoom)
      == if Valid(t, maxZoom) then Success(t) else Failure(InvalidFlags(flags.x, flags.y, flags.z))
    ensures flags.x < Uint32Limit && flags.y < Uint32Limit && flags.z < Uint32Limit
            ==> var t := Tile(flags.x, flags.y, flags.z);
                SelectTile(flags, maxZoom)
                == if Valid(t, maxZoom) then Success(t) else Failure(InvalidFlags(flags.x, flags.y, flags.z))
  {
  }

  /**
    With x, y and z all zero, the choice is whatever the source string gives, so the
    tile 0/0/0 cannot be asked for through the flags: a source without a tile in it
    is an error even though 0/0/0 is a valid tile.
  */
  lemma ZeroFlagsParseSource(flags: Flags, maxZoom: nat)
    requires flags.x == 0 && flags.y == 0 && flags.z == 0
    ensures var parsed := TryParseTileXYZ(flags.mvtSource, maxZoom);
      && (SelectTile(flags, maxZoom).Success? <==> parsed.err.None?)
      && (SelectTile(flags, maxZoom).Success? ==> SelectTile(flags, maxZoom).value == parsed.tile)
    ensures NoMatch(flags.mvtSource)
            ==> SelectTile(flags, maxZoom) == Failure(ParseFailed(NoTileInSource(flags.mvtSource)))
  {
    if NoMatch(flags.mvtSource) {
      TryParseWithoutMatch(flags.mvtSource, maxZoom);
    }
  }

  // ---------------------------------------------------------------------------
  // Layers and the features main prints

  /** A decoded layer: its features and the resolution of its tile-local coordinates. */
  datatype Layer<F> = Layer(extent: nat, features: seq<F>)

  /**
    layers.ProjectToWGS84(tile): every feature of every layer is replaced by its
    reprojection, computed from the tile and that layer's extent by `project`.
  */
  function ProjectToWGS84<F>(layers: map<string, Layer<F>>, tile: Tile, project: (Tile, nat, F) -> F)
    : (r: map<string, Layer<F>>)
    ensures r.Keys == layers.Keys
    ensures forall name | name in r ::
      && r[name].extent == layers[name].extent
      && |r[name].features| == |layers[name].features|
      && forall k | 0 <= k < |r[name].features| ::
           r[name].features[k] == project(tile, layers[name].extent, layers[name].features[k])
  {
    map name | name in layers ::
      var l := layers[name];
      Layer(l.extent, seq(|l.features|, k requires 0 <= k < |l.features| => project(tile, l.extent, l.features[k])))
  }

  /** layers.ToFeatureCollections(): one feature list per layer name. */
  function ToFeatureCollections<F>(layers: map<string, Layer<F>>): (r: map<string, seq<F>>)
    ensures r.Keys == layers.Keys
    ensures forall name | name in r :: r[name] == layers[name].features
  {
    map name | name in layers :: layers[name].features
  }

  /** `order` lists every key of `keys` exactly once: one possible order of a Go map range. */
  ghost predicate Enumerates(order: seq<string>, keys: set<string>) {
    && (forall a, b | 0 <= a < b < |order| :: order[a] != order[b])
    && (forall name :: name in order <==> name in keys)
  }

  /** The feature lists of the named layers, one after the other in the order given. */
  function Concat<F>(collections: map<string, seq<F>>, order: seq<string>): seq<F>
    requires forall name | name in order :: name in collections
  {
    if order == [] then [] else collections[order[0]] + Concat(collections, order[1..])
  }

  /** Every feature of every layer, counted with multiplicity, in no particular order. */
  ghost function AllFeatures<F>(collections: map<string, seq<F>>): multiset<F>
    decreases |collections|
  {
    if collections == map[] then multiset{}
    else
      var name :| name in collections;
      assert |collections - {name}| < |collections| by {
        assert (collections - {name}).Keys == collections.Keys - {name};
      }
      multiset(collections[name]) + AllFeatures(collections - {name})
  }

  /** The sum of the sizes of all layers. */
  ghost function TotalSize<F>(collections: map<string, seq<F>>): nat
    decreases |collections|
  {
    if collections == map[] then 0
    else
      var name :| name in collections;
      assert |collections - {name}| < |collections| by {
        assert (collections - {name}).Keys == collections.Keys - {name};
      }
      |collections[name]| + TotalSize(collections - {name})
  }

  /**
    The features main prints. With a layer name, that layer's features in their order,
    or none when there is no such layer. Without one, the features of every layer,
    layer after layer, in the order the map range visits them (`order`, which the Go
    runtime chooses).
  */
  method GatherFeatures<F>(collections: map<string, seq<F>>, layer: string)
    returns (features: seq<F>, ghost order: seq<string>)
    ensures |layer| > 0 ==> features == if layer in collections then collections[layer] else []
    ensures |layer| == 0 ==> Enumerates(order, collections.Keys)
    ensures |layer| == 0 ==> (forall name | name in order :: name in collections)
                             && features == Concat(collections, order)
  {
    features := [];
    order := [];
    if |layer| > 0 {
      if layer in collections {
        features := features + collections[layer];
      }
    } else {
      var remaining := collections.Keys;
      while remaining != {}
        invariant remaining <= collections.Keys
        invariant forall name | name in order :: name in collections && name !in remaining
        invariant forall name | name in collections :: name in order || name in remaining
        invariant forall a, b | 0 <= a < b < |order| :: order[a] != order[b]
        invariant features == Concat(collections, order)
        decreases remaining
      {
        var name :| name in remaining;
        ConcatSnoc(collections, order, name);
        features := features + collections[name];
        order := order + [name];
        remaining := remaining - {name};
      }
    }
  }

  lemma {:induction false} ConcatSnoc<F>(collections: map<string, seq<F>>, order: seq<string>, name: string)
    requires forall n | n in order :: n in collections
    requires name in collections
    ensures forall n | n in order + [name] :: n in collections
    ensures Concat(collections, order + [name]) == Concat(collections, order) + collections[name]
  {
    if order != [] {
      assert (order + [name])[1..] == order[1..] + [name];
      ConcatSnoc(collections, order[1..], name);
    }
  }

  lemma {:induction false} ConcatWithout<F>(collections: map<string, seq<F>>, order: seq<string>, name: string)
    requires forall n | n in order :: n in collections && n != name
    ensures Concat(collections, order) == Concat(collections - {name}, order)
  {
    if order != [] {
      ConcatWithout(collections, order[1..], name);
    }
  }

  lemma {:induction false} AllFeaturesRemove<F>(collections: map<string, seq<F>>, name: string)
    requires name in collections
    ensures AllFeatures(collections)
            == multiset(collections[name]) + AllFeatures(collections - {name})
    decreases |collections|
  {
    var other :| other in collections && AllFeatures(collections)
      == multiset(collections[other]) + AllFeatures(collections - {other});
    if other != name {
      assert (collections - {name}).Keys == collections.Keys - {name};
      assert (collections - {other}).Keys == collections.Keys - {other};
      AllFeaturesRemove(collections - {other}, name);
      AllFeaturesRemove(collections - {name}, other);
      assert collections - {other} - {name} == collections - {name} - {other};
    }
  }

  lemma {:induction false} TotalSizeRemove<F>(collections: map<string, seq<F>>, name: string)
    requires name in collections
    ensures TotalSize(collections) == |collections[name]| + TotalSize(collections - {name})
    decreases |collections|
  {
    var other :| other in collections && TotalSize(collections)
      == |collections[other]| + TotalSize(collections - {other});
    if other != name {
      assert (collections - {name}).Keys == collections.Keys - {name};
      assert (collections - {other}).Keys == collections.Keys - {other};
      TotalSizeRemove(collections - {other}, name);
      TotalSizeRemove(collections - {name}, other);
      assert collections - {other} - {name} == collections - {name} - {other};
    }
  }

  /**
    Whatever order the map range takes, the merged list holds every feature of every
    layer, each as often as it occurs in its layer, and its length is the sum of the
    layer sizes.
  */
  lemma {:induction false} MergedFeatures<F>(collections: map<string, seq<F>>, order: seq<string>)
    requires Enumerates(order, collections.Keys)
    ensures forall name | name in order :: name in collections
    ensures multiset(Concat(collections, order)) == AllFeatures(collections)
    ensures |Concat(collections, order)| == TotalSize(collections)
  {
    if order == [] {
      assert collections.Keys == {};
      assert collections == map[];
    } else {
      var name := order[0];
      var rest := collections - {name};
      assert forall n | n in order[1..] :: n != name by {
        forall k | 1 <= k < |order| ensures order[k] != name {
          assert order[0] != order[k];
        }
      }
      assert Enumerates(order[1..], rest.Keys) by {
        forall n ensures n in order[1..] <==> n in rest.Keys {
          assert n in order <==> n == name || n in order[1..];
        }
      }
      MergedFeatures(rest, order[1..]);
      ConcatWithout(collections, order[1..], name);
      AllFeaturesRemove(collections, name);
      TotalSizeRemove(collections, name);
    }
  }

  // ---------------------------------------------------------------------------
  // main

  /** How a run of the command ends. */
  datatype Outcome<F> =
    | VersionPrinted
    | MissingSource
    | LoadFailed(message: string)
    | DecodeFailed(message: string)
    | SummaryPrinted(layers: map<string, Layer<F>>)
    | TileFailed(err: SelectError)
    | Converted(tile: Tile, features: seq<F>)

  /** The process exit status: 0 when main returns, 1 when it calls os.Exit(1). */
  function ExitStatus<F>(outcome: Outcome<F>): nat {
    match outcome
    case VersionPrinted | SummaryPrinted(_) | Converted(_, _) => 0
    case _ => 1
  }

  /** Where main stands once the tile is chosen: finished, or about to reproject. */
  datatype Step<F> = Stop(outcome: Outcome<F>) | Reproject(tile: Tile, layers: map<string, Layer<F>>)

  /**
    The checks main makes before it reprojects, in their order: the version flag, the
    source flag, loading, decoding, the summary flag, and the tile. Loading and
    decoding are the parameters `load` and `unmarshal`.
  */
  function Prepare<F>(
    flags: Flags,
    load: string -> Result<seq<bv8>, string>,
    unmarshal: (seq<bv8>, bool) -> Result<map<string, Layer<F>>, string>,
    maxZoom: nat): (r: Step<F>)
    ensures r.Reproject? ==> Valid(r.tile, maxZoom) && SelectTile(flags, maxZoom) == Success(r.tile)
    ensures r.Reproject? ==> !flags.printVersion && |flags.mvtSource| > 0 && !flags.summary
    ensures r.Reproject? ==> load(flags.mvtSource).Success?
                             && unmarshal(load(flags.mvtSource).value, flags.gzipped) == Success(r.layers)
    ensures && !flags.printVersion && |flags.mvtSource| > 0 && !flags.summary
            && load(flags.mvtSource).Success?
            && unmarshal(load(flags.mvtSource).value, flags.gzipped).Success?
            && SelectTile(flags, maxZoom).Success?
            ==> r == Reproject(SelectTile(flags, maxZoom).value,
                               unmarshal(load(flags.mvtSource).value, flags.gzipped).value)
  {
    if flags.printVersion then Stop(VersionPrinted)
    else if |flags.mvtSource| == 0 then Stop(MissingSource)
    else
      match load(flags.mvtSource)
      case Failure(message) => Stop(LoadFailed(message))
      case Success(content) =>
        match unmarshal(content, flags.gzipped)
        case Failure(message) => Stop(DecodeFailed(message))
        case Success(layers) =>
          if flags.summary then Stop(SummaryPrinted(layers))
          else
            match SelectTile(flags, maxZoom)
            case Failure(err) => Stop(TileFailed(err))
            case Success(tile) => Reproject(tile, layers)
  }

  /**
    The version flag ends the run before the source is looked at: neither the source
    flag nor loading nor decoding has any effect. Likewise a missing source ends it
    before anything is loaded.
  */
  lemma VersionFirst<F>(
    flags: Flags,
    load: string -> Result<seq<bv8>, string>, otherLoad: string -> Result<seq<bv8>, string>,
    unmarshal: (seq<bv8>, bool) -> Result<map<string, Layer<F>>, string>,
    otherUnmarshal: (seq<bv8>, bool) -> Result<map<string, Layer<F>>, string>,
    maxZoom: nat)
    ensures flags.printVersion
            ==> Prepare(flags.(mvtSource := ""), otherLoad, otherUnmarshal, maxZoom)
                == Prepare(flags, load, unmarshal, maxZoom) == Stop(VersionPrinted)
    ensures !flags.printVersion && |flags.mvtSource| == 0
            ==> Prepare(flags, otherLoad, otherUnmarshal, maxZoom)
                == Prepare(flags, load, unmarshal, maxZoom) == Stop(MissingSource)
  {
  }

  /**
    Past the version and source checks, the first check that fails decides how the run
    ends: a load error, then a decode error, then the summary flag, then a tile error,
    each carrying what that step produced.
  */
  lemma LaterChecksInOrder<F>(
    flags: Flags,
    load: string -> Result<seq<bv8>, string>,
    unmarshal: (seq<bv8>, bool) -> Result<map<string, Layer<F>>, string>,
    maxZoom: nat)
    requires !flags.printVersion && |flags.mvtSource| > 0
    ensures var r := Prepare(flags, load, unmarshal, maxZoom);
      var loaded := load(flags.mvtSource);
      && (loaded.Failure? ==> r == Stop(LoadFailed(loaded.error)))
      && (loaded.Success? ==>
            var decoded := unmarshal(loaded.value, flags.gzipped);
            && (decoded.Failure? ==> r == Stop(DecodeFailed(decoded.error)))
            && (decoded.Success? && flags.summary ==> r == Stop(SummaryPrinted(decoded.value)))
            && (decoded.Success? && !flags.summary && SelectTile(flags, maxZoom).Failure?
                ==> r == Stop(TileFailed(SelectTile(flags, maxZoom).error))))
  {
  }

  /** A run that does not convert ends with status 0 only for the version and summary flags. */
  lemma StopStatus<F>(
    flags: Flags,
    load: string -> Result<seq<bv8>, string>,
    unmarshal: (seq<bv8>, bool) -> Result<map<string, Layer<F>>, string>,
    maxZoom: nat)
    ensures var r := Prepare(flags, load, unmarshal, maxZoom);
      r.Stop? ==> (ExitStatus(r.outcome) == 0 <==> flags.printVersion || (flags.summary && r.outcome.SummaryPrinted?))
  {
  }

  /**
    main: the checks of Prepare, then reprojection of every layer with the chosen
    tile, then the features of the chosen layer, or of all layers.
  */
  method Run<F>(
    flags: Flags,
    load: string -> Result<seq<bv8>, string>,
    unmarshal: (seq<bv8>, bool) -> Result<map<string, Layer<F>>, string>,
    project: (Tile, nat, F) -> F,
    maxZoom: nat)
    returns (outcome: Outcome<F>, ghost order: seq<string>)
    ensures var step := Prepare(flags, load, unmarshal, maxZoom);
      && (step.Stop? ==> outcome == step.outcome)
      && (step.Reproject? ==> outcome.Converted? && outcome.tile == step.tile)
    ensures outcome.Converted? ==> Valid(outcome.tile, maxZoom) && ExitStatus(outcome) == 0
    ensures var step := Prepare(flags, load, unmarshal, maxZoom);
      step.Reproject? && |flags.layer| > 0 ==>
        if flags.layer in step.layers then
          var l := step.layers[flags.layer];
          && |outcome.features| == |l.features|
          && forall k | 0 <= k < |l.features| ::
               outcome.features[k] == project(step.tile, l.extent, l.features[k])
        else outcome.features == []
    ensures var step := Prepare(flags, load, unmarshal, maxZoom);
      step.Reproject? && |flags.layer| == 0 ==>
        var collections := ToFeatureCollections(ProjectToWGS84(step.layers, step.tile, project));
        && Enumerates(order, step.layers.Keys)
        && (forall name | name in order :: name in collections)
        && outcome.features == Concat(collections, order)
        && |outcome.features| == TotalSize(collections)
  {
    var step := Prepare(flags, load, unmarshal, maxZoom);
    if step.Stop? {
      return step.outcome, [];
    }
    var projected := ProjectToWGS84(step.layers, step.tile, project);
    var collections := ToFeatureCollections(projected);
    var features;
    features, order := GatherFeatures(collections, flags.layer);
    if |flags.layer| == 0 {
      MergedFeatures(collections, order);
    }
    outcome := Converted(step.tile, features);
  }
}
