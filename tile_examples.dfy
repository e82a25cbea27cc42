/** Sources and flags worked through tryParseTileXYZ and the tile choice. */
module TileExamples {
  import opened Wrappers
  import opened Decimal
  import opened MapTile
  import opened TilePattern
  import opened Vt2GeoJson

  lemma Values()
    ensures Value("14") == 14 && Value("1308") == 1308 && Value("6777") == 6777
  {
    assert "14"[..1] == "1" && "1"[..0] == "";
    assert "1308"[..3] == "130" && "130"[..2] == "13" && "13"[..1] == "1";
    assert "6777"[..3] == "677" && "677"[..2] == "67" && "67"[..1] == "6" && "6"[..0] == "";
  }

  lemma PathTile(maxZoom: nat)
    requires maxZoom >= 14
    ensures Find("14/1308/6777.mvt").Some?
    ensures TryParseTileXYZ("14/1308/6777.mvt", maxZoom) == TileAndError(Tile(1308, 6777, 14), None)
  {
    var s := "14/1308/6777.mvt";
    var g := Groups("14", "1308", "6777");
    assert Text(g, Mvt) == s;
    assert Leftmost(s, 0, g);
    FindLeftmost(s, 0, g);
    TryParseFromMatch(s, maxZoom, 0, g);
    Values();
    assert Pow2(14) == 16384;
  }

  /**
    The usual form: a URL with z/x/y.mvt in it, whose scheme, host and path before the
    tile carry no digits (https://example.com/, say), followed by anything at all
    (a query string, another tile).
  */
  lemma UrlSource(prefix: string, suffix: string, maxZoom: nat)
    requires forall k | 0 <= k < |prefix| :: !IsDigit(prefix[k])
    requires maxZoom >= 14
    ensures TryParseTileXYZ(prefix + "14/1308/6777.mvt" + suffix, maxZoom)
            == TileAndError(Tile(1308, 6777, 14), None)
  {
    var s := "14/1308/6777.mvt";
    PathTile(maxZoom);
    FindAfterDigitFreePrefix(prefix, s);
    TryParseAfterDigitFreePrefix(prefix, s, maxZoom);
    TryParseIgnoresSuffix(prefix + s, suffix, maxZoom);
  }

  lemma ThreeDigitZoomMatch()
    ensures Leftmost("123/4/5.mvt", 1, Groups("23", "4", "5"))
  {
    var s := "123/4/5.mvt";
    assert MatchAt(s, 0).None?;
    NoMatchHere(s, 0);
    assert s[1..] == Text(Groups("23", "4", "5"), Mvt);
  }

  lemma SmallValues()
    ensures Value("2") == 2 && Value("3") == 3 && Value("4") == 4 && Value("5") == 5
    ensures Value("7") == 7 && Value("23") == 23 && Value("200") == 200
  {
    assert "2"[..0] == "" && "3"[..0] == "" && "4"[..0] == "" && "5"[..0] == "" && "7"[..0] == "";
    assert "23"[..1] == "2";
    assert "200"[..2] == "20" && "20"[..1] == "2";
  }

  /**
    The zoom group is at most two digits, so in 123/4/5.mvt no match starts at the
    `1` and the leftmost one starts at the `2`: the zoom is 23.
  */
  lemma ThreeDigitZoom(maxZoom: nat)
    requires maxZoom >= 23
    ensures TryParseTileXYZ("123/4/5.mvt", maxZoom) == TileAndError(Tile(4, 5, 23), None)
  {
    ThreeDigitZoomMatch();
    SmallValues();
    TryParseFromMatch("123/4/5.mvt", maxZoom, 1, Groups("23", "4", "5"));
    Pow2Exceeds(23);
  }

  lemma VectorPbfMatch()
    ensures Leftmost("7/3/2.vector.pbf", 0, Groups("7", "3", "2"))
  {
    assert Text(Groups("7", "3", "2"), VectorPbf) == "7/3/2.vector.pbf";
  }

  /** The other extension the pattern accepts. */
  lemma VectorPbfSource(maxZoom: nat)
    requires maxZoom >= 7
    ensures TryParseTileXYZ("7/3/2.vector.pbf", maxZoom) == TileAndError(Tile(3, 2, 7), None)
  {
    VectorPbfMatch();
    SmallValues();
    TryParseFromMatch("7/3/2.vector.pbf", maxZoom, 0, Groups("7", "3", "2"));
  }

  lemma ColumnOutOfRangeMatch()
    ensures Leftmost("7/200/3.mvt", 0, Groups("7", "200", "3"))
  {
    assert Text(Groups("7", "200", "3"), Mvt) == "7/200/3.mvt";
  }

  /** Column 200 does not exist at zoom 7: the tile is returned together with the error. */
  lemma ColumnOutOfRange(maxZoom: nat)
    requires maxZoom >= 7
    ensures TryParseTileXYZ("7/200/3.mvt", maxZoom)
            == TileAndError(Tile(200, 3, 7), Some(InvalidTile(Tile(200, 3, 7))))
  {
    ColumnOutOfRangeMatch();
    SmallValues();
    TryParseFromMatch("7/200/3.mvt", maxZoom, 0, Groups("7", "200", "3"));
    assert Pow2(7) == 128;
  }

  /** A source name without a tile in it gives the zero tile and an error. */
  lemma NoTileInName(maxZoom: nat)
    ensures TryParseTileXYZ("tiles/data.mvt", maxZoom)
            == TileAndError(ZeroTile, Some(NoTileInSource("tiles/data.mvt")))
  {
    FindAfterDigitFreePrefix("tiles/data.mvt", "");
    assert "tiles/data.mvt" + "" == "tiles/data.mvt";
    FindSpec("tiles/data.mvt");
  }

  /**
    Tile 0/0/0 cannot be asked for by setting x, y and z to zero: the flags are then
    ignored and the source is parsed instead.
  */
  lemma ZeroFlagsDoNotSelectZeroTile(maxZoom: nat)
    ensures Valid(ZeroTile, maxZoom)
    ensures SelectTile(Flags("tiles/data.mvt", false, 0, 0, 0, "", false, false), maxZoom)
            == Failure(ParseFailed(NoTileInSource("tiles/data.mvt")))
  {
    NoTileInName(maxZoom);
  }

  /**
    An x flag of 2^32 is cut to 32 bits by the conversion to uint32, which makes it
    0, so these flags do select tile 0/0/0.
  */
  lemma WideFlagWrapsAround(maxZoom: nat)
    ensures SelectTile(Flags("tiles/data.mvt", false, Uint32Limit, 0, 0, "", false, false), maxZoom)
            == Success(ZeroTile)
  {
  }
}
