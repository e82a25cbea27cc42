/**
  The slippy-map tile of the maptile package, as far as the command uses it:
  a column, a row and a zoom, all 32-bit unsigned.
*/
module MapTile {

  type Uint32 = n: nat | n < 0x1_0000_0000

  datatype Tile = Tile(x: Uint32, y: Uint32, z: Uint32)

  /** maptile.New takes its arguments in the order column, row, zoom. */
  function New(x: Uint32, y: Uint32, z: Uint32): Tile {
    Tile(x, y, z)
  }

  function Pow2(n: nat): (p: nat)
    ensures p >= 1
  {
    if n == 0 then 1 else 2 * Pow2(n - 1)
  }

  /** Every zoom level has more tiles along an axis than its own number. */
  lemma {:induction false} Pow2Exceeds(n: nat)
    ensures n < Pow2(n)
  {
    if n > 0 {
      Pow2Exceeds(n - 1);
    }
  }

  /**
    Tile validity: the zoom is at most `maxZoom` and both the column and the row
    index one of the 2^z tiles along their axis.
  */
  predicate Valid(t: Tile, maxZoom: nat) {
    t.z <= maxZoom && t.x < Pow2(t.z) && t.y < Pow2(t.z)
  }
}
