/**
 * Packing of a weather tile's grid coordinates into one `long` identifier
 * and the two accessors that read them back.
 *
 * `TileId` writes y into the high 32 bits and adds x as a full 32-bit value,
 * but `TileX` masks with `0xFFFF`, so only the low 16 bits of x survive a
 * round trip; `TileY` reads the high word with an arithmetic shift, which
 * absorbs the borrow of a negative x.
 */
module TileIds {
  import opened JavaInt

  /** The mask `getTileX` applies: sixteen bits. */
  const X_MASK_BITS: int := 0x1_0000

  /** `((long) y << 32) + (long) x`, with the `long` addition wrapping. */
  function TileId(x: int, y: int): (id: int)
    requires IsInt(x) && IsInt(y)
    ensures IsLong(id)
    ensures 0 <= x ==> id == y * TWO_32 + x
    ensures (id - x) % TWO_32 == 0
  {
    Wrap64(y * TWO_32 + x)
  }

  /** `(int) (tileId & 0xFFFF)`: the low sixteen bits, never negative. */
  function TileX(id: int): (x: int)
    requires IsLong(id)
    ensures 0 <= x < X_MASK_BITS
    ensures (id - x) % X_MASK_BITS == 0
  {
    Wrap32(id % X_MASK_BITS)
  }

  /** `(int) (tileId >> 32)`: the arithmetic shift rounds toward minus infinity. */
  function TileY(id: int): (y: int)
    requires IsLong(id)
    ensures IsInt(y)
    ensures y * TWO_32 <= id < y * TWO_32 + TWO_32
  {
    Wrap32(id / TWO_32)
  }

  /** Adding whole multiples of 2^16 leaves the low sixteen bits alone. */
  lemma LowBitsIgnoreHighSteps(a: int, j: int)
    ensures (a + j * X_MASK_BITS) % X_MASK_BITS == a % X_MASK_BITS
  {
    var q := a / X_MASK_BITS;
    assert a + j * X_MASK_BITS == (q + j) * X_MASK_BITS + a % X_MASK_BITS;
  }

  /** x survives packing exactly when it fits in the sixteen bits `TileX` keeps. */
  lemma TileXRoundTrip(x: int, y: int)
    requires IsInt(x) && IsInt(y)
    ensures TileX(TileId(x, y)) == x <==> 0 <= x < X_MASK_BITS
  {
    var id := TileId(x, y);
    DivisibleIsMultiple(id - x);
    var k := (id - x) / TWO_32;
    assert id == x + (k * X_MASK_BITS) * X_MASK_BITS;
    LowBitsIgnoreHighSteps(x, k * X_MASK_BITS);
    assert TileX(id) == x % X_MASK_BITS;
  }

  /** y survives packing exactly when x is not negative (a negative x borrows from y). */
  lemma TileYRoundTrip(x: int, y: int)
    requires IsInt(x) && IsInt(y)
    ensures TileY(TileId(x, y)) == y <==> 0 <= x
  {
    var id := TileId(x, y);
    if x < 0 {
      if y == INT_MIN {
        assert id == y * TWO_32 + x + TWO_64;
        assert TileY(id) == INT_MAX;
      } else {
        assert id == y * TWO_32 + x;
        assert TileY(id) == y - 1;
      }
    }
  }

  /** The first x the mask loses: column 65536 reads back as column 0. */
  lemma TileXTruncatesWideColumn()
    ensures TileX(TileId(X_MASK_BITS, 0)) == 0
  {
  }

  /** The accessor with a mask as wide as the packed field, `(int) (tileId & 0xFFFFFFFFL)`. */
  function TileXFull(id: int): (x: int)
    requires IsLong(id)
    ensures IsInt(x)
    ensures (id - x) % TWO_32 == 0
  {
    Wrap32(id % TWO_32)
  }

  /** With the full-width mask every Java `int` column round-trips. */
  lemma TileXFullRoundTrip(x: int, y: int)
    requires IsInt(x) && IsInt(y)
    ensures TileXFull(TileId(x, y)) == x
  {
    var id := TileId(x, y);
    var r := TileXFull(id);
    assert (r - x) % TWO_32 == 0 by {
      var a := (id - r) / TWO_32;
      var b := (id - x) / TWO_32;
      assert r - x == (b - a) * TWO_32;
    }
    Wrap32Unique(r, x);
  }
}
