/** The integer arithmetic of the grid layout: how many tiles the nested
    row/column loop creates, which cell each creation slot is, and the side
    length of one tile. */
module Layout {

  /** Space reserved above the grid for the top bar, in pixels. */
  const Top := 72
  /** Space left free below the grid. */
  const Bottom := 16
  /** Horizontal space not available to the grid (12 pixels on each side). */
  const SideMargin := 24
  /** Gap between neighbouring tiles. */
  const Gap := 8

  /** The number of tiles the two nested loops `r < size`, `c < size` push. */
  function TileCount(size: int): (n: nat)
    ensures n > 0 <==> size > 0
  {
    if size > 0 then size * size else 0
  }

  /** Multiplying by a non-negative factor keeps the order. */
  lemma MulMono(a: int, b: int, n: int)
    requires a <= b && 0 <= n
    ensures a * n <= b * n
  {
    assert b * n - a * n == (b - a) * n;
  }

  /** The quotient and remainder of q * n + m by n, for 0 <= m < n, are q and m. */
  lemma DivModUnique(q: int, m: int, n: int)
    requires 0 <= m < n
    ensures (q * n + m) / n == q && (q * n + m) % n == m
  {
    var k := q * n + m;
    var q', m' := k / n, k % n;
    assert q' * n + m' == q * n + m;
    assert (q' - q) * n == m - m';
    if q' > q {
      MulMono(1, q' - q, n);
    } else if q' < q {
      MulMono(1, q - q', n);
    }
  }

  /** The tile made for row r and column c is pushed as element r * size + c,
      and that slot decodes back to row r and column c. */
  lemma RowMajorSlot(size: int, r: int, c: int)
    requires 0 <= r < size && 0 <= c < size
    ensures 0 <= r * size + c < TileCount(size)
    ensures (r * size + c) / size == r && (r * size + c) % size == c
  {
    MulMono(r, size - 1, size);
    MulMono(0, r, size);
    assert (size - 1) * size == size * size - size;
    DivModUnique(r, c, size);
  }

  /** Every creation slot of a size x size grid names a cell inside it. */
  lemma SlotCell(size: int, k: int)
    requires 0 <= k < TileCount(size)
    ensures 0 <= k / size < size && 0 <= k % size < size
    ensures (k / size) * size + k % size == k
  {
    var q := k / size;
    if q >= size {
      MulMono(size, q, size);
    }
  }

  function Min(a: int, b: int): int {
    if a < b then a else b
  }

  /** gridW: the horizontal space for the grid on a canvas `width` pixels wide. */
  function GridWidth(width: int): int {
    width - SideMargin
  }

  /** gridH: the vertical space for the grid on a canvas `height` pixels high. */
  function GridHeight(height: int): int {
    height - Top - Bottom
  }

  /** totalW and totalH: the extent of `size` tiles of side t with the gaps between them. */
  function Extent(t: int, size: int): int {
    t * size + Gap * (size - 1)
  }

  /** tileSize: the floor of the smaller of the two per-axis cell sizes. Dafny's
      division by a positive divisor is the floor, so this is floor(min(a / size,
      b / size)) on the source's real quotients. The result is the largest side
      length for which the grid fits the available space in both directions. */
  function TileSize(width: int, height: int, size: int): (t: int)
    requires size > 0
    ensures Extent(t, size) <= GridWidth(width) && Extent(t, size) <= GridHeight(height)
    ensures Extent(t + 1, size) > GridWidth(width) || Extent(t + 1, size) > GridHeight(height)
  {
    var a := GridWidth(width) - (size - 1) * Gap;
    var b := GridHeight(height) - (size - 1) * Gap;
    var m := Min(a, b);
    var t := m / size;
    assert m == t * size + m % size && 0 <= m % size < size;
    assert (t + 1) * size == t * size + size;
    t
  }

  /** On the 360 x 640 game canvas the default 4 x 4 grid gets 78-pixel tiles. */
  lemma DefaultCanvasTileSize()
    ensures TileSize(360, 640, 4) == 78
    ensures Extent(78, 4) == 336 == GridWidth(360)
  {
  }
}
