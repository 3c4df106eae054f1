/** The triangle index buffer shared by every terrain node.

    A node's heights form a square grid of `resolution` cells per side and
    `resolution + 1` vertices per row. Each cell, row by row, contributes
    two triangles: six vertex indices from the cell's top-left vertex and
    the row stride. The buffer holds the full-resolution grid followed by
    the half-resolution one, as little-endian 16-bit indices. */
module IndexBuffers {

  /** A Rust `u16`. */
  type U16 = v: int | 0 <= v < 0x1_0000

  type Byte = b: int | 0 <= b < 0x100

  /** A value truncated to `u16`: the result modulo 2^16. */
  function Wrap16(v: int): U16 {
    v % 0x1_0000
  }

  /** `u16` addition without overflow checks: the sum modulo 2^16. */
  function AddU16(a: U16, b: U16): (r: U16)
    ensures r == Wrap16(a + b)
  {
    if a + b < 0x1_0000 then a + b else a + b - 0x1_0000
  }

  /** `u16` multiplication without overflow checks: the product modulo 2^16. */
  function MulU16(a: U16, b: U16): U16 {
    Wrap16(a * b)
  }

  /** The `u16` offsets of the six corners of a cell's two triangles from
      its top-left vertex, for a row stride of `width` vertices. */
  function CellOffsets(width: U16): seq<U16> {
    [0, 1, width, 1, AddU16(width, 1), width]
  }

  /** The six indices of the cell whose top-left vertex is `corner`. */
  function Cell(width: U16, corner: U16): (c: seq<U16>)
    ensures |c| == 6
  {
    seq(6, k requires 0 <= k < 6 => AddU16(CellOffsets(width)[k], corner))
  }

  /** The vertex number `y * width` at which row `y` starts, in `u16`. */
  function RowStart(width: U16, y: nat): U16 {
    if y == 0 then 0 else AddU16(RowStart(width, y - 1), width)
  }

  /** The first `n` cells of the row starting at vertex `start`. */
  function Row(width: U16, start: U16, n: nat): seq<U16>
    requires n <= 0x1_0000
  {
    if n == 0 then [] else Row(width, start, n - 1) + Cell(width, AddU16(n - 1, start))
  }

  /** The first `n` rows of the grid. */
  function Grid(resolution: U16, n: nat): seq<U16> {
    if n == 0 then []
    else
      var width := AddU16(resolution, 1);
      Grid(resolution, n - 1) + Row(width, RowStart(width, n - 1), resolution)
  }

  /** The index list of a grid of `resolution` cells per side. */
  function IndexBuffer(resolution: U16): seq<U16> {
    Grid(resolution, resolution)
  }

  /** The closure `make_index_buffer`: rows, then cells, then the six
      corners, each pushed as `offset + (x + y * width)` in `u16`. */
  method MakeIndexBuffer(resolution: U16) returns (data: seq<U16>)
    ensures data == IndexBuffer(resolution)
    ensures |data| == 6 * (resolution * resolution)
  {
    data := [];
    var width := AddU16(resolution, 1);
    for y := 0 to resolution
      invariant data == Grid(resolution, y)
    {
      RowStartValue(width, y);
      for x := 0 to resolution
        invariant data == Grid(resolution, y) + Row(width, RowStart(width, y), x)
      {
        var corner := AddU16(x, MulU16(y, width));
        var offsets := CellOffsets(width);
        ghost var before, cell := data, Cell(width, corner);
        for k := 0 to 6
          invariant data == before + cell[..k]
        {
          data := data + [AddU16(offsets[k], corner)];
          TakeOneMore(cell, k);
        }
        assert cell[..6] == cell;
      }
    }
    IndexBufferLength(resolution);
  }

  lemma TakeOneMore(s: seq<U16>, k: nat)
    requires k < |s|
    ensures s[..k + 1] == s[..k] + [s[k]]
  {
  }

  /** Row `y` starts at vertex `y * width`, in `u16`. */
  lemma {:induction false} RowStartValue(width: U16, y: nat)
    requires y < 0x1_0000
    ensures RowStart(width, y) == MulU16(y, width)
  {
    if y > 0 {
      RowStartValue(width, y - 1);
      WrapAdd((y - 1) * width, width);
      assert (y - 1) * width + width == y * width;
    }
  }

  /** Wrapping an operand first does not change a wrapped sum. */
  lemma WrapAdd(a: int, b: int)
    ensures Wrap16(Wrap16(a) + b) == Wrap16(a + b)
  {
    var q := a / 0x1_0000;
    assert a == q * 0x1_0000 + Wrap16(a);
    assert Wrap16(a) + b == (a + b) - q * 0x1_0000;
  }

  lemma {:induction false} RowLength(width: U16, start: U16, n: nat)
    requires n <= 0x1_0000
    ensures |Row(width, start, n)| == 6 * n
  {
    if n > 0 {
      RowLength(width, start, n - 1);
    }
  }

  lemma {:induction false} GridLength(resolution: U16, n: nat)
    ensures |Grid(resolution, n)| == 6 * (n * resolution)
  {
    if n > 0 {
      var width := AddU16(resolution, 1);
      var row := Row(width, RowStart(width, n - 1), resolution);
      assert Grid(resolution, n) == Grid(resolution, n - 1) + row;
      GridLength(resolution, n - 1);
      RowLength(width, RowStart(width, n - 1), resolution);
      assert n * resolution == (n - 1) * resolution + resolution;
    }
  }

  /** The grid has six indices per cell. */
  lemma IndexBufferLength(resolution: U16)
    ensures |IndexBuffer(resolution)| == 6 * (resolution * resolution)
  {
    GridLength(resolution, resolution);
  }

  lemma {:induction false} RowAt(width: U16, start: U16, n: nat, x: nat, k: nat)
    requires n <= 0x1_0000 && x < n && k < 6
    ensures 6 * x + k < |Row(width, start, n)|
    ensures Row(width, start, n)[6 * x + k] == Cell(width, AddU16(x, start))[k]
  {
    RowLength(width, start, n - 1);
    if x < n - 1 {
      RowAt(width, start, n - 1, x, k);
    }
  }

  /** Row `y` of the grid starts right after the rows above it. */
  lemma {:induction false} GridAt(resolution: U16, n: nat, y: nat, j: nat)
    requires y < n && j < 6 * resolution
    ensures j < |Row(AddU16(resolution, 1), RowStart(AddU16(resolution, 1), y), resolution)|
    ensures |Grid(resolution, y)| + j < |Grid(resolution, n)|
    ensures Grid(resolution, n)[|Grid(resolution, y)| + j]
              == Row(AddU16(resolution, 1), RowStart(AddU16(resolution, 1), y), resolution)[j]
  {
    var width := AddU16(resolution, 1);
    var g := Grid(resolution, n - 1);
    var row := Row(width, RowStart(width, n - 1), resolution);
    assert Grid(resolution, n) == g + row;
    RowLength(width, RowStart(width, n - 1), resolution);
    RowLength(width, RowStart(width, y), resolution);
    if y < n - 1 {
      GridAt(resolution, n - 1, y, j);
      assert |Grid(resolution, y)| + j < |g|;
    } else {
      assert Grid(resolution, y) == g;
    }
  }

  /** Position of corner `k` of cell (`x`, `y`) in a buffer of `r*r` cells
      laid out row by row. */
  function CellIndex(r: nat, x: nat, y: nat, k: nat): nat
  {
    6 * (y * r + x) + k
  }

  /** Cell (`x`, `y`) occupies indices `6*(y*r + x)` to `6*(y*r + x) + 5`:
      corner `k` is `offsets[k] + (x + y * width)` for the stride
      `width = r + 1`, every operation in `u16`. */
  lemma IndexBufferCell(resolution: U16, x: nat, y: nat, k: nat)
    requires x < resolution && y < resolution && k < 6
    ensures CellIndex(resolution, x, y, k) < |IndexBuffer(resolution)|
    ensures IndexBuffer(resolution)[CellIndex(resolution, x, y, k)]
              == var width := AddU16(resolution, 1);
                 AddU16(CellOffsets(width)[k], AddU16(x, MulU16(y, width)))
  {
    GridLength(resolution, y);
    GridLength(resolution, resolution);
    CellBefore(resolution, x, y);
    GridAt(resolution, resolution, y, 6 * x + k);
    RowAt(AddU16(resolution, 1), RowStart(AddU16(resolution, 1), y), resolution, x, k);
    RowStartValue(AddU16(resolution, 1), y);
  }

  lemma CellBefore(r: nat, x: nat, y: nat)
    requires x < r && y < r
    ensures y * r + x < r * r
  {
    MulMonotone(y + 1, r, r);
    assert (y + 1) * r == y * r + r;
  }

  lemma MulMonotone(a: nat, b: nat, c: nat)
    requires a <= b
    ensures a * c <= b * c
  {
    assert b * c == a * c + (b - a) * c;
  }

  /** Below 256 cells per side nothing wraps: corner `k` of cell (`x`, `y`)
      is the vertex number `x + y*(r+1)` plus the plain corner offset, a
      vertex of the `(r+1) x (r+1)` grid. */
  lemma CornerExact(resolution: U16, x: nat, y: nat, k: nat)
    requires resolution <= 255 && x < resolution && y < resolution && k < 6
    ensures var w := resolution + 1;
            && CellOffsets(w) == [0, 1, w, 1, w + 1, w]
            && AddU16(CellOffsets(w)[k], AddU16(x, MulU16(y, w))) == CellOffsets(w)[k] + x + y * w
            && CellOffsets(w)[k] + x + y * w < w * w
  {
    var w := resolution + 1;
    CornerFits(resolution, x, y, CellOffsets(w)[k]);
    SquareBound(w);
    assert MulU16(y, w) == y * w;
  }

  lemma CornerFits(r: nat, x: nat, y: nat, offset: nat)
    requires x < r && y < r && offset <= r + 2
    ensures offset + x + y * (r + 1) < (r + 1) * (r + 1)
  {
    MulMonotone(y + 1, r, r + 1);
    assert (y + 1) * (r + 1) == y * (r + 1) + r + 1;
    assert (r + 1) * (r + 1) == r * (r + 1) + r + 1;
  }

  lemma SquareBound(w: nat)
    requires w <= 256
    ensures w * w <= 0x1_0000
  {
    MulMonotone(w, 256, w);
    MulMonotone(w, 256, 256);
    assert w * 256 == 256 * w;
  }

  lemma {:induction false} RowBound(resolution: U16, width: U16, y: nat, n: nat)
    requires resolution <= 255 && width == resolution + 1 && y < resolution && n <= resolution
    ensures forall v | v in Row(width, RowStart(width, y), n) :: v < width * width
  {
    if n > 0 {
      RowBound(resolution, width, y, n - 1);
      RowStartValue(width, y);
      var c := Cell(width, AddU16(n - 1, RowStart(width, y)));
      forall k | 0 <= k < 6 ensures c[k] < width * width {
        CornerExact(resolution, n - 1, y, k);
      }
    }
  }

  lemma {:induction false} GridBound(resolution: U16, n: nat)
    requires resolution <= 255 && n <= resolution
    ensures forall v | v in Grid(resolution, n) :: v < (resolution + 1) * (resolution + 1)
  {
    if n > 0 {
      GridBound(resolution, n - 1);
      RowBound(resolution, AddU16(resolution, 1), n - 1, resolution);
    }
  }

  /** Every index names a vertex of the `(r+1) x (r+1)` grid: below 256
      cells per side by the exact corner formula, above it because the
      grid has more vertices than a `u16` can count. */
  lemma IndexBufferBounds(resolution: U16)
    ensures forall v | v in IndexBuffer(resolution) :: v < (resolution + 1) * (resolution + 1)
  {
    if resolution <= 255 {
      GridBound(resolution, resolution);
    } else {
      MulMonotone(256, resolution + 1, 256);
      MulMonotone(256, resolution + 1, resolution + 1);
    }
  }

  // ---------------------------------------------------------------------
  // The byte layout of the buffer.

  /** The bytes of a slice of `u16`, least significant byte first. */
  function LittleEndian(s: seq<U16>): (b: seq<Byte>)
    ensures |b| == 2 * |s|
  {
    if s == [] then [] else [s[0] % 0x100, s[0] / 0x100] + LittleEndian(s[1..])
  }

  /** Reads the bytes back as `u16` values. */
  function FromLittleEndian(b: seq<Byte>): seq<U16>
  {
    if |b| < 2 then [] else [b[0] as int + 0x100 * b[1] as int] + FromLittleEndian(b[2..])
  }

  lemma {:induction false} LittleEndianRoundTrip(s: seq<U16>)
    ensures FromLittleEndian(LittleEndian(s)) == s
  {
    if s != [] {
      LittleEndianRoundTrip(s[1..]);
      assert LittleEndian(s)[2..] == LittleEndian(s[1..]);
    }
  }

  /** The whole index buffer: full resolution first, then half resolution. */
  function IndexBufferBytes(resolution: U16): seq<Byte> {
    LittleEndian(IndexBuffer(resolution)) + LittleEndian(IndexBuffer(resolution / 2))
  }

  /** Two lists laid out one after the other read back separately. */
  lemma {:induction false} LittleEndianConcat(full: seq<U16>, half: seq<U16>)
    ensures |LittleEndian(full) + LittleEndian(half)| == 2 * (|full| + |half|)
    ensures FromLittleEndian((LittleEndian(full) + LittleEndian(half))[..2 * |full|]) == full
    ensures FromLittleEndian((LittleEndian(full) + LittleEndian(half))[2 * |full|..]) == half
  {
    var bytes := LittleEndian(full) + LittleEndian(half);
    assert bytes[..2 * |full|] == LittleEndian(full);
    assert bytes[2 * |full|..] == LittleEndian(half);
    LittleEndianRoundTrip(full);
    LittleEndianRoundTrip(half);
  }

  /** Builds both index lists and writes them into one byte buffer of
      `2 * (full.len() + half.len())` bytes, the full list first. */
  method LayOutIndexBuffers(resolution: U16) returns (bytes: seq<Byte>)
    ensures bytes == IndexBufferBytes(resolution)
    ensures |bytes| == 2 * (|IndexBuffer(resolution)| + |IndexBuffer(resolution / 2)|)
    ensures FromLittleEndian(bytes[..2 * |IndexBuffer(resolution)|]) == IndexBuffer(resolution)
    ensures FromLittleEndian(bytes[2 * |IndexBuffer(resolution)|..]) == IndexBuffer(resolution / 2)
  {
    var full := MakeIndexBuffer(resolution);
    var half := MakeIndexBuffer(resolution / 2);
    bytes := LittleEndian(full) + LittleEndian(half);
    LittleEndianConcat(full, half);
  }
}
