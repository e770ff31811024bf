/** The row matrix of a table, as the block parser walks it (src/libpst.c). The rows stand in
    blocks of a fixed size, as many to a block as fit, and no row is split between two blocks. */
module RowMatrix {
  import opened Bytes
  import opened Common

  /** Where the walk is: the start of the current block and the row pointer. */
  datatype Cursor = Cursor(block: nat, ptr: nat)

  /** The bytes of a block that hold rows, in 64-bit and in 32-bit files. */
  function BlockSize(wide: bool): nat { if wide then 0x1FF0 else 0x1FF4 }

  function Advance(c: Cursor, rec: nat, wide: bool): Cursor {
    var ptr := c.ptr + rec;
    if ptr + rec > c.block + BlockSize(wide)
    then Cursor(c.block + BlockSize(wide), c.block + BlockSize(wide))
    else Cursor(c.block, ptr)
  }

  function CursorAt(k: nat, rec: nat, wide: bool): Cursor {
    if k == 0 then Cursor(0, 0) else Advance(CursorAt(k - 1, rec, wide), rec, wide)
  }

  // ---------- the closed form ----------

  /** After k = q * perBlock + s rows, the cursor is at row s of block q. */
  lemma {:induction false} InBlock(k: nat, rec: nat, wide: bool, perBlock: nat, q: nat, s: nat)
    requires 0 < rec && perBlock * rec <= BlockSize(wide) < perBlock * rec + rec
    requires s < perBlock && k == q * perBlock + s
    ensures var c := CursorAt(k, rec, wide); c.block == q * BlockSize(wide) && c.ptr == c.block + s * rec
    decreases k
  {
    if s > 0 {
      InBlock(k - 1, rec, wide, perBlock, q, s - 1);
      RowsFit(s + 1, perBlock, rec);
      assert (s - 1) * rec + rec + rec == (s + 1) * rec;
    } else if q > 0 {
      assert (q - 1) * perBlock + (perBlock - 1) == q * perBlock - 1;
      InBlock(k - 1, rec, wide, perBlock, q - 1, perBlock - 1);
      assert (perBlock - 1) * rec + rec + rec == perBlock * rec + rec;
      assert (q - 1) * BlockSize(wide) + BlockSize(wide) == q * BlockSize(wide);
    } else {
      assert 0 * perBlock == 0 && 0 * rec == 0 && 0 * BlockSize(wide) == 0;
    }
  }

  lemma {:induction false} RowsFit(s: nat, perBlock: nat, rec: nat)
    requires s <= perBlock
    ensures s * rec <= perBlock * rec
  {
    assert perBlock * rec == s * rec + (perBlock - s) * rec;
    assert (perBlock - s) * rec >= 0;
  }

  lemma {:induction false} Division(m: nat, d: nat)
    requires d > 0
    ensures m == (m / d) * d + m % d && 0 <= m % d < d
  {
  }

  /** How many rows a block has room for. */
  function PerBlock(rec: nat, wide: bool): (n: nat)
    requires 0 < rec <= BlockSize(wide)
    ensures 0 < n && n * rec <= BlockSize(wide) < n * rec + rec
  {
    Division(BlockSize(wide), rec);
    AtLeastOne(BlockSize(wide), rec, BlockSize(wide) / rec);
    BlockSize(wide) / rec
  }

  lemma {:induction false} AtLeastOne(m: nat, rec: nat, n: int)
    requires 0 < rec <= m && m < n * rec + rec
    ensures n > 0
  {
    assert n <= 0 ==> n * rec <= 0;
  }

  /** The row pointer in closed form, for rows that fit into a block. */
  lemma {:induction false} ClosedForm(k: nat, rec: nat, wide: bool)
    requires 0 < rec <= BlockSize(wide)
    ensures var c, perBlock := CursorAt(k, rec, wide), PerBlock(rec, wide);
      c.block == (k / perBlock) * BlockSize(wide) && c.ptr == c.block + (k % perBlock) * rec
  {
    var perBlock := PerBlock(rec, wide);
    Division(k, perBlock);
    InBlock(k, rec, wide, perBlock, k / perBlock, k % perBlock);
  }

  /** The same in numbers, for 64-bit and for 32-bit files. */
  lemma {:induction false} RowPositions(k: nat, rec: nat)
    requires rec > 0
    ensures rec <= 8176 ==> CursorAt(k, rec, true).ptr == k / (8176 / rec) * 8176 + k % (8176 / rec) * rec
    ensures rec <= 8180 ==> CursorAt(k, rec, false).ptr == k / (8180 / rec) * 8180 + k % (8180 / rec) * rec
  {
    if rec <= 8176 { ClosedForm(k, rec, true); }
    if rec <= 8180 { ClosedForm(k, rec, false); }
  }

  /** Rows larger than a block get a block each, which they overrun. */
  lemma {:induction false} OversizedRows(k: nat, rec: nat, wide: bool)
    requires rec > BlockSize(wide)
    ensures var c := CursorAt(k, rec, wide); c.block == c.ptr == k * BlockSize(wide)
    decreases k
  {
    if k > 0 {
      OversizedRows(k - 1, rec, wide);
      assert (k - 1) * BlockSize(wide) + BlockSize(wide) == k * BlockSize(wide);
    } else {
      assert 0 * BlockSize(wide) == 0;
    }
  }

  /** Row k lies within its block. */
  predicate Unsplit(k: nat, rec: nat, wide: bool) {
    var c := CursorAt(k, rec, wide);
    c.block <= c.ptr && c.ptr + rec <= c.block + BlockSize(wide)
  }

  /** Row k ends before the next one begins. */
  predicate Apart(k: nat, rec: nat, wide: bool) {
    CursorAt(k, rec, wide).ptr + rec <= CursorAt(k + 1, rec, wide).ptr
  }

  lemma {:induction false} FittingRow(k: nat, rec: nat, wide: bool)
    requires rec <= BlockSize(wide)
    ensures Unsplit(k, rec, wide) && Apart(k, rec, wide)
    decreases k
  {
    if k > 0 { FittingRow(k - 1, rec, wide); }
  }

  /** No row is split between blocks, and no two rows share a byte, exactly when a row fits into
      a block. */
  lemma {:induction false} UnsplitIffRowFits(rec: nat, wide: bool)
    ensures (forall k: nat :: Unsplit(k, rec, wide)) <==> rec <= BlockSize(wide)
    ensures (forall k: nat :: Apart(k, rec, wide)) <==> rec <= BlockSize(wide)
  {
    if rec <= BlockSize(wide) {
      forall k: nat ensures Unsplit(k, rec, wide) && Apart(k, rec, wide) { FittingRow(k, rec, wide); }
    } else {
      OversizedRows(0, rec, wide);
      OversizedRows(1, rec, wide);
      assert !Unsplit(0, rec, wide) && !Apart(0, rec, wide);
    }
  }

  // ---------- the layout of section 2.3.4.4 of [MS-PST] ----------

  predicate AllOfSize(rows: seq<seq<byte>>, rec: nat) {
    forall i :: 0 <= i < |rows| ==> |rows[i]| == rec
  }

  function Flat(rows: seq<seq<byte>>): seq<byte> {
    if rows == [] then [] else rows[0] + Flat(rows[1..])
  }

  /** The matrix as it is written: full blocks, padded to their size, and then the rest. */
  function Layout(rows: seq<seq<byte>>, perBlock: nat, padding: seq<byte>): seq<byte>
    requires perBlock > 0
    decreases |rows|
  {
    if |rows| <= perBlock then Flat(rows)
    else Flat(rows[..perBlock]) + padding + Layout(rows[perBlock..], perBlock, padding)
  }

  lemma {:induction false} FlatAt(rows: seq<seq<byte>>, rec: nat, s: nat)
    requires AllOfSize(rows, rec) && s < |rows|
    ensures |Flat(rows)| == |rows| * rec && 0 <= s * rec && s * rec + rec <= |Flat(rows)|
    ensures Flat(rows)[s * rec..s * rec + rec] == rows[s]
    decreases |rows|
  {
    var rest := Flat(rows[1..]);
    assert |rows| * rec == rec + (|rows| - 1) * rec;
    if |rows| == 1 {
      assert Flat(rows) == rows[0];
    } else if s == 0 {
      FlatAt(rows[1..], rec, 0);
    } else {
      FlatAt(rows[1..], rec, s - 1);
      assert s * rec == rec + (s - 1) * rec;
      assert Flat(rows)[s * rec..s * rec + rec] == rest[(s - 1) * rec..(s - 1) * rec + rec];
    }
  }

  lemma {:induction false} SliceBehind(first: seq<byte>, later: seq<byte>, at: nat, size: nat)
    requires at + size <= |later|
    ensures (first + later)[|first| + at..|first| + at + size] == later[at..at + size]
  {
  }

  /** Row s of block q, where `base` and `above` are the bytes and the rows before the block. */
  lemma {:induction false} LayoutAt(rows: seq<seq<byte>>, rec: nat, block: nat, perBlock: nat, padding: seq<byte>,
                                    q: nat, s: nat, base: nat, above: nat, off: nat)
    requires AllOfSize(rows, rec) && perBlock > 0 && perBlock * rec + |padding| == block
    requires base == q * block && above == q * perBlock && off == s * rec
    requires s < perBlock && above + s < |rows|
    ensures base + off + rec <= |Layout(rows, perBlock, padding)|
    ensures Layout(rows, perBlock, padding)[base + off..base + off + rec] == rows[above + s]
    decreases q
  {
    if q == 0 {
      FirstBlock(rows, rec, perBlock, padding, s);
    } else {
      Unfold(q, perBlock);
      Unfold(q, block);
      LayoutAt(rows[perBlock..], rec, block, perBlock, padding, q - 1, s, base - block, above - perBlock, off);
      BehindBlock(rows, rec, block, perBlock, padding, base - block + off, above - perBlock + s);
    }
  }

  lemma {:induction false} BehindBlock(rows: seq<seq<byte>>, rec: nat, block: nat, perBlock: nat, padding: seq<byte>,
                                       at: nat, k: nat)
    requires AllOfSize(rows, rec) && perBlock * rec + |padding| == block
    requires 0 < perBlock < |rows| && k + perBlock < |rows|
    requires var later := Layout(rows[perBlock..], perBlock, padding);
      at + rec <= |later| && later[at..at + rec] == rows[perBlock..][k]
    ensures var data := Layout(rows, perBlock, padding);
      && block + at + rec <= |data|
      && data[block + at..block + at + rec] == rows[perBlock + k]
  {
    FlatAt(rows[..perBlock], rec, 0);
    SliceBehind(Flat(rows[..perBlock]) + padding, Layout(rows[perBlock..], perBlock, padding), at, rec);
  }

  lemma {:induction false} Unfold(q: nat, m: nat)
    requires q > 0
    ensures q * m == m + (q - 1) * m && (q - 1) * m >= 0
  {
  }

  lemma {:induction false} FirstBlock(rows: seq<seq<byte>>, rec: nat, perBlock: nat, padding: seq<byte>, s: nat)
    requires AllOfSize(rows, rec) && s < perBlock && s < |rows|
    ensures 0 <= s * rec && s * rec + rec <= |Layout(rows, perBlock, padding)|
    ensures Layout(rows, perBlock, padding)[s * rec..s * rec + rec] == rows[s]
  {
    if |rows| <= perBlock {
      FlatAt(rows, rec, s);
    } else {
      var full := rows[..perBlock];
      FlatAt(full, rec, s);
      var rest := padding + Layout(rows[perBlock..], perBlock, padding);
      assert Layout(rows, perBlock, padding) == Flat(full) + rest;
      assert (Flat(full) + rest)[s * rec..s * rec + rec] == Flat(full)[s * rec..s * rec + rec];
    }
  }

  /** Every row of a matrix laid out in this way is found where the cursor stands for it. */
  lemma {:induction false} CursorFindsRow(rows: seq<seq<byte>>, rec: nat, wide: bool, padding: seq<byte>, k: nat)
    requires 0 < rec <= BlockSize(wide) && AllOfSize(rows, rec) && k < |rows|
    requires |padding| == BlockSize(wide) - PerBlock(rec, wide) * rec
    ensures var data, at := Layout(rows, PerBlock(rec, wide), padding), CursorAt(k, rec, wide).ptr;
      at + rec <= |data| && data[at..at + rec] == rows[k]
  {
    var perBlock := PerBlock(rec, wide);
    Division(k, perBlock);
    FoundInBlock(rows, rec, wide, perBlock, padding, k, k / perBlock, k % perBlock);
  }

  lemma {:induction false} FoundInBlock(rows: seq<seq<byte>>, rec: nat, wide: bool, perBlock: nat, padding: seq<byte>,
                                        k: nat, q: nat, s: nat)
    requires 0 < rec && AllOfSize(rows, rec) && k < |rows| && k == q * perBlock + s && s < perBlock
    requires perBlock * rec + |padding| == BlockSize(wide) && |padding| < rec
    ensures var data, at := Layout(rows, perBlock, padding), CursorAt(k, rec, wide).ptr;
      at + rec <= |data| && data[at..at + rec] == rows[k]
  {
    InBlock(k, rec, wide, perBlock, q, s);
    LayoutAt(rows, rec, BlockSize(wide), perBlock, padding, q, s, q * BlockSize(wide), q * perBlock, s * rec);
  }

  // ---------- reading the table ----------

  /** Where a cell lies in its row: table2_rec.ind2_off and table2_rec.size. */
  datatype Column = Column(offset: nat, size: nat)

  /** The bytes of one cell, unless they would run past the end of the matrix. */
  function Cell(data: seq<byte>, ptr: nat, c: Column): Option<seq<byte>> {
    if ptr + c.offset + c.size <= |data| then Some(data[ptr + c.offset..ptr + c.offset + c.size]) else None
  }

  function Cells(data: seq<byte>, ptr: nat, columns: seq<Column>): (r: seq<Option<seq<byte>>>)
    ensures |r| == |columns|
  {
    if columns == [] then []
    else Cells(data, ptr, columns[..|columns| - 1]) + [Cell(data, ptr, columns[|columns| - 1])]
  }

  lemma {:induction false} CellsAt(data: seq<byte>, ptr: nat, columns: seq<Column>, i: nat)
    requires i < |columns|
    ensures Cells(data, ptr, columns)[i] == Cell(data, ptr, columns[i])
    decreases |columns|
  {
    if i < |columns| - 1 { CellsAt(data, ptr, columns[..|columns| - 1], i); }
  }

  function Table(data: seq<byte>, objects: nat, rec: nat, wide: bool, columns: seq<Column>): (t: seq<seq<Option<seq<byte>>>>)
    ensures |t| == objects && forall k :: 0 <= k < objects ==> |t[k]| == |columns|
  {
    if objects == 0 then []
    else
      Table(data, objects - 1, rec, wide, columns) + [Cells(data, CursorAt(objects - 1, rec, wide).ptr, columns)]
  }

  lemma {:induction false} TableAt(data: seq<byte>, objects: nat, rec: nat, wide: bool, columns: seq<Column>, k: nat)
    requires k < objects
    ensures Table(data, objects, rec, wide, columns)[k] == Cells(data, CursorAt(k, rec, wide).ptr, columns)
  {
    if k < objects - 1 { TableAt(data, objects - 1, rec, wide, columns, k); }
  }

  /** The element loop of the parser. */
  method ReadRow(data: seq<byte>, ptr: nat, columns: seq<Column>) returns (cells: seq<Option<seq<byte>>>)
    ensures cells == Cells(data, ptr, columns)
  {
    cells := [];
    var x := 0;
    while x < |columns|
      invariant 0 <= x <= |columns| && cells == Cells(data, ptr, columns[..x])
    {
      cells := cells + [Cell(data, ptr, columns[x])];
      assert columns[..x + 1][..x] == columns[..x];
      x := x + 1;
    }
    assert columns[..x] == columns;
  }

  /** The object loop of the parser. */
  method ReadTable(data: seq<byte>, objects: nat, rec: nat, wide: bool, columns: seq<Column>)
    returns (table: seq<seq<Option<seq<byte>>>>)
    ensures table == Table(data, objects, rec, wide, columns)
  {
    table := [];
    var ptr: nat, blockStart: nat, k: nat := 0, 0, 0;
    while k < objects
      invariant k <= objects && table == Table(data, k, rec, wide, columns)
      invariant Cursor(blockStart, ptr) == CursorAt(k, rec, wide)
    {
      var row := ReadRow(data, ptr, columns);
      table := table + [row];
      k := k + 1;
      ptr := ptr + rec;
      if ptr + rec > blockStart + BlockSize(wide) {
        blockStart := blockStart + BlockSize(wide);
        ptr := blockStart;
      }
    }
  }

  /** What is read of a matrix laid out by the format is, in every row and column, the cell that
      was written. */
  lemma {:induction false} WrittenTableIsRead(rows: seq<seq<byte>>, rec: nat, wide: bool, padding: seq<byte>,
                                              columns: seq<Column>, k: nat, i: nat)
    requires 0 < rec <= BlockSize(wide) && AllOfSize(rows, rec) && k < |rows| && i < |columns|
    requires |padding| == BlockSize(wide) - PerBlock(rec, wide) * rec && columns[i].offset + columns[i].size <= rec
    ensures Table(Layout(rows, PerBlock(rec, wide), padding), |rows|, rec, wide, columns)[k][i]
         == Some(rows[k][columns[i].offset..columns[i].offset + columns[i].size])
  {
    var data, at := Layout(rows, PerBlock(rec, wide), padding), CursorAt(k, rec, wide).ptr;
    TableAt(data, |rows|, rec, wide, columns, k);
    CellsAt(data, at, columns, i);
    CursorFindsRow(rows, rec, wide, padding, k);
    InRow(data, at, rec, columns[i]);
  }

  /** A cell is left out exactly if it would reach beyond the end of the matrix. */
  lemma {:induction false} OutsideIsNotRead(data: seq<byte>, objects: nat, rec: nat, wide: bool, columns: seq<Column>,
                                            k: nat, i: nat)
    requires k < objects && i < |columns|
    ensures Table(data, objects, rec, wide, columns)[k][i] == None
      <==> CursorAt(k, rec, wide).ptr + columns[i].offset + columns[i].size > |data|
  {
    TableAt(data, objects, rec, wide, columns, k);
    CellsAt(data, CursorAt(k, rec, wide).ptr, columns, i);
  }

  lemma {:induction false} InRow(data: seq<byte>, at: nat, rec: nat, c: Column)
    requires at + rec <= |data| && c.offset + c.size <= rec
    ensures Cell(data, at, c) == Some(data[at..at + rec][c.offset..c.offset + c.size])
  {
    var row := data[at..at + rec];
    var cell, part := data[at + c.offset..at + c.offset + c.size], row[c.offset..c.offset + c.size];
    assert forall i :: 0 <= i < c.size ==> cell[i] == row[c.offset + i];
    assert cell == part;
  }
}
