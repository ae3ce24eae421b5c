/**
 * The infinite canvas of src/chunked_grid.rs. Characters are stored sparsely
 * in 32x32 chunks; a chunk is created by the first write into it and dropped
 * as soon as its last character is erased. Writing ' ', '\n' or '\r' erases.
 */
module Chunked {
  import opened Wrappers
  import opened Text
  import opened Ints

  const CHUNK_SIZE: nat := 32

  type Pos = (nat, nat)
  type Local = (nat, nat)
  type ChunkKey = (nat, nat)
  /** (min_row, min_col, max_row, max_col) */
  type Box = (nat, nat, nat, nat)

  function Min(a: nat, b: nat): nat { if a <= b then a else b }
  function Max(a: nat, b: nat): nat { if a <= b then b else a }

  /** The characters `Chunk::set` stores as an absent cell. */
  predicate IsBlank(ch: char) { ch == ' ' || ch == '\n' || ch == '\r' }

  /** What `get` returns for a cell last written with `ch`. */
  function ReadBack(ch: char): (r: char)
    ensures r == ' ' <==> IsBlank(ch)
    ensures !IsBlank(ch) ==> r == ch
  {
    if IsBlank(ch) then ' ' else ch
  }

  /** One 32x32 chunk: its non-blank cells by local position. */
  datatype Chunk = Chunk(cells: map<Local, char>) {
    function Get(lr: nat, lc: nat): char {
      if (lr, lc) in cells then cells[(lr, lc)] else ' '
    }

    /** `Chunk::set`: a blank erases the cell, anything else is stored. */
    function Set(lr: nat, lc: nat, ch: char): Chunk
    {
      if IsBlank(ch) then Chunk(cells - {(lr, lc)}) else Chunk(cells[(lr, lc) := ch])
    }

    predicate IsEmpty() { cells == map[] }
  }

  /** A chunk as the grid keeps it: non-empty, inside 32x32, no blank stored. */
  ghost predicate WellFormed(c: Chunk) {
    !c.IsEmpty() && CellsOK(c)
  }

  ghost predicate CellsOK(c: Chunk) {
    forall l :: l in c.cells ==> l.0 < CHUNK_SIZE && l.1 < CHUNK_SIZE && !IsBlank(c.cells[l])
  }

  lemma SetKeepsWellFormed(c: Chunk, lr: nat, lc: nat, ch: char)
    requires CellsOK(c) && lr < CHUNK_SIZE && lc < CHUNK_SIZE
    ensures CellsOK(c.Set(lr, lc, ch))
  {
  }

  /** The invariant of the chunk map: every chunk well formed and inside the tracked chunk bounds. */
  ghost predicate ValidChunks(m: map<ChunkKey, Chunk>, lo: ChunkKey, hi: ChunkKey) {
    forall k :: k in m ==> WellFormed(m[k]) && lo.0 <= k.0 <= hi.0 && lo.1 <= k.1 <= hi.1
  }

  lemma ValidRemove(m: map<ChunkKey, Chunk>, lo: ChunkKey, hi: ChunkKey, key: ChunkKey)
    requires ValidChunks(m, lo, hi)
    ensures ValidChunks(m - {key}, lo, hi)
  {
  }

  lemma ValidPut(m: map<ChunkKey, Chunk>, lo: ChunkKey, hi: ChunkKey, key: ChunkKey, c: Chunk)
    requires ValidChunks(m, lo, hi) && WellFormed(c)
    ensures ValidChunks(m[key := c], (Min(lo.0, key.0), Min(lo.1, key.1)), (Max(hi.0, key.0), Max(hi.1, key.1)))
  {
  }

  // ---------------------------------------------------------------------
  // Chunk coordinates

  /** `pos_to_chunk` as written: the chunk index is cast to `i32`. */
  function PosToChunkAsWritten(row: nat, col: nat): ((int, int), Local) {
    ((AsI32(row / 32), AsI32(col / 32)), (row % 32, col % 32))
  }

  /** Rows 2^37 apart share a chunk key and a local position, so they alias. */
  lemma PosToChunkAsWrittenAliases()
    ensures PosToChunkAsWritten(0x20_0000_0000, 0) == PosToChunkAsWritten(0, 0)
  {
  }

  /**
   * `pos_to_chunk` with chunk indices that cannot wrap; the grid below uses
   * this one. The chunk index is `ChunkIndex`, the local offset what is left.
   */
  function PosToChunk(row: nat, col: nat): (r: (ChunkKey, Local))
    ensures r.1.0 < CHUNK_SIZE && r.1.1 < CHUNK_SIZE
  {
    var qr, qc := ChunkIndex(row), ChunkIndex(col);
    ((qr, qc), (row - 32 * qr, col - 32 * qc))
  }

  /** `x / CHUNK_SIZE`, by repeated subtraction: the chunk whose 32 positions include x. */
  function ChunkIndex(x: nat): (q: nat)
    ensures 32 * q <= x < 32 * q + 32
  {
    if x < 32 then 0 else 1 + ChunkIndex(x - 32)
  }

  /** `ChunkIndex` is floor division by the chunk size, and the local offset the remainder. */
  lemma ChunkIndexIsDiv(x: nat)
    ensures ChunkIndex(x) == x / 32 && x - 32 * ChunkIndex(x) == x % 32
  {
    DivModUnique(x, ChunkIndex(x), x - 32 * ChunkIndex(x));
  }

  /** `chunk_to_pos(pos_to_chunk(p)) == p`. */
  lemma PosToChunkRoundTrip(row: nat, col: nat)
    ensures ChunkToPos(PosToChunk(row, col).0, PosToChunk(row, col).1) == (row, col)
  {
  }

  /** `chunk_to_pos`. */
  function ChunkToPos(chunk: ChunkKey, local: Local): Pos {
    (chunk.0 * 32 + local.0, chunk.1 * 32 + local.1)
  }

  /** Every in-chunk position comes back unchanged through `chunk_to_pos` then `pos_to_chunk`. */
  lemma ChunkToPosRoundTrip(chunk: ChunkKey, local: Local)
    requires local.0 < CHUNK_SIZE && local.1 < CHUNK_SIZE
    ensures PosToChunk(ChunkToPos(chunk, local).0, ChunkToPos(chunk, local).1) == (chunk, local)
  {
    var p := ChunkToPos(chunk, local);
    ChunkIndexUnique(p.0, chunk.0);
    ChunkIndexUnique(p.1, chunk.1);
  }

  /** Only one chunk index q has x among its 32 positions. */
  lemma ChunkIndexUnique(x: nat, q: nat)
    requires 32 * q <= x < 32 * q + 32
    ensures ChunkIndex(x) == q
  {
  }

  lemma DivModUnique(x: nat, q: nat, r: nat)
    requires r < 32 && x == q * 32 + r
    ensures x / 32 == q && x % 32 == r
  {
  }

  /** Below 32 * 2^31 the `i32` cast is harmless: the source agrees with the corrected form. */
  lemma PosToChunkAgrees(row: nat, col: nat)
    requires row < 0x10_0000_0000 && col < 0x10_0000_0000
    ensures PosToChunkAsWritten(row, col).0 == (PosToChunk(row, col).0.0 as int, PosToChunk(row, col).0.1 as int)
    ensures PosToChunkAsWritten(row, col).1 == PosToChunk(row, col).1
  {
    ChunkIndexIsDiv(row);
    ChunkIndexIsDiv(col);
  }

  // ---------------------------------------------------------------------
  // Block selection (the rectangular selection kept by the grid)

  datatype BlockSelection = BlockSelection(startRow: nat, startCol: nat, endRow: nat, endCol: nat) {
    /** `BlockSelection::new`: a one-cell selection anchored at (row, col). */
    static function New(row: nat, col: nat): (s: BlockSelection)
      ensures s.Bounds() == (row, col, row, col)
      ensures forall r: nat, c: nat :: s.Contains(r, c) <==> r == row && c == col
    {
      BlockSelection(row, col, row, col)
    }

    /** `update`: moves the dragged corner; the anchor stays. */
    function Update(row: nat, col: nat): (s: BlockSelection)
      ensures s.startRow == startRow && s.startCol == startCol
      ensures s.Contains(startRow, startCol) && s.Contains(row, col)
      ensures s.Bounds() == (Min(startRow, row), Min(startCol, col), Max(startRow, row), Max(startCol, col))
      ensures forall r: nat, c: nat :: s.Contains(r, c) <==>
                Min(startRow, row) <= r <= Max(startRow, row) && Min(startCol, col) <= c <= Max(startCol, col)
    {
      this.(endRow := row, endCol := col)
    }

    /** `bounds`: the normalised corners, whatever the drag direction. */
    function Bounds(): (b: Box)
      ensures b.0 <= b.2 && b.1 <= b.3
      ensures (b.0, b.2) == (startRow, endRow) || (b.0, b.2) == (endRow, startRow)
      ensures (b.1, b.3) == (startCol, endCol) || (b.1, b.3) == (endCol, startCol)
    {
      (Min(startRow, endRow), Min(startCol, endCol), Max(startRow, endRow), Max(startCol, endCol))
    }

    /** `contains`: inclusive membership in the rectangle spanned by the two corners. */
    function Contains(row: nat, col: nat): (r: bool)
      ensures r <==> ((startRow <= row <= endRow || endRow <= row <= startRow)
                      && (startCol <= col <= endCol || endCol <= col <= startCol))
    {
      var b := Bounds();
      b.0 <= row <= b.2 && b.1 <= col <= b.3
    }
  }

  /** The viewport rectangle handed to `get_visible_chunks`. */
  datatype Viewport = Viewport(startRow: nat, startCol: nat, endRow: nat, endCol: nat)

  /** Row-major order on chunk keys, the order `get_visible_chunks` lists them in. */
  predicate KeyBefore(a: ChunkKey, b: ChunkKey) {
    a.0 < b.0 || (a.0 == b.0 && a.1 < b.1)
  }

  // ---------------------------------------------------------------------
  // Bounding boxes

  /** `b` is the smallest box holding every position of the non-empty set `s`. */
  ghost predicate IsTightBox(s: set<Pos>, b: Box) {
    (forall p :: p in s ==> b.0 <= p.0 <= b.2 && b.1 <= p.1 <= b.3)
    && (exists p :: p in s && p.0 == b.0) && (exists p :: p in s && p.1 == b.1)
    && (exists p :: p in s && p.0 == b.2) && (exists p :: p in s && p.1 == b.3)
  }

  function Grow(b: Box, p: Pos): Box {
    (Min(b.0, p.0), Min(b.1, p.1), Max(b.2, p.0), Max(b.3, p.1))
  }

  lemma TightBoxAdd(s: set<Pos>, b: Box, p: Pos)
    requires IsTightBox(s, b)
    ensures IsTightBox(s + {p}, Grow(b, p))
  {
    var g := Grow(b, p);
    var s' := s + {p};
    var w0 :| w0 in s && w0.0 == b.0;
    var w1 :| w1 in s && w1.1 == b.1;
    var w2 :| w2 in s && w2.0 == b.2;
    var w3 :| w3 in s && w3.1 == b.3;
    assert (if p.0 < b.0 then p else w0) in s' && (if p.0 < b.0 then p else w0).0 == g.0;
    assert (if p.1 < b.1 then p else w1) in s' && (if p.1 < b.1 then p else w1).1 == g.1;
    assert (if p.0 > b.2 then p else w2) in s' && (if p.0 > b.2 then p else w2).0 == g.2;
    assert (if p.1 > b.3 then p else w3) in s' && (if p.1 > b.3 then p else w3).1 == g.3;
  }

  lemma {:induction false} TightBoxExists(s: set<Pos>)
    requires s != {}
    ensures exists b :: IsTightBox(s, b)
    decreases |s|
  {
    var x :| x in s;
    if s == {x} {
      assert IsTightBox(s, (x.0, x.1, x.0, x.1));
    } else {
      TightBoxExists(s - {x});
      var b :| IsTightBox(s - {x}, b);
      TightBoxAdd(s - {x}, b, x);
      assert s - {x} + {x} == s;
    }
  }

  lemma TightBoxUnique(s: set<Pos>, b1: Box, b2: Box)
    requires IsTightBox(s, b1) && IsTightBox(s, b2)
    ensures b1 == b2
  {
  }

  /** Second half of the chunk/position correspondence used by the frame proofs. */
  function Span(first: nat, last: nat): nat {
    if first <= last then last - first + 1 else 0
  }

  /** The char a chunk map holds at a chunk key and local position. */
  function ChunkCell(m: map<ChunkKey, Chunk>, key: ChunkKey, local: Local): char {
    if key in m then m[key].Get(local.0, local.1) else ' '
  }

  /** The char a chunk map holds at a grid position (`ChunkedGrid::get`). */
  function CellAt(m: map<ChunkKey, Chunk>, row: nat, col: nat): char {
    var p := PosToChunk(row, col);
    ChunkCell(m, p.0, p.1)
  }

  /** The chunk `set` writes into: the existing one, or a fresh empty chunk. */
  function ChunkFor(m: map<ChunkKey, Chunk>, key: ChunkKey): Chunk {
    if key in m then m[key] else Chunk(map[])
  }

  /** The chunk map after writing `ch` at `local` of chunk `key`: the updated chunk, or none when it became empty. */
  function Store(m: map<ChunkKey, Chunk>, key: ChunkKey, local: Local, ch: char): map<ChunkKey, Chunk> {
    var updated := ChunkFor(m, key).Set(local.0, local.1, ch);
    if updated.IsEmpty() then m - {key} else m[key := updated]
  }

  /** Read-after-write on the chunk map, one chunk cell at a time. */
  lemma StoreCell(m: map<ChunkKey, Chunk>, key: ChunkKey, local: Local, ch: char, key': ChunkKey, local': Local)
    ensures ChunkCell(Store(m, key, local, ch), key', local') ==
      if (key', local') == (key, local) then ReadBack(ch) else ChunkCell(m, key', local')
  {
    var before := ChunkFor(m, key);
    var updated := before.Set(local.0, local.1, ch);
    var m' := Store(m, key, local, ch);
    if key' != key {
      assert (key' in m') == (key' in m);
      assert key' in m ==> m'[key'] == m[key'];
    } else if updated.IsEmpty() {
      assert key !in m';
      assert local' !in updated.cells;
      if local' != local {
        assert (local' in updated.cells) == (local' in before.cells);
      }
    } else {
      assert m'[key] == updated;
      if local' != local {
        assert (local' in updated.cells) == (local' in before.cells);
        assert local' in before.cells ==> updated.cells[local'] == before.cells[local'];
      }
    }
  }

  /** Distinct grid positions lie in distinct chunk cells. */
  lemma PosToChunkInjective(r: nat, c: nat, row: nat, col: nat)
    requires (r, c) != (row, col)
    ensures PosToChunk(r, c) != PosToChunk(row, col)
  {
  }

  // ---------------------------------------------------------------------
  // Stored cells and the content box

  /** Chunk `k` of `m` stores a character at local position `l`. */
  ghost predicate Stored(m: map<ChunkKey, Chunk>, k: ChunkKey, l: Local) {
    k in m && l in m[k].cells
  }

  predicate InBox(p: Pos, b: Box) {
    b.0 <= p.0 <= b.2 && b.1 <= p.1 <= b.3
  }

  /**
   * `b` is what `bounds` reports for the chunk map `m`: every stored cell lies
   * inside it, and each of its four edges runs through a stored cell.
   */
  ghost predicate IsContentBox(m: map<ChunkKey, Chunk>, b: Box) {
    (forall k, l :: Stored(m, k, l) ==> InBox(ChunkToPos(k, l), b))
    && (exists k, l :: Stored(m, k, l) && ChunkToPos(k, l).0 == b.0)
    && (exists k, l :: Stored(m, k, l) && ChunkToPos(k, l).1 == b.1)
    && (exists k, l :: Stored(m, k, l) && ChunkToPos(k, l).0 == b.2)
    && (exists k, l :: Stored(m, k, l) && ChunkToPos(k, l).1 == b.3)
  }

  /** The positions held by the chunks of `m` whose keys are in `ks`. */
  ghost function PositionsIn(m: map<ChunkKey, Chunk>, ks: set<ChunkKey>): set<Pos> {
    set k, l | k in ks && k in m && l in m[k].cells :: ChunkToPos(k, l)
  }

  /** Some cell is stored, so a content box exists: the tight box of the stored positions. */
  lemma ContentBoxExists(m: map<ChunkKey, Chunk>)
    requires exists k, l :: Stored(m, k, l)
    ensures exists b :: IsContentBox(m, b)
  {
    var s := PositionsIn(m, m.Keys);
    var k0, l0 :| Stored(m, k0, l0);
    assert ChunkToPos(k0, l0) in s;
    TightBoxExists(s);
    var b :| IsTightBox(s, b);
    TightIsContent(m, b);
  }

  /** The tight box of the stored positions is the content box. */
  lemma TightIsContent(m: map<ChunkKey, Chunk>, b: Box)
    requires IsTightBox(PositionsIn(m, m.Keys), b)
    ensures IsContentBox(m, b)
  {
    var s := PositionsIn(m, m.Keys);
    forall k, l | Stored(m, k, l) ensures InBox(ChunkToPos(k, l), b) {
      assert ChunkToPos(k, l) in s;
    }
    var p0 :| p0 in s && p0.0 == b.0;
    var p1 :| p1 in s && p1.1 == b.1;
    var p2 :| p2 in s && p2.0 == b.2;
    var p3 :| p3 in s && p3.1 == b.3;
    assert exists k, l :: Stored(m, k, l) && ChunkToPos(k, l).0 == b.0 by {
      StoredAt(m, p0);
      var k, l :| Stored(m, k, l) && ChunkToPos(k, l) == p0;
      assert ChunkToPos(k, l).0 == b.0;
    }
    assert exists k, l :: Stored(m, k, l) && ChunkToPos(k, l).1 == b.1 by {
      StoredAt(m, p1);
      var k, l :| Stored(m, k, l) && ChunkToPos(k, l) == p1;
      assert ChunkToPos(k, l).1 == b.1;
    }
    assert exists k, l :: Stored(m, k, l) && ChunkToPos(k, l).0 == b.2 by {
      StoredAt(m, p2);
      var k, l :| Stored(m, k, l) && ChunkToPos(k, l) == p2;
      assert ChunkToPos(k, l).0 == b.2;
    }
    assert exists k, l :: Stored(m, k, l) && ChunkToPos(k, l).1 == b.3 by {
      StoredAt(m, p3);
      var k, l :| Stored(m, k, l) && ChunkToPos(k, l) == p3;
      assert ChunkToPos(k, l).1 == b.3;
    }
    assert IsContentBox(m, b);
  }

  /** Each position of the stored chunks comes from a stored cell. */
  lemma StoredAt(m: map<ChunkKey, Chunk>, p: Pos)
    requires p in PositionsIn(m, m.Keys)
    ensures exists k, l :: Stored(m, k, l) && ChunkToPos(k, l) == p
  {
    var k, l :| k in m && l in m[k].cells && ChunkToPos(k, l) == p;
    assert Stored(m, k, l);
  }

  /** The content box is unique. */
  lemma ContentBoxUnique(m: map<ChunkKey, Chunk>, b1: Box, b2: Box)
    requires IsContentBox(m, b1) && IsContentBox(m, b2)
    ensures b1 == b2
  {
    ContentBoxWithin(m, b1, b2);
    ContentBoxWithin(m, b2, b1);
  }

  /** The edge cells of a content box `b2` lie inside any content box `b1`, so `b2` does too. */
  lemma ContentBoxWithin(m: map<ChunkKey, Chunk>, b1: Box, b2: Box)
    requires IsContentBox(m, b1) && IsContentBox(m, b2)
    ensures b1.0 <= b2.0 && b1.1 <= b2.1 && b2.2 <= b1.2 && b2.3 <= b1.3
  {
    var j0, i0 :| Stored(m, j0, i0) && ChunkToPos(j0, i0).0 == b2.0;
    var j1, i1 :| Stored(m, j1, i1) && ChunkToPos(j1, i1).1 == b2.1;
    var j2, i2 :| Stored(m, j2, i2) && ChunkToPos(j2, i2).0 == b2.2;
    var j3, i3 :| Stored(m, j3, i3) && ChunkToPos(j3, i3).1 == b2.3;
    assert InBox(ChunkToPos(j0, i0), b1) && InBox(ChunkToPos(j1, i1), b1);
    assert InBox(ChunkToPos(j2, i2), b1) && InBox(ChunkToPos(j3, i3), b1);
  }

  /** The cells `bounds` has visited: all of the chunks in `ks`, and the locals `ls` of chunk `k`. */
  ghost predicate Visited(m: map<ChunkKey, Chunk>, ks: set<ChunkKey>, k: ChunkKey, ls: set<Local>, k': ChunkKey, l': Local) {
    Stored(m, k', l') && (k' in ks || (k' == k && l' in ls))
  }

  /**
   * The loop state of `bounds`: `b` holds every visited cell, and the
   * visited cells w0..w3 lie on its four edges.
   */
  ghost predicate Scanned(m: map<ChunkKey, Chunk>, ks: set<ChunkKey>, k: ChunkKey, ls: set<Local>, b: Box,
                          w0: (ChunkKey, Local), w1: (ChunkKey, Local), w2: (ChunkKey, Local), w3: (ChunkKey, Local)) {
    (forall k', l' :: Visited(m, ks, k, ls, k', l') ==> InBox(ChunkToPos(k', l'), b))
    && Visited(m, ks, k, ls, w0.0, w0.1) && ChunkToPos(w0.0, w0.1).0 == b.0
    && Visited(m, ks, k, ls, w1.0, w1.1) && ChunkToPos(w1.0, w1.1).1 == b.1
    && Visited(m, ks, k, ls, w2.0, w2.1) && ChunkToPos(w2.0, w2.1).0 == b.2
    && Visited(m, ks, k, ls, w3.0, w3.1) && ChunkToPos(w3.0, w3.1).1 == b.3
  }

  /** The first cell visited gives a one-cell box. */
  lemma ScannedFirst(m: map<ChunkKey, Chunk>, ks: set<ChunkKey>, k: ChunkKey, ls: set<Local>, l: Local)
    requires Stored(m, k, l) && forall k', l' :: !Visited(m, ks, k, ls, k', l')
    ensures var p := ChunkToPos(k, l);
      Scanned(m, ks, k, ls + {l}, (p.0, p.1, p.0, p.1), (k, l), (k, l), (k, l), (k, l))
  {
    var p := ChunkToPos(k, l);
    forall k', l' | Visited(m, ks, k, ls + {l}, k', l') ensures InBox(ChunkToPos(k', l'), (p.0, p.1, p.0, p.1)) {
      assert !Visited(m, ks, k, ls, k', l');
    }
  }

  /** Visiting one more cell grows the box to it and moves every edge witness it passes. */
  lemma ScannedAdd(m: map<ChunkKey, Chunk>, ks: set<ChunkKey>, k: ChunkKey, ls: set<Local>, l: Local, b: Box,
                   w0: (ChunkKey, Local), w1: (ChunkKey, Local), w2: (ChunkKey, Local), w3: (ChunkKey, Local))
    requires Stored(m, k, l) && Scanned(m, ks, k, ls, b, w0, w1, w2, w3)
    ensures var p := ChunkToPos(k, l);
      Scanned(m, ks, k, ls + {l}, Grow(b, p),
              if p.0 < b.0 then (k, l) else w0, if p.1 < b.1 then (k, l) else w1,
              if p.0 > b.2 then (k, l) else w2, if p.1 > b.3 then (k, l) else w3)
  {
    var p := ChunkToPos(k, l);
    forall k', l' | Visited(m, ks, k, ls + {l}, k', l') ensures InBox(ChunkToPos(k', l'), Grow(b, p)) {
      if (k', l') != (k, l) {
        assert Visited(m, ks, k, ls, k', l');
      }
    }
  }

  /** Starting on chunk `k` changes nothing visited. */
  lemma ScannedEnter(m: map<ChunkKey, Chunk>, ks: set<ChunkKey>, k: ChunkKey, b: Box,
                     w0: (ChunkKey, Local), w1: (ChunkKey, Local), w2: (ChunkKey, Local), w3: (ChunkKey, Local))
    requires Scanned(m, ks, (0, 0), {}, b, w0, w1, w2, w3)
    ensures Scanned(m, ks, k, {}, b, w0, w1, w2, w3)
  {
    forall k', l' | Visited(m, ks, k, {}, k', l') ensures InBox(ChunkToPos(k', l'), b) {
      assert Visited(m, ks, (0, 0), {}, k', l');
    }
  }

  /** Once every local of chunk `k` is visited, the whole chunk counts as visited. */
  lemma ScannedLeave(m: map<ChunkKey, Chunk>, ks: set<ChunkKey>, k: ChunkKey, b: Box,
                     w0: (ChunkKey, Local), w1: (ChunkKey, Local), w2: (ChunkKey, Local), w3: (ChunkKey, Local))
    requires k in m && Scanned(m, ks, k, m[k].cells.Keys, b, w0, w1, w2, w3)
    ensures Scanned(m, ks + {k}, (0, 0), {}, b, w0, w1, w2, w3)
  {
    forall k', l' | Visited(m, ks + {k}, (0, 0), {}, k', l') ensures InBox(ChunkToPos(k', l'), b) {
      assert Visited(m, ks, k, m[k].cells.Keys, k', l');
    }
  }

  /** When every chunk is visited, the box is the content box. */
  lemma ScannedAll(m: map<ChunkKey, Chunk>, b: Box,
                   w0: (ChunkKey, Local), w1: (ChunkKey, Local), w2: (ChunkKey, Local), w3: (ChunkKey, Local))
    requires Scanned(m, m.Keys, (0, 0), {}, b, w0, w1, w2, w3)
    ensures IsContentBox(m, b)
  {
    forall k, l | Stored(m, k, l) ensures InBox(ChunkToPos(k, l), b) {
      assert Visited(m, m.Keys, (0, 0), {}, k, l);
    }
    assert Stored(m, w0.0, w0.1) && Stored(m, w1.0, w1.1) && Stored(m, w2.0, w2.1) && Stored(m, w3.0, w3.1);
  }

  /**
   * The inner loop of `bounds`: every cell of chunk `k` is visited in turn;
   * the first one found starts the box, each later one grows it.
   */
  method ScanChunk(m: map<ChunkKey, Chunk>, ghost done: set<ChunkKey>, k: ChunkKey, box0: Box, found0: bool,
                   ghost v0: (ChunkKey, Local), ghost v1: (ChunkKey, Local), ghost v2: (ChunkKey, Local), ghost v3: (ChunkKey, Local))
    returns (box: Box, found: bool,
             ghost w0: (ChunkKey, Local), ghost w1: (ChunkKey, Local), ghost w2: (ChunkKey, Local), ghost w3: (ChunkKey, Local))
    requires k in m
    requires found0 ==> Scanned(m, done, k, {}, box0, v0, v1, v2, v3)
    requires !found0 ==> forall k', l' :: !Visited(m, done, k, {}, k', l')
    ensures found <==> found0 || m[k].cells != map[]
    ensures found ==> Scanned(m, done, k, m[k].cells.Keys, box, w0, w1, w2, w3)
    ensures !found ==> forall k', l' :: !Visited(m, done, k, m[k].cells.Keys, k', l')
  {
    box, found, w0, w1, w2, w3 := box0, found0, v0, v1, v2, v3;
    var locals := m[k].cells.Keys;
    ghost var seen: set<Local> := {};
    while locals != {}
      invariant locals !! seen && locals + seen == m[k].cells.Keys
      invariant found <==> found0 || seen != {}
      invariant found ==> Scanned(m, done, k, seen, box, w0, w1, w2, w3)
      invariant !found ==> forall k', l' :: !Visited(m, done, k, seen, k', l')
      decreases |locals|
    {
      var l :| l in locals;
      var p := ChunkToPos(k, l);
      if !found {
        ScannedFirst(m, done, k, seen, l);
        box, found := (p.0, p.1, p.0, p.1), true;
        w0, w1, w2, w3 := (k, l), (k, l), (k, l), (k, l);
      } else {
        ScannedAdd(m, done, k, seen, l, box, w0, w1, w2, w3);
        w0 := if p.0 < box.0 then (k, l) else w0;
        w1 := if p.1 < box.1 then (k, l) else w1;
        w2 := if p.0 > box.2 then (k, l) else w2;
        w3 := if p.1 > box.3 then (k, l) else w3;
        box := Grow(box, p);
      }
      MoveOne(locals, seen, l);
      seen := seen + {l};
      locals := locals - {l};
    }
  }

  // ---------------------------------------------------------------------
  // The state of a grid as a value

  /** The canvas state of a `ChunkedGrid`: its chunk map and tracked chunk bounds. */
  datatype Canvas = Canvas(chunks: map<ChunkKey, Chunk>, minChunk: ChunkKey, maxChunk: ChunkKey) {
    /** No chunk is empty, and `min_chunk`/`max_chunk` enclose every live chunk. */
    ghost predicate Valid() {
      ValidChunks(chunks, minChunk, maxChunk)
    }

    /** `get`: the stored char, or ' ' where nothing is stored. */
    function Get(row: nat, col: nat): char {
      CellAt(chunks, row, col)
    }

    /**
     * `set`: the chunk is fetched or created, updated, and then dropped when
     * it became empty or stored back with the chunk bounds widened to its key.
     */
    function Set(row: nat, col: nat, ch: char): Canvas {
      var p := PosToChunk(row, col);
      var updated := ChunkFor(chunks, p.0).Set(p.1.0, p.1.1, ch);
      if updated.IsEmpty() then Canvas(Store(chunks, p.0, p.1, ch), minChunk, maxChunk)
      else Canvas(Store(chunks, p.0, p.1, ch),
                  (Min(minChunk.0, p.0.0), Min(minChunk.1, p.0.1)),
                  (Max(maxChunk.0, p.0.0), Max(maxChunk.1, p.0.1)))
    }

    /** `set(row, col + i, text[i])` for i = 0 .. n - 1 in order, except for chars in `skip`. */
    function WriteRow(row: nat, col: nat, text: string, n: nat, skip: set<char>): Canvas
      requires n <= |text|
    {
      if n == 0 then this
      else
        var g := WriteRow(row, col, text, n - 1, skip);
        if text[n - 1] in skip then g else g.Set(row, col + n - 1, text[n - 1])
    }

    /** The whole of line i written at (row + i, col), for i = 0 .. n - 1 in order. */
    function WriteRows(row: nat, col: nat, lines: seq<string>, n: nat, skip: set<char>): Canvas
      requires n <= |lines|
    {
      if n == 0 then this
      else WriteRows(row, col, lines, n - 1, skip).WriteRow(row + n - 1, col, lines[n - 1], |lines[n - 1]|, skip)
    }

    /** The positions that hold a character. */
    ghost function Occupied(): set<Pos> {
      PositionsIn(chunks, chunks.Keys)
    }

    /** The tight box around the content: what `bounds` reports when there is a chunk. */
    ghost function ContentBox(): (b: Box)
      requires Valid() && chunks != map[]
      ensures IsContentBox(chunks, b)
    {
      SomeCellStored(this);
      ContentBoxExists(chunks);
      var b :| IsContentBox(chunks, b); b
    }

    /** The `n` cells of `row` starting at `col`, blanks included. */
    function Row(row: nat, col: nat, n: nat): string {
      seq(n, j requires 0 <= j => Get(row, col + j))
    }

    /**
     * The value of `get_line(row, first, last)`: the cells first..=last with
     * trailing whitespace removed, so every dropped cell is whitespace.
     */
    function Line(row: nat, first: nat, last: nat): string {
      TrimEnd(Row(row, first, Span(first, last)))
    }

    /** `get_line(r, first, last)` for the `n` rows from `row` on. */
    function LineRows(row: nat, n: nat, first: nat, last: nat): seq<string> {
      seq(n, i requires 0 <= i => Line(row + i, first, last))
    }

    /** The value of `to_lines`: [""] when nothing is stored, else one line per row of the content box. */
    ghost function Export(): seq<string>
      requires Valid()
    {
      if chunks == map[] then [""]
      else
        var b := ContentBox();
        LineRows(b.0, b.2 - b.0 + 1, b.1, b.3)
    }

    /** `n` consecutive rows of `width` cells each, from (row, col). */
    function Block(row: nat, n: nat, col: nat, width: nat): seq<string> {
      seq(n, i requires 0 <= i => Row(row + i, col, width))
    }
  }

  /** Line `i` of a block holds the `width` cells of row `row + i` starting at `col`. */
  lemma BlockSpec(g: Canvas, row: nat, n: nat, col: nat, width: nat)
    ensures |g.Block(row, n, col, width)| == n
    ensures forall i :: 0 <= i < n ==>
              |g.Block(row, n, col, width)[i]| == width
              && forall j :: 0 <= j < width ==> g.Block(row, n, col, width)[i][j] == g.Get(row + i, col + j)
  {
    forall i | 0 <= i < n
      ensures |g.Block(row, n, col, width)[i]| == width
      ensures forall j :: 0 <= j < width ==> g.Block(row, n, col, width)[i][j] == g.Get(row + i, col + j)
    {
      assert g.Block(row, n, col, width)[i] == g.Row(row + i, col, width);
    }
  }

  /** Moving one element between two disjoint sets keeps them disjoint and keeps their union. */
  lemma MoveOne<T>(from: set<T>, to: set<T>, x: T)
    requires x in from && from !! to
    ensures (from - {x}) !! (to + {x}) && (from - {x}) + (to + {x}) == from + to
  {
  }

  /** The canvas of `ChunkedGrid::new`. */
  const EmptyCanvas := Canvas(map[], (0, 0), (0, 0))

  /** The canvas after `cut_block` blanked the rectangle of `sel`. */
  function Cut(g: Canvas, sel: BlockSelection): Canvas {
    var b := sel.Bounds();
    g.WriteRows(b.0, b.1, Blanks(b.2 - b.0 + 1, b.3 - b.1 + 1), b.2 - b.0 + 1, {})
  }

  /** `n` rows of `width` spaces: what `cut_block` writes over the selection. */
  function Blanks(n: nat, width: nat): (r: seq<string>)
    ensures |r| == n && forall i :: 0 <= i < n ==> r[i] == Repeat(' ', width)
  {
    seq(n, i => Repeat(' ', width))
  }

  /**
   * `get_line(row, first, last)` keeps the cells first..=last up to the last
   * one that is not whitespace: every kept char is the cell below it, and
   * every dropped cell is whitespace.
   */
  lemma LineSpec(g: Canvas, row: nat, first: nat, last: nat)
    ensures |g.Line(row, first, last)| <= Span(first, last)
    ensures forall j :: 0 <= j < |g.Line(row, first, last)| ==> g.Line(row, first, last)[j] == g.Get(row, first + j)
    ensures g.Line(row, first, last) == [] || !IsWhitespace(g.Line(row, first, last)[|g.Line(row, first, last)| - 1])
    ensures forall c :: first + |g.Line(row, first, last)| <= c <= last ==> IsWhitespace(g.Get(row, c))
  {
    var n := Span(first, last);
    var cells := g.Row(row, first, n);
    var s := g.Line(row, first, last);
    forall j | 0 <= j < |s| ensures s[j] == g.Get(row, first + j) {
      assert s[j] == cells[j];
    }
    forall c | first + |s| <= c <= last ensures IsWhitespace(g.Get(row, c)) {
      assert cells[c - first] == g.Get(row, c);
    }
  }

  /** `set` keeps the grid invariant. */
  lemma SetValid(g: Canvas, row: nat, col: nat, ch: char)
    requires g.Valid()
    ensures g.Set(row, col, ch).Valid()
  {
    var p := PosToChunk(row, col);
    var chunk := ChunkFor(g.chunks, p.0);
    assert CellsOK(chunk);
    var updated := chunk.Set(p.1.0, p.1.1, ch);
    if updated.IsEmpty() {
      ValidRemove(g.chunks, g.minChunk, g.maxChunk, p.0);
    } else {
      SetKeepsWellFormed(chunk, p.1.0, p.1.1, ch);
      ValidPut(g.chunks, g.minChunk, g.maxChunk, p.0, updated);
    }
  }

  /** After `set(row, col, ch)`, (row, col) reads back `ch` and every other cell reads as before. */
  lemma SetCell(g: Canvas, row: nat, col: nat, ch: char, r: nat, c: nat)
    ensures g.Set(row, col, ch).Get(r, c) == if (r, c) == (row, col) then ReadBack(ch) else g.Get(r, c)
  {
    var p, q := PosToChunk(row, col), PosToChunk(r, c);
    if (r, c) != (row, col) {
      PosToChunkInjective(r, c, row, col);
    }
    StoreCell(g.chunks, p.0, p.1, ch, q.0, q.1);
  }

  /** `set` changes exactly one cell. */
  lemma SetFrame(g: Canvas, row: nat, col: nat, ch: char)
    ensures g.Set(row, col, ch).Get(row, col) == ReadBack(ch)
    ensures forall r: nat, c: nat :: (r, c) != (row, col) ==> g.Set(row, col, ch).Get(r, c) == g.Get(r, c)
  {
    SetCell(g, row, col, ch, row, col);
    forall r: nat, c: nat | (r, c) != (row, col) ensures g.Set(row, col, ch).Get(r, c) == g.Get(r, c) {
      SetCell(g, row, col, ch, r, c);
    }
  }

  lemma {:induction false} WriteRowValid(g: Canvas, row: nat, col: nat, text: string, n: nat, skip: set<char>)
    requires g.Valid() && n <= |text|
    ensures g.WriteRow(row, col, text, n, skip).Valid()
  {
    if n > 0 {
      WriteRowValid(g, row, col, text, n - 1, skip);
      WriteRowStepValid(g, row, col, text, n, skip);
    }
  }

  /** Blanking the rows of a selection clears exactly the cells it contains. */
  lemma CutFrame(g: Canvas, cut: Canvas, sel: BlockSelection, blanks: seq<string>)
    requires var b := sel.Bounds(); blanks == Blanks(b.2 - b.0 + 1, b.3 - b.1 + 1)
    requires cut == g.WriteRows(sel.Bounds().0, sel.Bounds().1, blanks, |blanks|, {})
    ensures forall r: nat, c: nat :: cut.Get(r, c) == if sel.Contains(r, c) then ' ' else g.Get(r, c)
  {
    var b := sel.Bounds();
    WriteRowsFrame(g, b.0, b.1, blanks, {});
  }

  /** Writing line `n` follows the writes of the first `n` lines. */
  lemma WriteRowsNext(g: Canvas, row: nat, col: nat, lines: seq<string>, n: nat, skip: set<char>)
    requires n < |lines|
    ensures g.WriteRows(row, col, lines, n + 1, skip)
            == g.WriteRows(row, col, lines, n, skip).WriteRow(row + n, col, lines[n], |lines[n]|, skip)
  {
  }

  /** One more row of lines is the previous rows followed by the next line. */
  lemma LineRowsNext(g: Canvas, row: nat, n: nat, first: nat, last: nat)
    ensures g.LineRows(row, n + 1, first, last) == g.LineRows(row, n, first, last) + [g.Line(row + n, first, last)]
  {
    var a, b := g.LineRows(row, n + 1, first, last), g.LineRows(row, n, first, last) + [g.Line(row + n, first, last)];
    assert |a| == |b|;
    forall i | 0 <= i < |a| ensures a[i] == b[i] {
    }
  }

  /** The write of char `n` follows the writes of the first `n` chars. */
  lemma WriteRowNext(g: Canvas, row: nat, col: nat, text: string, n: nat, skip: set<char>)
    requires n < |text|
    ensures g.WriteRow(row, col, text, n + 1, skip)
            == if text[n] in skip then g.WriteRow(row, col, text, n, skip)
               else g.WriteRow(row, col, text, n, skip).Set(row, col + n, text[n])
  {
  }

  /** Writing char n - 1 keeps the grid invariant of the first n - 1 writes. */
  lemma WriteRowStepValid(g: Canvas, row: nat, col: nat, text: string, n: nat, skip: set<char>)
    requires 0 < n <= |text| && g.WriteRow(row, col, text, n - 1, skip).Valid()
    ensures g.WriteRow(row, col, text, n, skip).Valid()
  {
    if text[n - 1] !in skip {
      SetValid(g.WriteRow(row, col, text, n - 1, skip), row, col + n - 1, text[n - 1]);
    }
  }

  /**
   * What cell (r, c) reads after the first `n` chars of `text` were written
   * from (row, col), skipping those in `skip`, over a cell that read `before`.
   */
  function RowWritten(row: nat, col: nat, text: string, n: nat, skip: set<char>, r: nat, c: nat, before: char): char
    requires n <= |text|
  {
    if r == row && col <= c < col + n && text[c - col] !in skip then ReadBack(text[c - col]) else before
  }

  /** The same for the first `n` of `lines`, line i written from (row + i, col). */
  function RowsWritten(row: nat, col: nat, lines: seq<string>, n: nat, skip: set<char>, r: nat, c: nat, before: char): char
    requires n <= |lines|
  {
    if row <= r < row + n && col <= c < col + |lines[r - row]| && lines[r - row][c - col] !in skip
    then ReadBack(lines[r - row][c - col])
    else before
  }

  /** One cell after `WriteRow`: the char written there if any, otherwise what it held before. */
  lemma {:induction false} WriteRowCell(g: Canvas, row: nat, col: nat, text: string, n: nat, skip: set<char>, r: nat, c: nat)
    requires n <= |text|
    ensures g.WriteRow(row, col, text, n, skip).Get(r, c) == RowWritten(row, col, text, n, skip, r, c, g.Get(r, c))
  {
    if n > 0 {
      WriteRowCell(g, row, col, text, n - 1, skip, r, c);
      if text[n - 1] !in skip {
        SetCell(g.WriteRow(row, col, text, n - 1, skip), row, col + n - 1, text[n - 1], r, c);
      }
    }
  }

  /** After `WriteRow` of all of `text`, its chars read back in place and every other cell is unchanged. */
  lemma WriteRowFrame(g: Canvas, row: nat, col: nat, text: string, skip: set<char>)
    ensures forall r: nat, c: nat ::
              g.WriteRow(row, col, text, |text|, skip).Get(r, c) == RowWritten(row, col, text, |text|, skip, r, c, g.Get(r, c))
  {
    forall r: nat, c: nat
      ensures g.WriteRow(row, col, text, |text|, skip).Get(r, c) == RowWritten(row, col, text, |text|, skip, r, c, g.Get(r, c))
    {
      WriteRowCell(g, row, col, text, |text|, skip, r, c);
    }
  }

  lemma {:induction false} WriteRowsValid(g: Canvas, row: nat, col: nat, lines: seq<string>, n: nat, skip: set<char>)
    requires g.Valid() && n <= |lines|
    ensures g.WriteRows(row, col, lines, n, skip).Valid()
  {
    if n > 0 {
      WriteRowsValid(g, row, col, lines, n - 1, skip);
      WriteRowValid(g.WriteRows(row, col, lines, n - 1, skip), row + n - 1, col, lines[n - 1], |lines[n - 1]|, skip);
    }
  }

  /** One cell after `WriteRows`: char j of line i at (row + i, col + j), otherwise what it held before. */
  lemma {:induction false} WriteRowsCell(g: Canvas, row: nat, col: nat, lines: seq<string>, n: nat, skip: set<char>, r: nat, c: nat)
    requires n <= |lines|
    ensures g.WriteRows(row, col, lines, n, skip).Get(r, c) == RowsWritten(row, col, lines, n, skip, r, c, g.Get(r, c))
  {
    if n > 0 {
      WriteRowsCell(g, row, col, lines, n - 1, skip, r, c);
      WriteRowCell(g.WriteRows(row, col, lines, n - 1, skip), row + n - 1, col, lines[n - 1], |lines[n - 1]|, skip, r, c);
    }
  }

  /** After `WriteRows` of all `lines`, char j of line i reads back at (row + i, col + j) and every other cell is unchanged. */
  lemma WriteRowsFrame(g: Canvas, row: nat, col: nat, lines: seq<string>, skip: set<char>)
    ensures forall r: nat, c: nat ::
              g.WriteRows(row, col, lines, |lines|, skip).Get(r, c) == RowsWritten(row, col, lines, |lines|, skip, r, c, g.Get(r, c))
  {
    forall r: nat, c: nat
      ensures g.WriteRows(row, col, lines, |lines|, skip).Get(r, c) == RowsWritten(row, col, lines, |lines|, skip, r, c, g.Get(r, c))
    {
      WriteRowsCell(g, row, col, lines, |lines|, skip, r, c);
    }
  }

  /** A valid canvas never reads back '\n' or '\r', so reading back what `get` returns changes nothing. */
  lemma GetIsStored(g: Canvas, row: nat, col: nat)
    requires g.Valid()
    ensures ReadBack(g.Get(row, col)) == g.Get(row, col)
  {
    var p := PosToChunk(row, col);
    if p.0 in g.chunks && p.1 in g.chunks[p.0].cells {
      assert WellFormed(g.chunks[p.0]);
    }
  }

  /** A position is occupied exactly when it reads as something other than ' '. */
  lemma OccupiedIsNonBlank(g: Canvas, row: nat, col: nat)
    requires g.Valid()
    ensures (row, col) in g.Occupied() <==> g.Get(row, col) != ' '
  {
    var p := PosToChunk(row, col);
    if p.0 in g.chunks && p.1 in g.chunks[p.0].cells {
      assert WellFormed(g.chunks[p.0]);
      assert ChunkToPos(p.0, p.1) == (row, col);
    }
    if (row, col) in g.Occupied() {
      var k, l :| k in g.chunks && l in g.chunks[k].cells && ChunkToPos(k, l) == (row, col);
      assert WellFormed(g.chunks[k]);
      ChunkToPosRoundTrip(k, l);
    }
  }

  /** A position outside the content box reads as ' '. */
  lemma OutsideBoxIsBlank(g: Canvas, b: Box, row: nat, col: nat)
    requires g.Valid() && IsContentBox(g.chunks, b) && !InBox((row, col), b)
    ensures g.Get(row, col) == ' '
  {
    PosToChunkRoundTrip(row, col);
  }

  /** Every chunk of a valid canvas is well formed. */
  lemma ChunkWellFormed(g: Canvas, k: ChunkKey)
    requires g.Valid() && k in g.chunks
    ensures WellFormed(g.chunks[k])
  {
  }

  /** A grid with a chunk stores some cell, since no chunk is kept empty. */
  lemma SomeCellStored(g: Canvas)
    requires g.Valid() && g.chunks != map[]
    ensures exists k, l :: Stored(g.chunks, k, l)
  {
    var k: ChunkKey :| k in g.chunks;
    ChunkWellFormed(g, k);
    var cells := g.chunks[k].cells;
    assert cells.Keys != {};
    var l :| l in cells.Keys;
    assert Stored(g.chunks, k, l);
  }

  /** `chunk_count` is zero exactly when the grid holds no character. */
  lemma NoChunksIffEmpty(g: Canvas)
    requires g.Valid()
    ensures (|g.chunks| == 0) <==> (g.Occupied() == {})
  {
    if |g.chunks| != 0 {
      SomeCellStored(g);
      var k, l :| Stored(g.chunks, k, l);
      assert ChunkToPos(k, l) in g.Occupied();
    }
  }

  /** Cutting a rectangle and pasting the copy taken before at its top-left corner restores every cell. */
  lemma CutThenPasteRestores(g: Canvas, b: Box, r: nat, c: nat)
    requires g.Valid() && b.0 <= b.2 && b.1 <= b.3
    ensures var h, w := b.2 - b.0 + 1, b.3 - b.1 + 1;
      var copied := g.Block(b.0, h, b.1, w);
      var cut := g.WriteRows(b.0, b.1, Blanks(h, w), h, {});
      cut.WriteRows(b.0, b.1, copied, h, {}).Get(r, c) == g.Get(r, c)
  {
    CutPasteCell(g, b, r, c);
    PasteOverCutCell(g, b, r, c);
  }

  /** One cell after the cut and after the paste, as `RowsWritten` describes it. */
  lemma CutPasteCell(g: Canvas, b: Box, r: nat, c: nat)
    requires b.0 <= b.2 && b.1 <= b.3
    ensures var h, w := b.2 - b.0 + 1, b.3 - b.1 + 1;
      var copied := g.Block(b.0, h, b.1, w);
      var cut := g.WriteRows(b.0, b.1, Blanks(h, w), h, {});
      && cut.Get(r, c) == RowsWritten(b.0, b.1, Blanks(h, w), h, {}, r, c, g.Get(r, c))
      && cut.WriteRows(b.0, b.1, copied, h, {}).Get(r, c) == RowsWritten(b.0, b.1, copied, h, {}, r, c, cut.Get(r, c))
  {
    var h, w := b.2 - b.0 + 1, b.3 - b.1 + 1;
    var copied := g.Block(b.0, h, b.1, w);
    var cut := g.WriteRows(b.0, b.1, Blanks(h, w), h, {});
    WriteRowsCell(g, b.0, b.1, Blanks(h, w), h, {}, r, c);
    WriteRowsCell(cut, b.0, b.1, copied, h, {}, r, c);
  }

  /** The cell-level half of `CutThenPasteRestores`. */
  lemma PasteOverCutCell(g: Canvas, b: Box, r: nat, c: nat)
    requires g.Valid() && b.0 <= b.2 && b.1 <= b.3
    ensures var h, w := b.2 - b.0 + 1, b.3 - b.1 + 1;
      var blank := RowsWritten(b.0, b.1, Blanks(h, w), h, {}, r, c, g.Get(r, c));
      RowsWritten(b.0, b.1, g.Block(b.0, h, b.1, w), h, {}, r, c, blank) == g.Get(r, c)
  {
    var h, w := b.2 - b.0 + 1, b.3 - b.1 + 1;
    BlockSpec(g, b.0, h, b.1, w);
    var block := g.Block(b.0, h, b.1, w);
    if b.0 <= r <= b.2 && b.1 <= c <= b.3 {
      assert |block[r - b.0]| == w && block[r - b.0][c - b.1] == g.Get(r, c);
      GetIsStored(g, r, c);
    } else {
      assert RowsWritten(b.0, b.1, block, h, {}, r, c, g.Get(r, c)) == g.Get(r, c);
    }
  }

  /** Content of the grid `from_lines(lines)` builds, cell by cell. */
  function FromLinesCell(lines: seq<string>, r: nat, c: nat): char {
    if r < |lines| && c < |lines[r]| then ReadBack(lines[r][c]) else ' '
  }

  /** Rows written into the empty canvas, skipping ' ', give `FromLinesCell`. */
  lemma ImportSpec(lines: seq<string>)
    ensures EmptyCanvas.WriteRows(0, 0, lines, |lines|, {' '}).Valid()
    ensures forall r: nat, c: nat :: EmptyCanvas.WriteRows(0, 0, lines, |lines|, {' '}).Get(r, c) == FromLinesCell(lines, r, c)
  {
    WriteRowsValid(EmptyCanvas, 0, 0, lines, |lines|, {' '});
    WriteRowsFrame(EmptyCanvas, 0, 0, lines, {' '});
  }

  /** No stored character is whitespace, so trimming lines loses nothing. */
  ghost predicate NoWhitespaceStored(g: Canvas) {
    forall k, l :: k in g.chunks && l in g.chunks[k].cells ==> !IsWhitespace(g.chunks[k].cells[l])
  }

  /** When nothing whitespace is stored, a cell reads as whitespace only where it is empty. */
  lemma WhitespaceIsEmpty(g: Canvas, row: nat, col: nat)
    requires NoWhitespaceStored(g)
    ensures IsWhitespace(g.Get(row, col)) ==> g.Get(row, col) == ' '
  {
    var p := PosToChunk(row, col);
    if p.0 in g.chunks && p.1 in g.chunks[p.0].cells {
      assert !IsWhitespace(g.chunks[p.0].cells[p.1]);
    }
  }

  /**
   * Reading the lines of a box and importing them gives back the box moved to
   * (0, 0), provided nothing whitespace is stored and the cell is blank when
   * it lies outside the box.
   */
  lemma LinesTranslate(g: Canvas, b: Box, r: nat, c: nat)
    requires g.Valid() && NoWhitespaceStored(g) && b.0 <= b.2 && b.1 <= b.3
    requires !(r <= b.2 - b.0 && c <= b.3 - b.1) ==> g.Get(b.0 + r, b.1 + c) == ' '
    ensures FromLinesCell(g.LineRows(b.0, b.2 - b.0 + 1, b.1, b.3), r, c) == g.Get(b.0 + r, b.1 + c)
  {
    GetIsStored(g, b.0 + r, b.1 + c);
    WhitespaceIsEmpty(g, b.0 + r, b.1 + c);
    StoredLinesTranslate(g, b, r, c);
  }

  /** `LinesTranslate` for one cell that reads back as itself and is ' ' when whitespace. */
  lemma StoredLinesTranslate(g: Canvas, b: Box, r: nat, c: nat)
    requires b.0 <= b.2 && b.1 <= b.3
    requires !(r <= b.2 - b.0 && c <= b.3 - b.1) ==> g.Get(b.0 + r, b.1 + c) == ' '
    requires ReadBack(g.Get(b.0 + r, b.1 + c)) == g.Get(b.0 + r, b.1 + c)
    requires IsWhitespace(g.Get(b.0 + r, b.1 + c)) ==> g.Get(b.0 + r, b.1 + c) == ' '
    ensures FromLinesCell(g.LineRows(b.0, b.2 - b.0 + 1, b.1, b.3), r, c) == g.Get(b.0 + r, b.1 + c)
  {
    var lines := g.LineRows(b.0, b.2 - b.0 + 1, b.1, b.3);
    if r < |lines| {
      assert lines[r] == g.Line(b.0 + r, b.1, b.3);
      StoredLineCell(g, b.0 + r, b.1, b.3, c);
    }
  }

  /** Cell `c` of a line, read back, is the grid cell below it, for a cell that reads back as itself, is ' ' when whitespace, and is blank past `last`. */
  lemma StoredLineCell(g: Canvas, row: nat, first: nat, last: nat, c: nat)
    requires first <= last
    requires c > last - first ==> g.Get(row, first + c) == ' '
    requires ReadBack(g.Get(row, first + c)) == g.Get(row, first + c)
    requires IsWhitespace(g.Get(row, first + c)) ==> g.Get(row, first + c) == ' '
    ensures var line := g.Line(row, first, last);
      (if c < |line| then ReadBack(line[c]) else ' ') == g.Get(row, first + c)
  {
    LineSpec(g, row, first, last);
  }


  /**
   * `from_lines(to_lines())` reproduces the content moved so that the
   * corner `(b.0, b.1)` of its bounding box `b` lands on (0, 0).
   */
  lemma ExportImportTranslates(g: Canvas, b: Box, r: nat, c: nat)
    requires g.Valid() && NoWhitespaceStored(g) && IsContentBox(g.chunks, b)
    ensures FromLinesCell(g.Export(), r, c) == g.Get(b.0 + r, b.1 + c)
  {
    ExportIsBoxLines(g, b);
    if !(r <= b.2 - b.0 && c <= b.3 - b.1) {
      OutsideBoxIsBlank(g, b, b.0 + r, b.1 + c);
    }
    LinesTranslate(g, b, r, c);
  }

  /** A grid with content box `b` exports the lines of `b`. */
  lemma ExportIsBoxLines(g: Canvas, b: Box)
    requires g.Valid() && IsContentBox(g.chunks, b)
    ensures b.0 <= b.2 && b.1 <= b.3
    ensures g.Export() == g.LineRows(b.0, b.2 - b.0 + 1, b.1, b.3)
  {
    var k, l :| Stored(g.chunks, k, l) && ChunkToPos(k, l).0 == b.0;
    assert InBox(ChunkToPos(k, l), b);
    assert g.chunks != map[] by {
      assert k in g.chunks;
    }
    ContentBoxUnique(g.chunks, b, g.ContentBox());
    ExportAt(g, b);
  }

  /** `Export` unfolded at the content box of a non-empty canvas. */
  lemma ExportAt(g: Canvas, b: Box)
    requires g.Valid() && g.chunks != map[] && b == g.ContentBox()
    ensures g.Export() == g.LineRows(b.0, b.2 - b.0 + 1, b.1, b.3)
  {
  }

  /** An empty grid exports as [""], which imports as an empty grid. */
  lemma ExportImportEmpty(g: Canvas, r: nat, c: nat)
    requires g.Valid() && g.chunks == map[]
    ensures g.Export() == [""]
    ensures FromLinesCell(g.Export(), r, c) == ' ' == g.Get(r, c)
  {
  }

  /** A line read from a valid canvas holds no line break. */
  lemma LineHasNoBreak(g: Canvas, row: nat, first: nat, last: nat)
    requires g.Valid()
    ensures '\n' !in g.Line(row, first, last) && '\r' !in g.Line(row, first, last)
  {
    var s := g.Line(row, first, last);
    LineSpec(g, row, first, last);
    forall j | 0 <= j < |s| ensures s[j] != '\n' && s[j] != '\r' {
      GetIsStored(g, row, first + j);
    }
  }

  /**
   * The lines of a box join and split back unchanged when the last row of the
   * box holds a stored character (so the last line is not empty).
   */
  lemma LinesJoinSplit(g: Canvas, b: Box, w: nat)
    requires g.Valid() && NoWhitespaceStored(g) && b.0 <= b.2
    requires b.1 <= w <= b.3 && g.Get(b.2, w) != ' '
    ensures Lines(Join(g.LineRows(b.0, b.2 - b.0 + 1, b.1, b.3), "\n")) == g.LineRows(b.0, b.2 - b.0 + 1, b.1, b.3)
  {
    var lines := g.LineRows(b.0, b.2 - b.0 + 1, b.1, b.3);
    LineRowsHaveNoBreak(g, b.0, b.2 - b.0 + 1, b.1, b.3, lines);
    var last := g.Line(b.2, b.1, b.3);
    assert lines[|lines| - 1] == last;
    LineSpec(g, b.2, b.1, b.3);
    WhitespaceIsEmpty(g, b.2, w);
    assert |last| > w - b.1;
    LinesOfJoin(lines);
  }

  /** No line of a box holds a line break or ends in a carriage return. */
  lemma LineRowsHaveNoBreak(g: Canvas, row: nat, n: nat, first: nat, last: nat, lines: seq<string>)
    requires g.Valid() && lines == g.LineRows(row, n, first, last)
    ensures forall k :: 0 <= k < |lines| ==> '\n' !in lines[k]
    ensures forall k :: 0 <= k < |lines| ==> lines[k] == [] || lines[k][|lines[k]| - 1] != '\r'
  {
    forall k | 0 <= k < |lines|
      ensures '\n' !in lines[k] && '\r' !in lines[k]
    {
      assert lines[k] == g.Line(row + k, first, last);
      LineHasNoBreak(g, row + k, first, last);
    }
  }

  /** Splitting `to_string()` with `str::lines` gives back exactly `to_lines()`. */
  lemma StringRoundTrip(g: Canvas)
    requires g.Valid() && g.chunks != map[] && NoWhitespaceStored(g)
    ensures Lines(Join(g.Export(), "\n")) == g.Export()
  {
    var b := g.ContentBox();
    var k, l :| Stored(g.chunks, k, l) && ChunkToPos(k, l).0 == b.2;
    var w := ChunkToPos(k, l);
    assert InBox(w, b);
    assert WellFormed(g.chunks[k]);
    ChunkToPosRoundTrip(k, l);
    LinesJoinSplit(g, b, w.1);
  }

  /** The grid positions held by chunk `k` of `m`. */
  ghost function ChunkPositions(m: map<ChunkKey, Chunk>, k: ChunkKey): set<Pos>
    requires k in m
  {
    set l | l in m[k].cells :: ChunkToPos(k, l)
  }

  /** Adding one more chunk adds its positions, which no other chunk holds, one per stored cell. */
  lemma PositionsAdd(g: Canvas, ks: set<ChunkKey>, k: ChunkKey)
    requires g.Valid() && k in g.chunks && k !in ks
    ensures PositionsIn(g.chunks, ks + {k}) == PositionsIn(g.chunks, ks) + ChunkPositions(g.chunks, k)
    ensures PositionsIn(g.chunks, ks) !! ChunkPositions(g.chunks, k)
    ensures |ChunkPositions(g.chunks, k)| == |g.chunks[k].cells|
  {
    var m := g.chunks;
    assert WellFormed(m[k]);
    ImageCard(k, m[k].cells.Keys);
    PositionsDisjoint(m, g.minChunk, g.maxChunk, ks, k);
    PositionsUnion(m, ks, k);
  }

  /** The positions of one more chunk are those of the others plus its own. */
  lemma PositionsUnion(m: map<ChunkKey, Chunk>, ks: set<ChunkKey>, k: ChunkKey)
    requires k in m
    ensures PositionsIn(m, ks + {k}) == PositionsIn(m, ks) + ChunkPositions(m, k)
  {
    forall p | p in PositionsIn(m, ks + {k}) ensures p in PositionsIn(m, ks) + ChunkPositions(m, k) {
      var k', l :| k' in ks + {k} && k' in m && l in m[k'].cells && ChunkToPos(k', l) == p;
      if k' != k {
        assert p in PositionsIn(m, ks);
      }
    }
  }

  /** Chunks with in-range local positions hold no grid position in common. */
  lemma PositionsDisjoint(m: map<ChunkKey, Chunk>, lo: ChunkKey, hi: ChunkKey, ks: set<ChunkKey>, k: ChunkKey)
    requires ValidChunks(m, lo, hi) && k in m && k !in ks
    ensures PositionsIn(m, ks) !! ChunkPositions(m, k)
  {
    forall p | p in ChunkPositions(m, k) ensures p !in PositionsIn(m, ks) {
      var l :| l in m[k].cells && ChunkToPos(k, l) == p;
      if p in PositionsIn(m, ks) {
        var k', l' :| k' in ks && k' in m && l' in m[k'].cells && ChunkToPos(k', l') == p;
        assert WellFormed(m[k']) && WellFormed(m[k]);
        ChunkToPosRoundTrip(k, l);
        ChunkToPosRoundTrip(k', l');
      }
    }
  }

  /** The set of chunk-local positions maps onto as many grid positions. */
  lemma {:induction false} ImageCard(k: ChunkKey, ls: set<Local>)
    requires forall l :: l in ls ==> l.0 < CHUNK_SIZE && l.1 < CHUNK_SIZE
    ensures |set l | l in ls :: ChunkToPos(k, l)| == |ls|
    decreases |ls|
  {
    if ls != {} {
      var x :| x in ls;
      ImageCard(k, ls - {x});
      var img := set l | l in ls :: ChunkToPos(k, l);
      var rest := set l | l in ls - {x} :: ChunkToPos(k, l);
      assert img == rest + {ChunkToPos(k, x)};
      assert ChunkToPos(k, x) !in rest by {
        forall l | l in ls - {x} ensures ChunkToPos(k, l) != ChunkToPos(k, x) {
          ChunkToPosRoundTrip(k, l);
          ChunkToPosRoundTrip(k, x);
        }
      }
    }
  }

  // ---------------------------------------------------------------------
  // The grid object

  class ChunkedGrid {
    var chunks: map<ChunkKey, Chunk>
    var minChunk: ChunkKey
    var maxChunk: ChunkKey
    var selection: Option<BlockSelection>

    /** The grid's canvas as a value. */
    function State(): Canvas
      reads this
    {
      Canvas(chunks, minChunk, maxChunk)
    }

    ghost predicate Valid()
      reads this
    {
      State().Valid()
    }

    /** `get`. */
    function Get(row: nat, col: nat): char
      reads this
    {
      State().Get(row, col)
    }

    /** `ChunkedGrid::new`: an empty canvas with no selection. */
    constructor ()
      ensures Valid() && State() == EmptyCanvas && selection == None
      ensures forall r: nat, c: nat :: Get(r, c) == ' '
    {
      chunks := map[];
      minChunk := (0, 0);
      maxChunk := (0, 0);
      selection := None;
    }

    /** `set`: afterwards (row, col) reads back `ch` (' ' for a blank) and no other cell changed. */
    method Set(row: nat, col: nat, ch: char)
      modifies this`chunks, this`minChunk, this`maxChunk
      ensures State() == old(State()).Set(row, col, ch)
      ensures old(Valid()) ==> Valid()
      ensures Get(row, col) == ReadBack(ch)
      ensures forall r: nat, c: nat :: (r, c) != (row, col) ==> Get(r, c) == old(Get(r, c))
    {
      ghost var g0 := State();
      var g := State().Set(row, col, ch);
      chunks, minChunk, maxChunk := g.chunks, g.minChunk, g.maxChunk;
      SetFrame(g0, row, col, ch);
      if g0.Valid() {
        SetValid(g0, row, col, ch);
      }
    }

    /** `insert_at`: char i of `text` goes to (row, col + i); newlines are skipped but still advance i. */
    method InsertAt(row: nat, col: nat, text: string)
      modifies this`chunks, this`minChunk, this`maxChunk
      ensures State() == old(State()).WriteRow(row, col, text, |text|, {'\n'})
      ensures old(Valid()) ==> Valid()
      ensures forall r: nat, c: nat :: Get(r, c) == RowWritten(row, col, text, |text|, {'\n'}, r, c, old(Get(r, c)))
    {
      ghost var g0 := State();
      WriteLine(row, col, text, {'\n'});
      WriteRowFrame(g0, row, col, text, {'\n'});
    }

    /**
     * The loop shared by `insert_at`, `from_lines`, `cut_block` and
     * `paste_block`: `set(row, col + j, text[j])` for every j in order,
     * except where `text[j]` is in `skip`.
     */
    method WriteLine(row: nat, col: nat, text: string, skip: set<char>)
      modifies this`chunks, this`minChunk, this`maxChunk
      ensures State() == old(State()).WriteRow(row, col, text, |text|, skip)
      ensures old(Valid()) ==> Valid()
    {
      ghost var g0 := State();
      var j := 0;
      while j < |text|
        invariant 0 <= j <= |text|
        invariant State() == g0.WriteRow(row, col, text, j, skip)
      {
        WriteRowNext(g0, row, col, text, j, skip);
        if text[j] !in skip {
          Set(row, col + j, text[j]);
        }
        j := j + 1;
      }
      if g0.Valid() {
        WriteRowValid(g0, row, col, text, |text|, skip);
      }
    }

    /** `delete_at`: erases one cell. */
    method DeleteAt(row: nat, col: nat)
      modifies this`chunks, this`minChunk, this`maxChunk
      ensures State() == old(State()).Set(row, col, ' ')
      ensures old(Valid()) ==> Valid()
      ensures Get(row, col) == ' '
      ensures forall r: nat, c: nat :: (r, c) != (row, col) ==> Get(r, c) == old(Get(r, c))
    {
      Set(row, col, ' ');
    }

    /**
     * `get_visible_chunks`: the live chunks whose keys lie between the chunks
     * of the viewport's two corners, in row-major order without repeats.
     */
    method GetVisibleChunks(v: Viewport) returns (visible: seq<ChunkKey>)
      ensures forall k :: k in visible <==>
        (k in chunks
         && PosToChunk(v.startRow, v.startCol).0.0 <= k.0 <= PosToChunk(v.endRow, v.endCol).0.0
         && PosToChunk(v.startRow, v.startCol).0.1 <= k.1 <= PosToChunk(v.endRow, v.endCol).0.1)
      ensures forall i, j :: 0 <= i < j < |visible| ==> KeyBefore(visible[i], visible[j])
    {
      var first := PosToChunk(v.startRow, v.startCol).0;
      var last := PosToChunk(v.endRow, v.endCol).0;
      visible := [];
      var cr := first.0;
      while cr <= last.0
        invariant first.0 <= cr <= Max(first.0, last.0 + 1)
        invariant forall k :: k in visible <==>
          (k in chunks && first.0 <= k.0 < cr && first.1 <= k.1 <= last.1)
        invariant forall i, j :: 0 <= i < j < |visible| ==> KeyBefore(visible[i], visible[j])
        invariant forall i :: 0 <= i < |visible| ==> visible[i].0 < cr
      {
        visible := VisibleInRow(visible, cr, first.1, last.1);
        cr := cr + 1;
      }
    }

    /** The inner loop of `get_visible_chunks`: appends the stored chunks of chunk row `cr`, left to right. */
    method VisibleInRow(visible: seq<ChunkKey>, cr: nat, lo: nat, hi: nat) returns (r: seq<ChunkKey>)
      requires forall i, j :: 0 <= i < j < |visible| ==> KeyBefore(visible[i], visible[j])
      requires forall i :: 0 <= i < |visible| ==> visible[i].0 < cr
      ensures forall k :: k in r <==> (k in visible || (k in chunks && k.0 == cr && lo <= k.1 <= hi))
      ensures forall i, j :: 0 <= i < j < |r| ==> KeyBefore(r[i], r[j])
      ensures forall i :: 0 <= i < |r| ==> r[i].0 <= cr
    {
      r := visible;
      var cc := lo;
      while cc <= hi
        invariant lo <= cc <= Max(lo, hi + 1)
        invariant forall k :: k in r <==> (k in visible || (k in chunks && k.0 == cr && lo <= k.1 < cc))
        invariant forall i, j :: 0 <= i < j < |r| ==> KeyBefore(r[i], r[j])
        invariant forall i :: 0 <= i < |r| ==> r[i].0 < cr || (r[i].0 == cr && r[i].1 < cc)
      {
        if (cr, cc) in chunks {
          r := r + [(cr, cc)];
        }
        cc := cc + 1;
      }
    }

    /** `get_line`: the cells first..=last of `row` with trailing whitespace trimmed. */
    method GetLine(row: nat, first: nat, last: nat) returns (line: string)
      ensures line == State().Line(row, first, last)
    {
      ghost var g := State();
      var cells := [];
      var col := first;
      while col <= last
        invariant first <= col <= Max(first, last + 1)
        invariant cells == g.Row(row, first, col - first)
      {
        cells := cells + [Get(row, col)];
        col := col + 1;
      }
      line := TrimEnd(cells);
    }

    /** `bounds`: None when there is no chunk, otherwise the tight box around the content. */
    method Bounds() returns (b: Option<Box>)
      requires Valid()
      ensures b == if chunks == map[] then None else Some(State().ContentBox())
    {
      if chunks == map[] {
        return None;
      }
      var box: Box := (0, 0, 0, 0);
      var found := false;
      ghost var w0, w1, w2, w3: (ChunkKey, Local) := ((0, 0), (0, 0)), ((0, 0), (0, 0)), ((0, 0), (0, 0)), ((0, 0), (0, 0));
      ghost var done: set<ChunkKey> := {};
      var todo := chunks.Keys;
      while todo != {}
        invariant todo !! done && todo + done == chunks.Keys
        invariant found <==> done != {}
        invariant found ==> Scanned(chunks, done, (0, 0), {}, box, w0, w1, w2, w3)
        invariant !found ==> forall k', l' :: !Visited(chunks, done, (0, 0), {}, k', l')
        decreases |todo|
      {
        var k :| k in todo;
        ChunkWellFormed(State(), k);
        if found {
          ScannedEnter(chunks, done, k, box, w0, w1, w2, w3);
        }
        box, found, w0, w1, w2, w3 := ScanChunk(chunks, done, k, box, found, w0, w1, w2, w3);
        ScannedLeave(chunks, done, k, box, w0, w1, w2, w3);
        MoveOne(todo, done, k);
        done := done + {k};
        todo := todo - {k};
      }
      ScannedAll(chunks, box, w0, w1, w2, w3);
      ContentBoxUnique(chunks, box, State().ContentBox());
      return Some(box);
    }

    /** `cell_count`: the number of stored characters; it is never below `chunk_count`. */
    method CellCount() returns (n: nat)
      requires Valid()
      ensures n == |State().Occupied()|
      ensures |chunks| <= n
    {
      ghost var g := State();
      n := 0;
      var todo := chunks.Keys;
      ghost var done: set<ChunkKey> := {};
      while todo != {}
        invariant todo !! done && todo + done == chunks.Keys
        invariant n == |PositionsIn(chunks, done)| && |done| <= n
        decreases |todo|
      {
        var k :| k in todo;
        PositionsAdd(g, done, k);
        ChunkWellFormed(g, k);
        var added := |chunks[k].cells|;
        assert added >= 1 && |PositionsIn(chunks, done + {k})| == |PositionsIn(chunks, done)| + added;
        n := n + added;
        MoveOne(todo, done, k);
        done := done + {k};
        todo := todo - {k};
      }
      assert done == chunks.Keys;
    }

    /** `chunk_count`. */
    function ChunkCount(): nat
      reads this
    {
      |chunks|
    }

    /** `to_lines`: [""] for an empty grid, else one trimmed line per row of the content box. */
    method ToLines() returns (lines: seq<string>)
      requires Valid()
      ensures lines == State().Export()
    {
      ghost var g := State();
      var b := Bounds();
      if b.None? {
        return [""];
      }
      var box := b.value;
      lines := BoxLines(box.0, box.2, box.1, box.3);
      ExportAt(g, box);
    }

    /** The row loop of `to_lines`: one trimmed line per row from `top` to `bottom`. */
    method BoxLines(top: nat, bottom: nat, first: nat, last: nat) returns (lines: seq<string>)
      requires top <= bottom
      ensures lines == State().LineRows(top, bottom - top + 1, first, last)
    {
      ghost var g := State();
      lines := [];
      var row := top;
      while row <= bottom
        invariant top <= row <= bottom + 1
        invariant lines == g.LineRows(top, row - top, first, last)
      {
        var line := GetLine(row, first, last);
        LineRowsNext(g, top, row - top, first, last);
        lines := lines + [line];
        row := row + 1;
      }
    }

    /** `from_lines`: char `col` of line `row` is written at (row, col), except spaces. */
    static method FromLines(lines: seq<string>) returns (g: ChunkedGrid)
      ensures fresh(g) && g.Valid() && g.selection == None
      ensures g.State() == EmptyCanvas.WriteRows(0, 0, lines, |lines|, {' '})
      ensures forall r: nat, c: nat :: g.Get(r, c) == FromLinesCell(lines, r, c)
    {
      g := new ChunkedGrid();
      g.WriteLines(0, 0, lines, {' '});
      ImportSpec(lines);
    }

    /** `to_string`: the exported lines joined by "\n". */
    method ToString() returns (s: string)
      requires Valid()
      ensures s == Join(State().Export(), "\n")
    {
      var lines := ToLines();
      s := Join(lines, "\n");
    }

    /** `from_string`: `from_lines` over `str::lines`. */
    static method FromString(content: string) returns (g: ChunkedGrid)
      ensures fresh(g) && g.Valid() && g.selection == None
      ensures forall r: nat, c: nat :: g.Get(r, c) == FromLinesCell(Lines(content), r, c)
    {
      g := FromLines(Lines(content));
    }

    /** `start_selection`: a one-cell selection at (row, col). */
    method StartSelection(row: nat, col: nat)
      modifies this`selection
      ensures selection == Some(BlockSelection.New(row, col))
    {
      selection := Some(BlockSelection.New(row, col));
    }

    /** `update_selection`: moves the selection's end corner; without a selection it does nothing. */
    method UpdateSelection(row: nat, col: nat)
      modifies this`selection
      ensures selection == if old(selection).Some? then Some(old(selection).value.Update(row, col)) else None
    {
      if selection.Some? {
        selection := Some(selection.value.Update(row, col));
      }
    }

    /** `clear_selection`. */
    method ClearSelection()
      modifies this`selection
      ensures selection == None
    {
      selection := None;
    }

    /** `clear`: erases every cell; the selection is kept. */
    method Clear()
      modifies this`chunks, this`minChunk, this`maxChunk
      ensures Valid() && State() == EmptyCanvas
      ensures forall r: nat, c: nat :: Get(r, c) == ' '
    {
      chunks := map[];
      minChunk := (0, 0);
      maxChunk := (0, 0);
    }

    /**
     * `copy_block`: None without a selection; otherwise one string per
     * selected row, each holding every cell of the selected columns.
     */
    function CopyBlock(): (r: Option<seq<string>>)
      reads this
      ensures r.Some? <==> selection.Some?
      ensures r.Some? ==>
        var b := selection.value.Bounds();
        |r.value| == b.2 - b.0 + 1
        && forall i :: 0 <= i < |r.value| ==>
             |r.value[i]| == b.3 - b.1 + 1
             && forall j :: 0 <= j < |r.value[i]| ==> r.value[i][j] == Get(b.0 + i, b.1 + j)
    {
      match selection
      case None => None
      case Some(sel) =>
        var b := sel.Bounds();
        BlockSpec(State(), b.0, b.2 - b.0 + 1, b.1, b.3 - b.1 + 1);
        Some(State().Block(b.0, b.2 - b.0 + 1, b.1, b.3 - b.1 + 1))
    }

    /**
     * `cut_block`: returns the copy, blanks exactly the selected rectangle and
     * drops the selection. Its nested loop calls `set(row, col, ' ')` on each
     * selected cell, row by row: the same calls as writing rows of spaces.
     */
    method CutBlock() returns (copied: Option<seq<string>>)
      modifies this
      ensures selection == None && copied == old(CopyBlock())
      ensures old(selection).None? ==> State() == old(State())
      ensures old(selection).Some? ==> State() == Cut(old(State()), old(selection).value)
      ensures old(Valid()) ==> Valid()
      ensures forall r: nat, c: nat ::
                Get(r, c) == if old(selection).Some? && old(selection).value.Contains(r, c) then ' ' else old(Get(r, c))
    {
      copied := CopyBlock();
      if selection.Some? {
        BlankBlock(selection.value);
      }
      selection := None;
    }

    /** The nested loop of `cut_block`: every cell of the rectangle set to ' '. */
    method BlankBlock(sel: BlockSelection)
      modifies this`chunks, this`minChunk, this`maxChunk
      ensures State() == Cut(old(State()), sel)
      ensures old(Valid()) ==> Valid()
      ensures forall r: nat, c: nat :: Get(r, c) == if sel.Contains(r, c) then ' ' else old(Get(r, c))
    {
      ghost var g0 := State();
      var b := sel.Bounds();
      var blanks := Blanks(b.2 - b.0 + 1, b.3 - b.1 + 1);
      WriteLines(b.0, b.1, blanks, {});
      CutFrame(g0, State(), sel, blanks);
    }

    /** `paste_block`: char j of line i is written at (row + i, col + j); nothing shifts. */
    method PasteBlock(lines: seq<string>, row: nat, col: nat)
      modifies this`chunks, this`minChunk, this`maxChunk
      ensures State() == old(State()).WriteRows(row, col, lines, |lines|, {})
      ensures old(Valid()) ==> Valid()
      ensures forall r: nat, c: nat :: Get(r, c) == RowsWritten(row, col, lines, |lines|, {}, r, c, old(Get(r, c)))
    {
      ghost var g0 := State();
      WriteLines(row, col, lines, {});
      WriteRowsFrame(g0, row, col, lines, {});
    }

    /**
     * The nested loop shared by `from_lines`, `cut_block` and `paste_block`:
     * line i of `lines` goes through `WriteLine` at (row + i, col), in order.
     */
    method WriteLines(row: nat, col: nat, lines: seq<string>, skip: set<char>)
      modifies this`chunks, this`minChunk, this`maxChunk
      ensures State() == old(State()).WriteRows(row, col, lines, |lines|, skip)
      ensures old(Valid()) ==> Valid()
    {
      ghost var g0 := State();
      var i := 0;
      while i < |lines|
        invariant 0 <= i <= |lines|
        invariant State() == g0.WriteRows(row, col, lines, i, skip)
      {
        WriteRowsNext(g0, row, col, lines, i, skip);
        WriteLine(row + i, col, lines[i], skip);
        i := i + 1;
      }
      if g0.Valid() {
        WriteRowsValid(g0, row, col, lines, |lines|, skip);
      }
    }
  }
}
