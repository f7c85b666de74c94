/**
 * Who has which memory: the pieces that the system gave, the blocks carved
 * out of them, and the users' bytes inside those.
 */
module AllocMemory {
  import opened AllocLists

  /** Sizes fixed when the allocator is built: MINBLOCK is 16 or 32. */
  datatype Layout = Layout(minBucket: nat, header: nat, slop: nat, blockHeader: nat)
  {
    predicate Valid() {
      1 <= minBucket <= 2 && 0 < header <= Size(minBucket) && Overhead() < MaxMalloc()
    }

    function Buckets(): nat
      requires minBucket <= 2
    {
      13 - minBucket
    }

    function MaxMalloc(): nat
      requires minBucket <= 2
    {
      Size(Buckets() - 1)
    }

    function Overhead(): nat {
      header + slop
    }
  }

  /** The sizes in bytes: the smallest block, the number of buckets, and the largest block, which is also what is carved. */
  lemma LimitsAre(l: Layout)
    requires l.Valid()
    ensures l.minBucket == 1 ==> Size(l.minBucket) == 16 && l.Buckets() == 12 && l.MaxMalloc() == 16384
    ensures l.minBucket == 2 ==> Size(l.minBucket) == 32 && l.Buckets() == 11 && l.MaxMalloc() == 8192
    ensures forall b :: l.minBucket <= b < l.Buckets() - 1 ==> Size(b + 1) == 2 * Size(b)
  {
    assert Size(4) == 128 && Size(7) == 1024 && Size(10) == 8192;
  }

  const BIG: nat := 0xFF

  /**
   * owned has the pieces of the system's memory and their lengths, chunks and
   * big blocks. A block is known by the place of its header: carved has the
   * bucket of every block carved out of a chunk, and home its chunk; bigAt has
   * the piece of every big block; live what the users of blocks asked for.
   */
  datatype Memory = Memory(
    cells: map<nat, Cell>, carved: map<nat, nat>, home: map<nat, nat>, owned: map<nat, nat>,
    chunks: set<nat>, bigAt: map<nat, nat>, live: map<nat, nat>)

  /** The system's pieces do not overlap. */
  ghost predicate SpaceOk(l: Layout, m: Memory) {
    && l.Valid() && (forall c :: c in m.owned ==> c > 0)
    && (forall c, d :: c in m.owned && d in m.owned && c != d ==> Apart(c, m.owned[c], d, m.owned[d]))
    && m.chunks <= m.owned.Keys && (forall c :: c in m.chunks ==> m.owned[c] == l.blockHeader + l.MaxMalloc())
  }

  /** Every carved block lies in a chunk, behind the chunk's header, and no two overlap. */
  ghost predicate CarvedOk(l: Layout, m: Memory) {
    && l.Valid() && (forall a :: a in m.carved ==> CarvedIn(l, m, a))
    && (forall a, b :: a in m.carved && b in m.carved && a != b ==> Apart(a, Size(m.carved[a]), b, Size(m.carved[b])))
  }

  ghost predicate CarvedIn(l: Layout, m: Memory, a: nat)
    requires l.Valid() && a in m.carved
  {
    && a > 0 && a in m.cells && l.minBucket <= m.carved[a] < l.Buckets()
    && (m.cells[a].Magic? ==> m.cells[a].bucket == m.carved[a])
    && a in m.home && m.home[a] in m.chunks
    && m.home[a] + l.blockHeader <= a && a + Size(m.carved[a]) <= m.home[a] + l.blockHeader + l.MaxMalloc()
  }

  /** Every big block fills a piece of its own. */
  ghost predicate BigsOk(l: Layout, m: Memory) {
    forall o :: o in m.bigAt ==> BigIn(l, m, o)
  }

  ghost predicate BigIn(l: Layout, m: Memory, o: nat)
    requires o in m.bigAt
  {
    var c := m.bigAt[o];
    && c in m.owned && c !in m.chunks && o == c + l.blockHeader && o !in m.carved
    && o in m.cells && m.cells[o] == Magic(BIG) && o in m.live && m.owned[c] == l.blockHeader + l.Overhead() + m.live[o]
  }

  /** The blocks in use are the carved ones that are not free and the big ones; each has room for what was asked. */
  ghost predicate UsersOk(l: Layout, m: Memory) {
    && (forall o :: o in m.live <==> o in m.bigAt || (o in m.carved && o in m.cells && m.cells[o].Magic?))
    && (forall o :: o in m.live && o in m.carved ==> m.live[o] + l.Overhead() <= Size(m.carved[o]))
  }

  ghost predicate MemoryOk(l: Layout, m: Memory) {
    SpaceOk(l, m) && CarvedOk(l, m) && BigsOk(l, m) && UsersOk(l, m)
  }

  // ---------------------------------------------------------------- what users can rely on

  /** A carved block and a piece that is not a chunk have no byte in common. */
  lemma CarvedAndPiece(l: Layout, m: Memory, a: nat, c: nat)
    requires SpaceOk(l, m) && CarvedOk(l, m) && a in m.carved && c in m.owned && c !in m.chunks
    ensures Apart(a, Size(m.carved[a]), c, m.owned[c])
  {
    assert CarvedIn(l, m, a);
    assert m.home[a] in m.owned;
    assert Apart(m.home[a], m.owned[m.home[a]], c, m.owned[c]);
  }

  /** The bytes of the users of different blocks never overlap. */
  lemma UsersApart(l: Layout, m: Memory, o: nat, q: nat)
    requires MemoryOk(l, m) && o in m.live && q in m.live && o != q
    ensures Apart(o + l.header, m.live[o], q + l.header, m.live[q])
  {
    hide Size;
    if o in m.bigAt {
      assert BigIn(l, m, o);
    }
    if q in m.bigAt {
      assert BigIn(l, m, q);
    }
    if o in m.bigAt && q in m.bigAt {
      assert Apart(m.bigAt[o], m.owned[m.bigAt[o]], m.bigAt[q], m.owned[m.bigAt[q]]);
    } else if o in m.bigAt {
      CarvedAndPiece(l, m, q, m.bigAt[o]);
    } else if q in m.bigAt {
      CarvedAndPiece(l, m, o, m.bigAt[q]);
    } else {
      assert Apart(o, Size(m.carved[o]), q, Size(m.carved[q]));
    }
  }

  /** The headers of the carved blocks are not among the bytes of any user. */
  lemma HeadersApart(l: Layout, m: Memory, a: nat, o: nat)
    requires MemoryOk(l, m) && a in m.carved && o in m.live
    ensures Apart(a, l.header, o + l.header, m.live[o])
  {
    assert CarvedIn(l, m, a);
    SizeRises(l.minBucket, m.carved[a]);
    hide Size;
    if o in m.bigAt {
      assert BigIn(l, m, o);
      CarvedAndPiece(l, m, a, m.bigAt[o]);
    } else if a != o {
      assert Apart(a, Size(m.carved[a]), o, Size(m.carved[o]));
    }
  }

  // ---------------------------------------------------------------- what the operations do to the memory

  /** A piece of memory that overlaps none that is held. */
  ghost predicate Vacant(owned: map<nat, nat>, c: nat, n: nat) {
    c > 0 && c !in owned && forall d :: d in owned ==> Apart(c, n, d, owned[d])
  }

  ghost function BigTaken(l: Layout, m: Memory, c: nat, numBytes: nat): Memory {
    var o := c + l.blockHeader;
    m.(owned := m.owned[c := l.blockHeader + l.Overhead() + numBytes], bigAt := m.bigAt[o := c],
       cells := m.cells[o := Magic(BIG)], live := m.live[o := numBytes])
  }

  /** Carved blocks stay in order when only their cells change, between free and their own bucket. */
  lemma CarvedKept(l: Layout, m: Memory, r: Memory)
    requires CarvedOk(l, m) && r.carved == m.carved && r.home == m.home && r.chunks == m.chunks
    requires forall a :: a in m.carved ==> a in r.cells && (r.cells[a] == m.cells[a] || r.cells[a].Next? || r.cells[a] == Magic(m.carved[a]))
    ensures CarvedOk(l, r)
  {
    hide Size, Apart;
    forall a | a in r.carved ensures CarvedIn(l, r, a) {
      assert CarvedIn(l, m, a);
    }
  }

  /** Big blocks whose memory is left alone stay in order. */
  lemma BigsKept(l: Layout, m: Memory, r: Memory)
    requires BigsOk(l, m) && r.chunks == m.chunks && r.carved == m.carved
    requires forall o :: o in r.bigAt ==> BigSame(m, r, o) || BigIn(l, r, o)
    ensures BigsOk(l, r)
  {
    forall o | o in r.bigAt ensures BigIn(l, r, o) {
      if BigSame(m, r, o) {
        assert BigIn(l, m, o);
      }
    }
  }

  ghost predicate BigSame(m: Memory, r: Memory, o: nat)
    requires o in r.bigAt
  {
    && o in m.bigAt && r.bigAt[o] == m.bigAt[o] && (m.bigAt[o] in m.owned ==> r.bigAt[o] in r.owned && r.owned[r.bigAt[o]] == m.owned[m.bigAt[o]])
    && (o in m.cells ==> o in r.cells && r.cells[o] == m.cells[o]) && (o in m.live ==> o in r.live && r.live[o] == m.live[o])
  }

  lemma BigTakenOk(l: Layout, m: Memory, c: nat, numBytes: nat)
    requires MemoryOk(l, m) && Vacant(m.owned, c, l.blockHeader + l.Overhead() + numBytes)
    ensures MemoryOk(l, BigTaken(l, m, c, numBytes)) && c + l.blockHeader !in m.live && c + l.blockHeader !in m.carved
  {
    hide CarvedOk, BigsOk, Size, Apart;
    var r, o := BigTaken(l, m, c, numBytes), c + l.blockHeader;
    NewPlace(l, m, c, numBytes);
    NewPiece(l, m, r, c);
    CarvedCells(l, m);
    CarvedKept(l, m, r);
    NotBig(l, m, c);
    forall x | x in r.bigAt ensures BigSame(m, r, x) || BigIn(l, r, x) {
      if x != o {
        PieceOf(l, m, x);
        assert BigSame(m, r, x);
      }
    }
    BigsKept(l, m, r);
  }

  /** One more piece of the system's memory. */
  lemma NewPiece(l: Layout, m: Memory, r: Memory, c: nat)
    requires SpaceOk(l, m) && c in r.owned && r.owned == m.owned[c := r.owned[c]] && Vacant(m.owned, c, r.owned[c])
    requires r.chunks == m.chunks || (r.chunks == m.chunks + {c} && r.owned[c] == l.blockHeader + l.MaxMalloc())
    ensures SpaceOk(l, r)
  {
    hide Size;
  }

  /** Where a big block would get its header there is none. */
  lemma NewPlace(l: Layout, m: Memory, c: nat, numBytes: nat)
    requires SpaceOk(l, m) && CarvedOk(l, m) && Vacant(m.owned, c, l.blockHeader + l.Overhead() + numBytes)
    ensures c + l.blockHeader !in m.carved && c !in m.chunks
  {
    forall a | a in m.carved ensures a != c + l.blockHeader {
      assert CarvedIn(l, m, a);
      assert m.home[a] in m.owned;
      assert Apart(c, l.blockHeader + l.Overhead() + numBytes, m.home[a], m.owned[m.home[a]]);
    }
  }

  lemma CarvedCells(l: Layout, m: Memory)
    requires CarvedOk(l, m)
    ensures forall a :: a in m.carved ==> a in m.cells && (m.cells[a].Magic? ==> m.cells[a].bucket == m.carved[a])
  {
    forall a | a in m.carved ensures a in m.cells && (m.cells[a].Magic? ==> m.cells[a].bucket == m.carved[a]) {
      assert CarvedIn(l, m, a);
    }
  }

  lemma NotBig(l: Layout, m: Memory, c: nat)
    requires BigsOk(l, m) && c !in m.owned
    ensures c + l.blockHeader !in m.bigAt
  {
    forall x | x in m.bigAt ensures x != c + l.blockHeader {
      assert BigIn(l, m, x);
    }
  }

  lemma PieceOf(l: Layout, m: Memory, o: nat)
    requires BigsOk(l, m) && o in m.bigAt
    ensures BigIn(l, m, o)
  {
  }

  ghost function BigGiven(m: Memory, o: nat): Memory
    requires o in m.bigAt
  {
    m.(owned := m.owned - {m.bigAt[o]}, bigAt := m.bigAt - {o}, live := m.live - {o})
  }

  lemma BigGivenOk(l: Layout, m: Memory, o: nat)
    requires MemoryOk(l, m) && o in m.bigAt
    ensures MemoryOk(l, BigGiven(m, o)) && o !in m.carved && m.bigAt[o] in m.owned && o == m.bigAt[o] + l.blockHeader
    ensures o in m.live && o in m.cells && m.cells[o] == Magic(BIG)
  {
    hide CarvedOk, BigsOk, Size, Apart;
    var r := BigGiven(m, o);
    PieceOf(l, m, o);
    assert SpaceOk(l, r);
    CarvedCells(l, m);
    CarvedKept(l, m, r);
    forall x | x in r.bigAt ensures BigSame(m, r, x) {
      PieceOf(l, m, x);
    }
    BigsKept(l, m, r);
  }

  /** A carved block that was free has a user, or one that has is used for another number of bytes. */
  ghost function SmallTaken(m: Memory, a: nat, numBytes: nat): Memory
    requires a in m.carved
  {
    m.(cells := m.cells[a := Magic(m.carved[a])], live := m.live[a := numBytes])
  }

  lemma SmallTakenOk(l: Layout, m: Memory, a: nat, numBytes: nat)
    requires MemoryOk(l, m) && a in m.carved && numBytes + l.Overhead() <= Size(m.carved[a])
    ensures MemoryOk(l, SmallTaken(m, a, numBytes))
    ensures a in m.cells && (m.cells[a].Next? ==> a !in m.live)
  {
    hide CarvedOk, BigsOk, Size, Apart;
    var r := SmallTaken(m, a, numBytes);
    assert SpaceOk(l, r);
    CarvedCells(l, m);
    CarvedKept(l, m, r);
    forall x | x in r.bigAt ensures BigSame(m, r, x) {
      PieceOf(l, m, x);
    }
    BigsKept(l, m, r);
    NoBigs(l, m, a);
  }

  lemma NoBigs(l: Layout, m: Memory, a: nat)
    requires BigsOk(l, m) && a in m.carved
    ensures a !in m.bigAt
  {
    forall o | o in m.bigAt ensures o !in m.carved {
      assert BigIn(l, m, o);
    }
  }

  /** A carved block loses its user. */
  ghost function SmallGiven(m: Memory, a: nat, next: nat): Memory {
    m.(cells := m.cells[a := Next(next)], live := m.live - {a})
  }

  lemma SmallGivenOk(l: Layout, m: Memory, a: nat, next: nat)
    requires MemoryOk(l, m) && a in m.carved
    ensures MemoryOk(l, SmallGiven(m, a, next))
  {
    hide CarvedOk, BigsOk, Size, Apart;
    var r := SmallGiven(m, a, next);
    assert SpaceOk(l, r);
    CarvedCells(l, m);
    CarvedKept(l, m, r);
    NoBigs(l, m, a);
    forall x | x in r.bigAt ensures BigSame(m, r, x) {
      PieceOf(l, m, x);
    }
    BigsKept(l, m, r);
  }

  /** A chunk, carved into n blocks for a bucket. */
  ghost function Chunked(l: Layout, m: Memory, c: nat, bucket: nat, n: nat, cells: map<nat, Cell>): Memory
    requires l.Valid()
  {
    var row := Row(c + l.blockHeader, Size(bucket), n);
    m.(owned := m.owned[c := l.blockHeader + l.MaxMalloc()], chunks := m.chunks + {c}, cells := cells,
       carved := m.carved + (map x | x in row :: bucket), home := m.home + (map x | x in row :: c))
  }

  /** Only the cells of the row were written, and they are links. */
  ghost predicate RowWritten(old_: map<nat, Cell>, cells: map<nat, Cell>, row: seq<nat>) {
    && (forall x :: x in row ==> x in cells && cells[x].Next?)
    && (forall x :: x in old_ && x !in row ==> x in cells && cells[x] == old_[x])
  }

  lemma ChunkedOk(l: Layout, m: Memory, c: nat, bucket: nat, n: nat, cells: map<nat, Cell>)
    requires MemoryOk(l, m) && Vacant(m.owned, c, l.blockHeader + l.MaxMalloc()) && l.minBucket <= bucket < l.Buckets()
    requires n * Size(bucket) == l.MaxMalloc()
    requires RowWritten(m.cells, cells, Row(c + l.blockHeader, Size(bucket), n))
    ensures MemoryOk(l, Chunked(l, m, c, bucket, n, cells))
    ensures forall x :: x in Row(c + l.blockHeader, Size(bucket), n) ==> x !in m.carved && x !in m.live && x > 0
  {
    hide CarvedOk, BigsOk, Apart, RowWritten, Size;
    var r := Chunked(l, m, c, bucket, n, cells);
    var row := Row(c + l.blockHeader, Size(bucket), n);
    RowBounds(c + l.blockHeader, Size(bucket), n);
    RowNew(l, m, c, row, Size(bucket));
    NewPiece(l, m, r, c);
    ChunkedCarved(l, m, c, bucket, n, cells);
    ChunkedBigs(l, m, c, bucket, n, cells);
    ChunkedUsers(l, m, r, row, bucket);
  }

  lemma ChunkedUsers(l: Layout, m: Memory, r: Memory, row: seq<nat>, bucket: nat)
    requires UsersOk(l, m) && CarvedOk(l, m) && RowWritten(m.cells, r.cells, row)
    requires r.live == m.live && r.bigAt == m.bigAt && r.carved == m.carved + (map x | x in row :: bucket)
    requires forall x :: x in row ==> x !in m.carved && x !in m.live
    ensures UsersOk(l, r)
  {
    hide Size;
    CarvedCells(l, m);
  }

  /** Where a new chunk is there is no block. */
  lemma RowNew(l: Layout, m: Memory, c: nat, row: seq<nat>, size: nat)
    requires MemoryOk(l, m) && Vacant(m.owned, c, l.blockHeader + l.MaxMalloc()) && size > 0
    requires forall x :: x in row ==> c + l.blockHeader <= x && x + size <= c + l.blockHeader + l.MaxMalloc()
    ensures forall x :: x in row ==> x !in m.carved && x !in m.bigAt && x !in m.live && x > 0
  {
    forall a | a in m.carved ensures a !in row {
      OldCarved(l, m, c, a);
    }
    forall o | o in m.bigAt ensures o !in row {
      assert BigIn(l, m, o);
      assert Apart(c, l.blockHeader + l.MaxMalloc(), m.bigAt[o], m.owned[m.bigAt[o]]);
    }
  }

  lemma OldCarved(l: Layout, m: Memory, c: nat, a: nat)
    requires SpaceOk(l, m) && CarvedOk(l, m) && Vacant(m.owned, c, l.blockHeader + l.MaxMalloc()) && a in m.carved
    ensures Apart(c, l.blockHeader + l.MaxMalloc(), a, Size(m.carved[a]))
  {
    assert CarvedIn(l, m, a);
    assert m.home[a] in m.owned;
    assert Apart(c, l.blockHeader + l.MaxMalloc(), m.home[a], m.owned[m.home[a]]);
  }

  lemma ChunkedBigs(l: Layout, m: Memory, c: nat, bucket: nat, n: nat, cells: map<nat, Cell>)
    requires l.Valid() && BigsOk(l, m) && c !in m.owned
    requires RowWritten(m.cells, cells, Row(c + l.blockHeader, Size(bucket), n))
    requires forall x :: x in Row(c + l.blockHeader, Size(bucket), n) ==> x !in m.bigAt
    ensures BigsOk(l, Chunked(l, m, c, bucket, n, cells))
  {
    hide Size;
    var r := Chunked(l, m, c, bucket, n, cells);
    forall o | o in r.bigAt ensures BigIn(l, r, o) {
      assert BigIn(l, m, o);
    }
  }

  /** The row was carved out of chunk c and nothing else. */
  ghost predicate Carving(m: Memory, r: Memory, c: nat, bucket: nat, row: seq<nat>) {
    && r.chunks == m.chunks + {c}
    && (forall a :: a in r.carved <==> a in m.carved || a in row)
    && (forall a :: a in row ==> r.carved[a] == bucket && a in r.home && r.home[a] == c && a in r.cells && r.cells[a].Next?)
    && (forall a :: a in m.carved && a !in row ==> r.carved[a] == m.carved[a])
    && (forall a :: a in m.home && a !in row ==> a in r.home && r.home[a] == m.home[a])
    && (forall a :: a in m.cells && a !in row ==> a in r.cells && r.cells[a] == m.cells[a])
  }

  lemma ChunkedCarving(l: Layout, m: Memory, c: nat, bucket: nat, n: nat, cells: map<nat, Cell>)
    requires l.Valid() && RowWritten(m.cells, cells, Row(c + l.blockHeader, Size(bucket), n))
    ensures Carving(m, Chunked(l, m, c, bucket, n, cells), c, bucket, Row(c + l.blockHeader, Size(bucket), n))
  {
    hide Size, Row;
  }

  lemma ChunkedCarved(l: Layout, m: Memory, c: nat, bucket: nat, n: nat, cells: map<nat, Cell>)
    requires SpaceOk(l, m) && CarvedOk(l, m) && Vacant(m.owned, c, l.blockHeader + l.MaxMalloc()) && l.minBucket <= bucket < l.Buckets()
    requires n * Size(bucket) == l.MaxMalloc()
    requires RowWritten(m.cells, cells, Row(c + l.blockHeader, Size(bucket), n))
    requires forall x :: x in Row(c + l.blockHeader, Size(bucket), n) ==> x !in m.carved
    ensures CarvedOk(l, Chunked(l, m, c, bucket, n, cells))
  {
    hide Size, Row, RowWritten, CarvedOk, Chunked, Vacant, Carving;
    var size := Size(bucket);
    var row := Row(c + l.blockHeader, size, n);
    RowBounds(c + l.blockHeader, size, n);
    RowApart(c + l.blockHeader, size, n);
    ChunkedCarving(l, m, c, bucket, n, cells);
    CarvingOk(l, m, Chunked(l, m, c, bucket, n, cells), c, bucket, row);
  }

  lemma CarvingOk(l: Layout, m: Memory, r: Memory, c: nat, bucket: nat, row: seq<nat>)
    requires SpaceOk(l, m) && CarvedOk(l, m) && Vacant(m.owned, c, l.blockHeader + l.MaxMalloc()) && l.minBucket <= bucket < l.Buckets()
    requires Carving(m, r, c, bucket, row) && forall x :: x in row ==> x !in m.carved
    requires forall x :: x in row ==> c + l.blockHeader <= x && x + Size(bucket) <= c + l.blockHeader + l.MaxMalloc()
    requires forall x, y :: x in row && y in row && x != y ==> Apart(x, Size(bucket), y, Size(bucket))
    ensures CarvedOk(l, r)
  {
    hide Size;
    forall a | a in r.carved ensures CarvedIn(l, r, a) {
      if a !in row {
        assert CarvedIn(l, m, a);
      }
    }
    forall a, b | a in r.carved && b in r.carved && a != b ensures Apart(a, Size(r.carved[a]), b, Size(r.carved[b])) {
      CarvingApart(l, m, r, c, bucket, row, a, b);
    }
  }

  lemma CarvingApart(l: Layout, m: Memory, r: Memory, c: nat, bucket: nat, row: seq<nat>, a: nat, b: nat)
    requires SpaceOk(l, m) && CarvedOk(l, m) && Vacant(m.owned, c, l.blockHeader + l.MaxMalloc())
    requires Carving(m, r, c, bucket, row) && a in r.carved && b in r.carved && a != b
    requires forall x :: x in row ==> c + l.blockHeader <= x && x + Size(bucket) <= c + l.blockHeader + l.MaxMalloc()
    requires forall x, y :: x in row && y in row && x != y ==> Apart(x, Size(bucket), y, Size(bucket))
    ensures Apart(a, Size(r.carved[a]), b, Size(r.carved[b]))
  {
    hide Size, CarvedIn;
    if a !in row {
      OldCarved(l, m, c, a);
    }
    if b !in row {
      OldCarved(l, m, c, b);
    }
  }

  /** No user has bytes in a vacant piece. */
  lemma VacantOfUsers(l: Layout, m: Memory, c: nat, n: nat, o: nat)
    requires MemoryOk(l, m) && Vacant(m.owned, c, n) && o in m.live
    ensures Apart(c, n, o + l.header, m.live[o])
  {
    hide Size;
    if o in m.bigAt {
      assert BigIn(l, m, o);
      assert Apart(c, n, m.bigAt[o], m.owned[m.bigAt[o]]);
    } else {
      assert CarvedIn(l, m, o);
      assert m.home[o] in m.owned;
      assert Apart(c, n, m.home[o], m.owned[m.home[o]]);
    }
  }
}
