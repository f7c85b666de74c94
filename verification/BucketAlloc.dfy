/**
 * The allocator that keeps a list of free blocks for every power of two, and
 * hands big blocks straight through to the system.
 */
module BucketAlloc {
  import opened AllocLists
  import opened AllocMemory

  const UINT_MAX: nat := 0xFFFF_FFFF

  /** A carved block is on its own bucket's list, once, exactly if it is free. */
  ghost predicate ListsOk(l: Layout, nextf: seq<nat>, cells: map<nat, Cell>, carved: map<nat, nat>, lists: seq<seq<nat>>) {
    l.Valid() && |nextf| == |lists| == l.Buckets() && AllLinked(nextf, cells, lists) && AllListed(cells, carved, lists)
  }

  ghost predicate AllLinked(nextf: seq<nat>, cells: map<nat, Cell>, lists: seq<seq<nat>>) {
    |nextf| == |lists| && forall i :: 0 <= i < |lists| ==> Linked(cells, nextf[i], lists[i]) && Distinct(lists[i])
  }

  ghost predicate AllListed(cells: map<nat, Cell>, carved: map<nat, nat>, lists: seq<seq<nat>>) {
    && (forall i, a :: 0 <= i < |lists| && a in lists[i] ==> a in carved && carved[a] == i)
    && (forall a :: a in carved ==> a in cells && carved[a] < |lists| && (a in lists[carved[a]] <==> cells[a].Next?))
  }

  ghost function Members(list: seq<nat>): set<nat> {
    set c | c in list
  }

  function Put(s: seq<nat>, i: nat, x: nat): (r: seq<nat>)
    requires i < |s|
    ensures |r| == |s|
  {
    s[i := x]
  }

  lemma PutIs(s: seq<nat>, i: nat, x: nat)
    requires i < |s|
    ensures Put(s, i, x) == s[i := x]
  {
  }

  /** The empty list of a bucket has been filled with all the blocks of a new chunk. */
  ghost predicate Refilled(l: Layout, bucket: nat, c: nat, n: nat, m: Memory, nextf0: seq<nat>, lists0: seq<seq<nat>>,
                           nextf: seq<nat>, lists: seq<seq<nat>>)
  {
    && l.Valid() && Vacant(m.owned, c, l.blockHeader + l.MaxMalloc()) && n * Size(bucket) == l.MaxMalloc()
    && bucket < |nextf0| && bucket < |lists0| && nextf == nextf0[bucket := c + l.blockHeader]
    && lists == lists0[bucket := Row(c + l.blockHeader, Size(bucket), n)]
  }

  lemma RefilledIs(l: Layout, bucket: nat, c: nat, n: nat, m: Memory, nextf0: seq<nat>, lists0: seq<seq<nat>>,
                   nextf: seq<nat>, lists: seq<seq<nat>>)
    requires l.Valid() && Vacant(m.owned, c, l.blockHeader + l.MaxMalloc()) && n * Size(bucket) == l.MaxMalloc()
    requires bucket < |nextf0| && bucket < |lists0| && nextf == nextf0[bucket := c + l.blockHeader]
    requires lists == lists0[bucket := Row(c + l.blockHeader, Size(bucket), n)]
    ensures Refilled(l, bucket, c, n, m, nextf0, lists0, nextf, lists)
  {
  }

  /** The smallest bucket whose blocks hold so many bytes. */
  predicate Smallest(l: Layout, numBytes: nat, bucket: nat) {
    && bucket >= l.minBucket && numBytes + l.Overhead() <= Size(bucket)
    && (bucket > l.minBucket ==> numBytes + l.Overhead() > Size(bucket - 1))
  }

  /** The system's answer to each request in turn: whether it gives so many bytes. */
  type Answers = (nat, nat) -> bool

  /**
   * The answer to a request for so many bytes, when the system has been asked
   * a number of times before and is asked until now: a big block if the system
   * gives one; otherwise the first free block of the smallest bucket that has
   * room, and if there is none, a block of a new chunk if the system gives one.
   */
  ghost predicate Served(l: Layout, numBytes: nat, nextf: seq<nat>, grants: Answers, asked: nat, now: nat, p: nat)
    requires l.minBucket <= 2
  {
    if numBytes >= l.MaxMalloc() - l.Overhead() then
      var small := numBytes <= UINT_MAX - l.Overhead() - l.blockHeader;
      && (p != NULL <==> small && grants(asked, l.blockHeader + l.Overhead() + numBytes))
      && now == asked + if small then 1 else 0
    else
      exists b :: Smallest(l, numBytes, b) && FromBucket(l, b, nextf, grants, asked, now, p)
  }

  ghost predicate FromBucket(l: Layout, b: nat, nextf: seq<nat>, grants: Answers, asked: nat, now: nat, p: nat)
    requires l.minBucket <= 2
  {
    && b < |nextf|
    && if nextf[b] != NULL then p == nextf[b] + l.header && now == asked
       else (p != NULL <==> grants(asked, l.blockHeader + l.MaxMalloc())) && now == asked + 1
  }

  /** A carved block of a size that is neither too small nor more than twice too large stays where it is; any other moves. */
  ghost predicate Resized(l: Layout, numBytes: nat, size: nat, nextf: seq<nat>, grants: Answers, asked: nat, now: nat, p: nat, q: nat)
    requires l.minBucket <= 2
  {
    if size / 2 <= numBytes + l.Overhead() <= size then q == p && now == asked
    else q != p && Served(l, numBytes, nextf, grants, asked, now, q)
  }

  /** There is only one smallest bucket. */
  lemma SmallestOnce(l: Layout, numBytes: nat, b: nat, c: nat)
    requires Smallest(l, numBytes, b) && Smallest(l, numBytes, c)
    ensures b == c
  {
    if b < c {
      SizeRises(b, c - 1);
    } else if c < b {
      SizeRises(c, b - 1);
    }
  }

  /** Where there is a free block of the smallest bucket that has room, the first one is the answer, and the system is not asked. */
  lemma FirstIsServed(l: Layout, numBytes: nat, b: nat, nextf: seq<nat>, grants: Answers, asked: nat, now: nat, p: nat)
    requires l.minBucket <= 2 && numBytes < l.MaxMalloc() - l.Overhead() && Smallest(l, numBytes, b) && b < |nextf|
    requires Served(l, numBytes, nextf, grants, asked, now, p) && nextf[b] != NULL
    ensures p == nextf[b] + l.header && now == asked
  {
    var c :| Smallest(l, numBytes, c) && FromBucket(l, c, nextf, grants, asked, now, p);
    SmallestOnce(l, numBytes, b, c);
  }

  /** The bytes of memory. */
  type Bytes = map<nat, int>

  function At(data: Bytes, a: nat): (x: int)
    ensures a in data ==> x == data[a]
  {
    if a in data then data[a] else 0
  }

  /** The memory with n bytes copied. */
  function Copied(data: Bytes, src: nat, dst: nat, n: nat): (r: Bytes)
    ensures forall a: nat :: dst <= a < dst + n ==> At(r, a) == At(data, src + (a - dst))
    ensures forall a: nat :: a < dst || dst + n <= a ==> At(r, a) == At(data, a)
  {
    if n == 0 then data
    else
      var rest := Copied(data, src, dst, n - 1);
      var x: nat := dst + (n - 1);
      var all := rest[x := At(data, src + (n - 1))];
      assert forall a: nat :: At(all, a) == if a == x then At(data, src + (n - 1)) else At(rest, a);
      all
  }

  class Allocator {
    const l: Layout
    /** What the system answers. */
    const grants: Answers
    /** How often the system has been asked. */
    var asked: nat
    /** The first free block of each bucket. */
    var nextf: seq<nat>
    /** The first bytes of the blocks, where links and magic numbers are. */
    var cells: map<nat, Cell>
    /** The chunks, the last one first. */
    var blockList: seq<nat>
    var bigNext: map<nat, nat>
    var bigPrev: map<nat, nat>
    var data: Bytes
    /** The pieces of memory that the system gave. */
    var owned: map<nat, nat>
    ghost var carved: map<nat, nat>
    ghost var home: map<nat, nat>
    ghost var lists: seq<seq<nat>>
    ghost var bigAt: map<nat, nat>
    ghost var ring: seq<nat>
    /** What was asked for, by the place of the block's header. */
    ghost var live: map<nat, nat>

    ghost function Mem(): Memory
      reads this
    {
      Memory(cells, carved, home, owned, Members(blockList), bigAt, live)
    }

    ghost predicate Valid()
      reads this
    {
      && MemoryOk(l, Mem()) && ListsOk(l, nextf, cells, carved, lists) && Ring(bigNext, bigPrev, ring)
      && Members(ring) == bigAt.Values + {NULL}
    }

    constructor (l: Layout, grants: Answers)
      requires l.Valid()
      ensures this.l == l && this.grants == grants && Valid() && live == map[] && asked == 0
      ensures forall b :: 0 <= b < |nextf| ==> nextf[b] == NULL
    {
      this.l, this.grants, asked := l, grants, 0;
      nextf := seq(l.Buckets(), _ => NULL);
      cells, blockList, data, owned := map[], [], map[], map[];
      bigNext, bigPrev := map[NULL := NULL], map[NULL := NULL];
      carved, home, bigAt, ring, live := map[], map[], map[], [NULL], map[];
      lists := seq(l.Buckets(), _ => []);
    }

    /** Memory from the system, anywhere that is not held already, or none. */
    method SysAlloc(n: nat) returns (c: nat)
      requires forall d :: d in owned ==> d > 0
      modifies this`asked
      ensures asked == old(asked) + 1 && (c != NULL <==> grants(old(asked), n))
      ensures c != NULL ==> Vacant(owned, c, n)
    {
      asked := asked + 1;
      if !grants(asked - 1, n) {
        return NULL;
      }
      ghost var top := Above(owned, n);
      c :| c > 0 && c !in owned && forall d :: d in owned ==> Apart(c, n, d, owned[d]);
    }

    // -------------------------------------------------------------- big blocks

    /** A big block: a piece of the system's memory of its own, linked into the ring. */
    method AllocBig(numBytes: nat) returns (o: nat)
      requires Valid()
      modifies this`asked, this`owned, this`cells, this`bigNext, this`bigPrev, this`bigAt, this`ring, this`live
      ensures Valid()
      ensures numBytes > UINT_MAX - l.Overhead() - l.blockHeader ==> o == NULL && asked == old(asked)
      ensures numBytes <= UINT_MAX - l.Overhead() - l.blockHeader ==>
        asked == old(asked) + 1 && (o != NULL <==> grants(old(asked), l.blockHeader + l.Overhead() + numBytes))
      ensures o == NULL ==> live == old(live)
      ensures o != NULL ==> o in bigAt && o !in old(live) && live == old(live)[o := numBytes]
    {
      hide MemoryOk, ListsOk, Vacant, Ring, Linked, Size, Members, BigTaken, Apart;
      ghost var m := Mem();
      OwnedPositive(l, m);
      var c := NULL;
      if numBytes <= UINT_MAX - l.Overhead() - l.blockHeader {
        c := SysAlloc(l.blockHeader + l.Overhead() + numBytes);
        assert Mem() == m;
      }
      if c == NULL {
        return NULL;
      }
      o := PlaceBig(c, numBytes);
    }

    /** Makes a big block of a piece that the system gave. */
    method PlaceBig(c: nat, numBytes: nat) returns (o: nat)
      requires Valid() && Vacant(owned, c, l.blockHeader + l.Overhead() + numBytes)
      modifies this`owned, this`cells, this`bigNext, this`bigPrev, this`bigAt, this`ring, this`live
      ensures Valid() && o != NULL && o in bigAt && o !in old(live) && live == old(live)[o := numBytes]
    {
      hide MemoryOk, ListsOk, Vacant, Ring, Linked, Size, Members, BigTaken, Apart;
      ghost var m := Mem();
      BigTakenOk(l, m, c, numBytes);
      NotInRing(l, m, ring, c, l.blockHeader + l.Overhead() + numBytes);
      o := c + l.blockHeader;
      ListsElsewhere(l, nextf, cells, carved, lists, o, Magic(BIG));
      ValuesPlus(m.bigAt, o, c);
      LinkBig(c);
      PutBig(c, numBytes);
    }

    /** Links a big block into the ring. */
    method LinkBig(c: nat)
      requires Ring(bigNext, bigPrev, ring) && c !in ring
      modifies this`bigNext, this`bigPrev, this`ring
      ensures Ring(bigNext, bigPrev, ring) && Members(ring) == old(Members(ring)) + {c}
    {
      RingFirst(bigNext, bigPrev, ring);
      RingInsert(bigNext, bigPrev, ring, c);
      var n := bigNext[NULL];
      bigNext := bigNext[c := n][NULL := c];
      bigPrev := bigPrev[n := c][c := NULL];
      RingPlus(ring, c);
      ring := [NULL, c] + ring[1..];
    }

    /** Writes the header of a big block. */
    method PutBig(c: nat, numBytes: nat)
      modifies this`owned, this`cells, this`bigAt, this`live
      ensures Mem() == BigTaken(l, old(Mem()), c, numBytes)
      ensures cells == old(cells)[c + l.blockHeader := Magic(BIG)] && bigAt == old(bigAt)[c + l.blockHeader := c]
      ensures live == old(live)[c + l.blockHeader := numBytes]
    {
      hide Members;
      var o := c + l.blockHeader;
      owned := owned[c := l.blockHeader + l.Overhead() + numBytes];
      cells := cells[o := Magic(BIG)];
      bigAt := bigAt[o := c];
      live := live[o := numBytes];
    }

    // -------------------------------------------------------------- carving a chunk

    /** Fills the empty list of a bucket with blocks carved out of a new chunk, if there is one. */
    method MoreCore(bucket: nat)
      requires Valid() && l.minBucket <= bucket < l.Buckets() && nextf[bucket] == NULL
      modifies this`asked, this`owned, this`blockList, this`nextf, this`cells, this`carved, this`home, this`lists
      ensures Valid() && live == old(live) && |nextf| == |old(nextf)| && asked == old(asked) + 1
      ensures nextf[bucket] != NULL <==> grants(old(asked), l.blockHeader + l.MaxMalloc())
      ensures blockList == old(blockList) <==> nextf[bucket] == NULL
      ensures blockList == old(blockList) ==> lists == old(lists) && nextf == old(nextf) && carved == old(carved)
      ensures blockList != old(blockList) ==>
                exists c: nat, n: nat :: Refilled(l, bucket, c, n, old(Mem()), old(nextf), old(lists), nextf, lists)
                                         && blockList == [c] + old(blockList)
    {
      hide MemoryOk, ListsOk, Vacant, Ring, Linked, Size, RowLinks, Row, RowWritten, Distinct, Chunked, Members, Apart, Refilled;
      OwnedPositive(l, Mem());
      ListLengths(l, nextf, cells, carved, lists);
      var size := Size(bucket);
      var amount := l.MaxMalloc();
      BlocksFit(bucket, l.Buckets() - 1);
      var numBlocks := amount / size;
      var c := SysAlloc(l.blockHeader + amount);
      if c == NULL {
        return;
      }
      ghost var m, nextf0, lists0 := Mem(), nextf, lists;
      CarveChunk(c, bucket, numBlocks);
      RefilledIs(l, bucket, c, numBlocks, m, nextf0, lists0, nextf, lists);
    }

    /** Carves a chunk into blocks for the empty list of a bucket. */
    method CarveChunk(c: nat, bucket: nat, numBlocks: nat)
      requires Valid() && l.minBucket <= bucket < l.Buckets() == |nextf| && nextf[bucket] == NULL
      requires Vacant(owned, c, l.blockHeader + l.MaxMalloc()) && numBlocks >= 1 && numBlocks * Size(bucket) == l.MaxMalloc()
      modifies this`owned, this`blockList, this`nextf, this`cells, this`carved, this`home, this`lists
      ensures Valid() && blockList == [c] + old(blockList) && |old(lists)| == l.Buckets()
      ensures nextf == old(nextf)[bucket := c + l.blockHeader]
      ensures lists == old(lists)[bucket := Row(c + l.blockHeader, Size(bucket), numBlocks)]
    {
      hide MemoryOk, ListsOk, Vacant, Ring, Linked, Size, RowLinks, Row, RowWritten, Distinct, Chunked, Members, Apart;
      ghost var m := Mem();
      OwnedPositive(l, m);
      ListLengths(l, nextf, cells, carved, lists);
      var over := c + l.blockHeader;
      IsPositive(owned, c, l.blockHeader + l.MaxMalloc());
      CarveRow(over, Size(bucket), numBlocks);
      RowLinked(cells, over, Size(bucket), numBlocks);
      RowApart(over, Size(bucket), numBlocks);
      ChunkedOk(l, m, c, bucket, numBlocks, cells);
      ListsMore(l, nextf, m.cells, carved, lists, bucket, over, Row(over, Size(bucket), numBlocks), cells);
      PutChunk(c, bucket, numBlocks, m);
    }

    /** Adds a chunk that has been carved. */
    method PutChunk(c: nat, bucket: nat, ghost n: nat, ghost m: Memory)
      requires l.Valid() && m == Mem().(cells := m.cells) && bucket < |nextf| == |lists|
      modifies this`owned, this`blockList, this`nextf, this`carved, this`home, this`lists
      ensures Mem() == Chunked(l, m, c, bucket, n, cells) && blockList == [c] + old(blockList)
      ensures var row := Row(c + l.blockHeader, Size(bucket), n);
              && nextf == Put(old(nextf), bucket, c + l.blockHeader) && lists == old(lists)[bucket := row]
              && carved == old(carved) + (map x | x in row :: bucket)
    {
      hide Members, Row, Size, Chunked;
      MembersPlus(blockList, c);
      ghost var r := Chunked(l, m, c, bucket, n, cells);
      ChunkedParts(l, m, c, bucket, n, cells);
      blockList := [c] + blockList;
      owned := owned[c := l.blockHeader + l.MaxMalloc()];
      nextf := nextf[bucket := c + l.blockHeader];
      lists := lists[bucket := Row(c + l.blockHeader, Size(bucket), n)];
      carved, home := r.carved, r.home;
    }

    /** Links n blocks from first on. */
    method CarveRow(first: nat, size: nat, n: nat)
      requires n > 0 && size > 0 && first > 0
      modifies this`cells
      ensures RowLinks(cells, first, size, n) && RowWritten(old(cells), cells, Row(first, size, n))
    {
      var over, numBlocks := first, n - 1;
      ghost var k := 0;
      while numBlocks > 0
        invariant k + numBlocks == n - 1 && over == Place(first, size, k) && Chained(cells, first, size, k)
        invariant OnlyRow(old(cells), cells, Row(first, size, n))
      {
        PlaceInRow(first, size, k, n);
        PlaceNext(first, size, k);
        ChainedMore(cells, first, size, k);
        cells := cells[over := Next(over + size)];
        over := over + size;
        numBlocks, k := numBlocks - 1, k + 1;
      }
      PlaceInRow(first, size, k, n);
      ChainedEnd(cells, first, size, k);
      cells := cells[over := Next(NULL)];
      RowLinked(cells, first, size, n);
    }

    // -------------------------------------------------------------- allocating and freeing

    /** A pointer to the bytes of a block in use. */
    ghost predicate InUse(p: nat)
      reads this
    {
      p >= l.header && p - l.header in live
    }

    /** Allocates memory that overlaps none in use, or gives NULL. */
    method Alloc(numBytes: nat) returns (p: nat)
      requires Valid()
      modifies this
      ensures Valid() && data == old(data)
      ensures p == NULL ==> live == old(live)
      ensures p != NULL ==> InUse(p) && p - l.header !in old(live) && live == old(live)[p - l.header := numBytes]
      ensures Served(l, numBytes, old(nextf), grants, old(asked), asked, p)
      ensures p != NULL ==>
                if numBytes >= l.MaxMalloc() - l.Overhead() then p - l.header in bigAt
                else p - l.header in carved && Smallest(l, numBytes, carved[p - l.header])
    {
      hide MemoryOk, ListsOk, Ring, Members;
      OwnedPositive(l, Mem());
      var o: nat;
      if numBytes >= l.MaxMalloc() - l.Overhead() {
        o := AllocBig(numBytes);
        return if o == NULL then NULL else o + l.header;
      }
      var bucket := FindBucket(numBytes);
      p := AllocSmall(bucket, numBytes);
    }

    /** The smallest bucket whose blocks hold so many bytes. */
    method FindBucket(numBytes: nat) returns (bucket: nat)
      requires l.Valid() && numBytes < l.MaxMalloc() - l.Overhead()
      ensures Smallest(l, numBytes, bucket) && l.minBucket <= bucket < l.Buckets()
    {
      var amount := Size(l.minBucket);
      bucket := l.minBucket;
      while numBytes + l.Overhead() > amount
        invariant l.minBucket <= bucket < l.Buckets() && amount == Size(bucket)
        invariant bucket > l.minBucket ==> numBytes + l.Overhead() > Size(bucket - 1)
        decreases l.Buckets() - bucket
      {
        amount := 2 * amount;
        bucket := bucket + 1;
      }
    }

    /** Allocates a block of a bucket. */
    method AllocSmall(bucket: nat, numBytes: nat) returns (p: nat)
      requires Valid() && Smallest(l, numBytes, bucket) && bucket < l.Buckets()
      modifies this
      ensures Valid() && data == old(data) && FromBucket(l, bucket, old(nextf), grants, old(asked), asked, p)
      ensures p == NULL ==> live == old(live)
      ensures p != NULL ==> InUse(p) && p - l.header !in old(live) && live == old(live)[p - l.header := numBytes]
      ensures p != NULL ==> p - l.header in carved && carved[p - l.header] == bucket
    {
      hide MemoryOk, ListsOk, Ring, Members;
      OwnedPositive(l, Mem());
      ListLengths(l, nextf, cells, carved, lists);
      if nextf[bucket] == NULL {
        MoreCore(bucket);
        ListLengths(l, nextf, cells, carved, lists);
        if nextf[bucket] == NULL {
          return NULL;
        }
      }
      var o := TakeFirst(bucket, numBytes);
      p := o + l.header;
    }

    /** Takes the first free block of a bucket. */
    method TakeFirst(bucket: nat, numBytes: nat) returns (o: nat)
      requires Valid() && bucket < |nextf| && nextf[bucket] != NULL && numBytes + l.Overhead() <= Size(bucket)
      modifies this`nextf, this`cells, this`lists, this`live
      ensures Valid() && o == old(nextf[bucket]) && o !in old(live) && live == old(live)[o := numBytes]
      ensures o in carved && carved[o] == bucket && |old(lists)| == |lists| > bucket
      ensures old(lists[bucket]) == [o] + lists[bucket] && forall i :: 0 <= i < |lists| && i != bucket ==> lists[i] == old(lists[i])
    {
      hide MemoryOk, ListsOk, Ring, Members, Size, Put;
      o := nextf[bucket];
      ghost var m := Mem();
      FirstFree(l, nextf, cells, carved, lists, bucket);
      SmallTakenOk(l, m, o, numBytes);
      nextf := Put(nextf, bucket, cells[o].next);
      cells := cells[o := Magic(bucket)];
      assert lists[bucket] == [o] + lists[bucket][1..];
      lists := lists[bucket := lists[bucket][1..]];
      live := live[o := numBytes];
      assert Mem() == SmallTaken(m, o, numBytes);
    }

    /** Frees memory in use; NULL is let pass. */
    method Free(p: nat)
      requires Valid() && (p == NULL || InUse(p))
      modifies this
      ensures Valid() && data == old(data) && asked == old(asked)
      ensures live == if p == NULL then old(live) else old(live) - {p - l.header}
      ensures p != NULL && p - l.header in old(carved) ==>
        old(carved)[p - l.header] < |old(nextf)| && nextf == old(nextf)[old(carved)[p - l.header] := p - l.header]
      ensures p != NULL && p - l.header in old(bigAt) ==> nextf == old(nextf) && owned == old(owned) - {old(bigAt)[p - l.header]}
    {
      hide MemoryOk, ListsOk, Ring, Members, Size;
      if p == NULL {
        return;
      }
      var o: nat := p - l.header;
      UserCell(l, Mem(), o);
      var size := cells[o].bucket;
      if size == BIG {
        FreeBig(o);
      } else {
        FreeSmall(o, size);
      }
    }

    /** Puts a block back at the front of its bucket's list. */
    method FreeSmall(o: nat, size: nat)
      requires Valid() && o in live && o in carved && carved[o] == size
      modifies this`nextf, this`cells, this`lists, this`live
      ensures Valid() && live == old(live) - {o}
      ensures |old(lists)| == |lists| > size && lists == old(lists)[size := [o] + old(lists)[size]]
      ensures |old(nextf)| > size && nextf == old(nextf)[size := o]
    {
      hide MemoryOk, ListsOk, Ring, Members, Size, Put;
      ghost var m := Mem();
      ListLengths(l, nextf, cells, carved, lists);
      GiveFirst(l, m, nextf, lists, o);
      SmallGivenOk(l, m, o, nextf[size]);
      cells := cells[o := Next(nextf[size])];
      nextf := Put(nextf, size, o);
      lists := lists[size := [o] + lists[size]];
      live := live - {o};
      PutIs(old(nextf), size, o);
      assert Mem() == SmallGiven(m, o, old(nextf)[size]);
    }

    /** Unlinks a big block and gives it back to the system. */
    method FreeBig(o: nat)
      requires Valid() && o in bigAt
      modifies this`owned, this`bigNext, this`bigPrev, this`bigAt, this`ring, this`live
      ensures Valid() && live == old(live) - {o} && owned == old(owned) - {old(bigAt)[o]}
    {
      hide MemoryOk, ListsOk, Ring, Members, Size;
      ghost var m := Mem();
      BigGivenOk(l, m, o);
      var c: nat := o - l.blockHeader;
      OwnedPositive(l, m);
      ghost var k := Unlink(c);
      ValuesMinus(l, m, o);
      owned := owned - {c};
      bigAt := bigAt - {o};
      live := live - {o};
      assert Mem() == BigGiven(m, o);
    }

    /** Takes a big block out of the ring. */
    method Unlink(c: nat) returns (ghost k: nat)
      requires Ring(bigNext, bigPrev, ring) && c in Members(ring) && c != NULL
      modifies this`bigNext, this`bigPrev, this`ring
      ensures Ring(bigNext, bigPrev, ring) && Members(ring) == old(Members(ring)) - {c}
      ensures 0 < k < |old(ring)| && old(ring)[k] == c
    {
      k :| 0 <= k < |ring| && ring[k] == c;
      RingFirst(bigNext, bigPrev, ring);
      RingRemove(bigNext, bigPrev, ring, k);
      RingDistinct(bigNext, bigPrev, ring, k);
      bigNext, bigPrev := bigNext[bigPrev[c] := bigNext[c]], bigPrev[bigNext[c] := bigPrev[c]];
      ring := ring[..k] + ring[k + 1..];
    }

    // -------------------------------------------------------------- reallocating

    /** The system makes a piece another size, perhaps elsewhere, with what fits of its contents, or fails. */
    method SysRealloc(c: nat, n: nat) returns (d: nat)
      requires c in owned && forall e :: e in owned ==> e > 0
      modifies this`asked, this`data
      ensures asked == old(asked) + 1 && (d != NULL <==> grants(old(asked), n))
      ensures d == NULL ==> data == old(data)
      ensures d != NULL ==> Vacant(owned - {c}, d, n) && data == Copied(old(data), c, d, Min(owned[c], n))
    {
      asked := asked + 1;
      if !grants(asked - 1, n) {
        return NULL;
      }
      var rest := owned - {c};
      ghost var top := Above(rest, n);
      d :| d > 0 && d !in rest && forall e :: e in rest ==> Apart(d, n, e, rest[e]);
      data := Copied(data, c, d, Min(owned[c], n));
    }

    /** Changes the size of memory in use, which keeps what fits of its contents, or gives NULL and changes nothing. */
    method Realloc(p: nat, numBytes: nat) returns (q: nat)
      requires Valid() && (p == NULL || InUse(p))
      modifies this
      ensures Valid()
      ensures q == NULL ==> live == old(live) && data == old(data)
      ensures p == NULL ==> Served(l, numBytes, old(nextf), grants, old(asked), asked, q)
      ensures p != NULL && p - l.header in old(bigAt) ==>
        asked == old(asked) + 1 && (q != NULL <==> grants(old(asked), l.blockHeader + l.Overhead() + numBytes))
      ensures p != NULL && p - l.header !in old(bigAt) ==> p - l.header in old(carved)
      ensures p != NULL && p - l.header in old(carved) ==>
        Resized(l, numBytes, Size(old(carved)[p - l.header]), old(nextf), grants, old(asked), asked, p, q)
      ensures q != NULL && p == NULL ==>
        InUse(q) && q - l.header !in old(live) && live == old(live)[q - l.header := numBytes] && data == old(data)
      ensures q != NULL && p != NULL ==> InUse(q) && live == (old(live) - {p - l.header})[q - l.header := numBytes]
      ensures q != NULL && p != NULL ==> q == p || q - l.header !in old(live) - {p - l.header}
      ensures q != NULL && p != NULL ==> PrefixKept(old(data), data, p, q, Min(old(live)[p - l.header], numBytes))
      ensures q != NULL && p != NULL ==> OthersKept(l, old(live), p - l.header, old(data), data)
    {
      hide MemoryOk, ListsOk, Ring, Members, Size;
      if p == NULL {
        q := Alloc(numBytes);
        return;
      }
      var o: nat := p - l.header;
      UserCell(l, Mem(), o);
      OwnedPositive(l, Mem());
      var i := cells[o].bucket;
      if i == BIG {
        q := ReallocBig(o, numBytes);
        return;
      }
      UserRoom(l, Mem(), o);
      var maxSize := Size(i);
      var expensive := false;
      if numBytes + l.Overhead() > maxSize {
        expensive := true;
      } else if i > 0 && numBytes + l.Overhead() < maxSize / 2 {
        expensive := true;
      }
      if expensive {
        q := MoveSmall(p, maxSize, numBytes);
      } else {
        ghost var m := Mem();
        SmallTakenOk(l, m, o, numBytes);
        live := live[o := numBytes];
        assert Mem() == SmallTaken(m, o, numBytes);
        q := p;
      }
    }

    /** Reallocates a big block. */
    method ReallocBig(o: nat, numBytes: nat) returns (q: nat)
      requires Valid() && o in bigAt
      modifies this
      ensures Valid() && o in old(live)
      ensures asked == old(asked) + 1 && (q != NULL <==> grants(old(asked), l.blockHeader + l.Overhead() + numBytes))
      ensures q == NULL ==> live == old(live) && data == old(data)
      ensures q != NULL ==> InUse(q) && live == (old(live) - {o})[q - l.header := numBytes]
      ensures q != NULL ==> q - l.header !in old(live) - {o}
      ensures q != NULL ==> PrefixKept(old(data), data, o + l.header, q, Min(old(live)[o], numBytes))
      ensures q != NULL ==> OthersKept(l, old(live), o, old(data), data)
    {
      hide MemoryOk, ListsOk, Ring, Members, Size, BigTaken, BigGiven, OthersKept, PrefixKept, Vacant, Copied;
      ghost var m := Mem();
      OwnedPositive(l, m);
      BigGivenOk(l, m, o);
      var c: nat := o - l.blockHeader;
      var d := SysRealloc(c, l.blockHeader + l.Overhead() + numBytes);
      if d == NULL {
        return NULL;
      }
      MovedKept(l, m, o, d, numBytes, old(data), data);
      Rehouse(o, c, d, numBytes);
      q := d + l.blockHeader + l.header;
    }

    /** A big block's piece has become another, or another size. */
    method Rehouse(o: nat, c: nat, d: nat, numBytes: nat)
      requires Valid() && o in bigAt && bigAt[o] == c && Vacant(owned - {c}, d, l.blockHeader + l.Overhead() + numBytes)
      modifies this`owned, this`cells, this`bigNext, this`bigPrev, this`bigAt, this`ring, this`live
      ensures Valid() && live == (old(live) - {o})[d + l.blockHeader := numBytes] && d + l.blockHeader !in old(live) - {o}
    {
      hide MemoryOk, ListsOk, Ring, Members, Size, BigTaken, BigGiven, Vacant;
      BigMoved(l, Mem(), nextf, lists, o, d, numBytes);
      BigValues(l, Mem(), ring, o, d, numBytes);
      if d != c {
        Splice(c, d);
      }
      MoveBig(o, c, d, numBytes);
    }

    /** Puts a block that has moved in the place of the old one in the ring. */
    method Splice(c: nat, d: nat)
      requires Ring(bigNext, bigPrev, ring) && c in Members(ring) && c != NULL && d !in Members(ring)
      modifies this`bigNext, this`bigPrev, this`ring
      ensures Ring(bigNext, bigPrev, ring) && Members(ring) == old(Members(ring)) - {c} + {d}
    {
      ghost var k :| 0 <= k < |ring| && ring[k] == c;
      RingFirst(bigNext, bigPrev, ring);
      RingReplace(bigNext, bigPrev, ring, k, d);
      ReplacedMembers(bigNext, bigPrev, ring, k, d);
      var prev, next := bigPrev[c], bigNext[c];
      bigNext, bigPrev := bigNext[d := next][prev := d], bigPrev[next := d][d := prev];
      ring := ring[k := d];
    }

    /** The piece of a big block is now at d. */
    method MoveBig(o: nat, c: nat, d: nat, numBytes: nat)
      requires o in bigAt && bigAt[o] == c
      modifies this`owned, this`cells, this`bigAt, this`live
      ensures Mem() == BigTaken(l, BigGiven(old(Mem()), o), d, numBytes)
      ensures live == (old(live) - {o})[d + l.blockHeader := numBytes]
      ensures cells == old(cells)[d + l.blockHeader := Magic(BIG)] && bigAt == (old(bigAt) - {o})[d + l.blockHeader := d]
    {
      hide Members;
      owned := (owned - {c})[d := l.blockHeader + l.Overhead() + numBytes];
      cells := cells[d + l.blockHeader := Magic(BIG)];
      bigAt := (bigAt - {o})[d + l.blockHeader := d];
      live := (live - {o})[d + l.blockHeader := numBytes];
    }

    /** Moves what fits of a carved block's contents to a new block. */
    method MoveSmall(p: nat, maxSize: nat, numBytes: nat) returns (q: nat)
      requires Valid() && InUse(p) && p != NULL && p - l.header in carved && maxSize == Size(carved[p - l.header])
      modifies this
      ensures Valid()
      ensures Served(l, numBytes, old(nextf), grants, old(asked), asked, q)
      ensures q == NULL ==> live == old(live) && data == old(data)
      ensures q != NULL ==> InUse(q) && live == (old(live) - {p - l.header})[q - l.header := numBytes]
      ensures q != NULL ==> q - l.header !in old(live)
      ensures q != NULL ==> PrefixKept(old(data), data, p, q, Min(old(live)[p - l.header], numBytes))
      ensures q != NULL ==> OthersKept(l, old(live), p - l.header, old(data), data)
    {
      hide MemoryOk, ListsOk, Ring, Members, Size, OthersKept, PrefixKept, Copied;
      ghost var o: nat, was := p - l.header, live;
      UserRoom(l, Mem(), o);
      q := Alloc(numBytes);
      if q == NULL {
        return;
      }
      var n := if maxSize - l.Overhead() < numBytes then maxSize - l.Overhead() else numBytes;
      CopiedKept(l, Mem(), was, o, p, q, numBytes, n, data);
      data := Copied(data, p, q, n);
      Free(p);
    }
  }

  /** A block in use has room for what was asked, behind its header. */
  lemma UserRoom(l: Layout, m: Memory, o: nat)
    requires MemoryOk(l, m) && o in m.live && o in m.carved
    ensures m.live[o] + l.Overhead() <= Size(m.carved[o]) && m.carved[o] > 0
  {
    assert CarvedIn(l, m, o);
  }

  /** The ring has pieces that are held. */
  lemma RingHeld(l: Layout, m: Memory, ring: seq<nat>)
    requires MemoryOk(l, m) && Members(ring) == m.bigAt.Values + {NULL}
    ensures forall d :: d in Members(ring) ==> d == NULL || d in m.owned
  {
    forall o | o in m.bigAt ensures m.bigAt[o] in m.owned {
      assert BigIn(l, m, o);
    }
  }

  lemma ReplacedMembers(next: map<nat, nat>, prev: map<nat, nat>, ring: seq<nat>, k: nat, d: nat)
    requires Ring(next, prev, ring) && k < |ring|
    ensures Members(ring[k := d]) == Members(ring) - {ring[k]} + {d}
  {
    var other := ring[k := d];
    forall x | x in other ensures x == d || (x in ring && x != ring[k]) {
      var i :| 0 <= i < |other| && other[i] == x;
      if i != k {
        DifferentPlaces(ring, i, k);
      }
    }
    forall x | x in ring && x != ring[k] ensures x in other {
      var i :| 0 <= i < |ring| && ring[i] == x;
      assert other[i] == x;
    }
    assert other[k] == d;
  }

  /** All is in order once a big block is at d. */
  lemma BigMoved(l: Layout, m: Memory, nextf: seq<nat>, lists: seq<seq<nat>>, o: nat, d: nat, numBytes: nat)
    requires MemoryOk(l, m) && o in m.bigAt && ListsOk(l, nextf, m.cells, m.carved, lists)
    requires Vacant(m.owned - {m.bigAt[o]}, d, l.blockHeader + l.Overhead() + numBytes)
    ensures MemoryOk(l, BigTaken(l, BigGiven(m, o), d, numBytes)) && d + l.blockHeader !in m.live - {o}
    ensures ListsOk(l, nextf, m.cells[d + l.blockHeader := Magic(BIG)], m.carved, lists)
  {
    hide MemoryOk, ListsOk, Vacant, BigTaken;
    BigGivenOk(l, m, o);
    BigTakenOk(l, BigGiven(m, o), d, numBytes);
    ListsElsewhere(l, nextf, m.cells, m.carved, lists, d + l.blockHeader, Magic(BIG));
  }

  /** The pieces of the big blocks once one of them is at d. */
  lemma BigValues(l: Layout, m: Memory, ring: seq<nat>, o: nat, d: nat, numBytes: nat)
    requires MemoryOk(l, m) && o in m.bigAt && Members(ring) == m.bigAt.Values + {NULL}
    requires Vacant(m.owned - {m.bigAt[o]}, d, l.blockHeader + l.Overhead() + numBytes)
    ensures var c := m.bigAt[o];
            && (m.bigAt - {o})[d + l.blockHeader := d].Values + {NULL} == Members(ring) - {c} + {d}
            && c in Members(ring) && c != NULL && (d != c ==> d !in Members(ring))
  {
    hide Members, MemoryOk, BigIn;
    var c, less := m.bigAt[o], m.bigAt - {o};
    OwnedPositive(l, m);
    BigGivenOk(l, m, o);
    RingHeld(l, m, ring);
    ValuesMinus(l, m, o);
    FreshPlace(l, BigGiven(m, o), d);
    ValuesPlus(less, d + l.blockHeader, d);
    assert c in m.bigAt.Values;
    Exchanged(m.bigAt.Values, c, d);
  }

  lemma Exchanged(V: set<nat>, c: nat, d: nat)
    requires c in V && c != NULL
    ensures V - {c} + {d} + {NULL} == V + {NULL} - {c} + {d}
  {
  }

  lemma FreshPlace(l: Layout, m: Memory, d: nat)
    requires MemoryOk(l, m) && d !in m.owned
    ensures d + l.blockHeader !in m.bigAt
  {
    NotBig(l, m, d);
  }

  /** What a big block's move does to the bytes of users. */
  lemma MovedKept(l: Layout, m: Memory, o: nat, d: nat, numBytes: nat, was: Bytes, data: Bytes)
    requires MemoryOk(l, m) && o in m.bigAt
    requires o == m.bigAt[o] + l.blockHeader && m.bigAt[o] in m.owned && o in m.live
    requires var n := l.blockHeader + l.Overhead() + numBytes;
             Vacant(m.owned - {m.bigAt[o]}, d, n) && data == Copied(was, m.bigAt[o], d, Min(m.owned[m.bigAt[o]], n))
    ensures PrefixKept(was, data, o + l.header, d + l.blockHeader + l.header, Min(m.live[o], numBytes))
    ensures OthersKept(l, m.live, o, was, data)
  {
    hide Copied, Size, MemoryOk, Vacant;
    var n := l.blockHeader + l.Overhead() + numBytes;
    BigGivenOk(l, m, o);
    var r := BigGiven(m, o);
    BigLength(l, m, o);
    forall u | u in m.live && u != o ensures UserKept(l, m.live, u, was, data) {
      VacantOfUsers(l, r, d, n, u);
    }
  }

  lemma BigLength(l: Layout, m: Memory, o: nat)
    requires MemoryOk(l, m) && o in m.bigAt
    ensures m.bigAt[o] in m.owned && o in m.live && m.owned[m.bigAt[o]] == l.blockHeader + l.Overhead() + m.live[o]
  {
    PieceOf(l, m, o);
  }

  /** What copying a block's contents does to the bytes of users. */
  lemma CopiedKept(l: Layout, m: Memory, before: map<nat, nat>, o: nat, p: nat, q: nat, numBytes: nat, n: nat, was: Bytes)
    requires MemoryOk(l, m) && q >= l.header && q - l.header !in before && m.live == before[q - l.header := numBytes]
    requires o in before && p == o + l.header && n <= numBytes && Min(before[o], numBytes) <= n
    ensures PrefixKept(was, Copied(was, p, q, n), p, q, Min(before[o], numBytes))
    ensures OthersKept(l, before, o, was, Copied(was, p, q, n))
  {
    hide Copied, MemoryOk;
    forall u | u in before && u != o ensures UserKept(l, before, u, was, Copied(was, p, q, n)) {
      UsersApart(l, m, u, q - l.header);
    }
  }

  /** The bytes of the users other than o are what they were. */
  ghost predicate OthersKept(l: Layout, live: map<nat, nat>, o: nat, was: Bytes, data: Bytes) {
    forall u :: u in live && u != o ==> UserKept(l, live, u, was, data)
  }

  ghost predicate UserKept(l: Layout, live: map<nat, nat>, u: nat, was: Bytes, data: Bytes)
    requires u in live
  {
    forall a: nat :: u + l.header <= a < u + l.header + live[u] ==> At(data, a) == At(was, a)
  }

  /** The first n bytes at q are those that were at p. */
  ghost predicate PrefixKept(was: Bytes, data: Bytes, p: nat, q: nat, n: nat) {
    forall a: nat :: q <= a < q + n ==> At(data, a) == At(was, p + (a - q))
  }

  function Min(x: nat, y: nat): (m: nat)
    ensures m <= x && m <= y && (m == x || m == y)
  {
    if x < y then x else y
  }

  lemma RingDistinct(next: map<nat, nat>, prev: map<nat, nat>, ring: seq<nat>, k: nat)
    requires Ring(next, prev, ring) && k < |ring|
    ensures Members(ring[..k] + ring[k + 1..]) == Members(ring) - {ring[k]}
  {
    RemovedDistinct(ring, k);
  }

  /** The header of a block in use says which bucket it is from. */
  lemma UserCell(l: Layout, m: Memory, o: nat)
    requires MemoryOk(l, m) && o in m.live
    ensures o in m.cells && m.cells[o].Magic?
    ensures m.cells[o].bucket == BIG <==> o in m.bigAt
    ensures m.cells[o].bucket != BIG <==> o in m.carved
    ensures m.cells[o].bucket != BIG ==> m.carved[o] == m.cells[o].bucket
  {
    if o in m.bigAt {
      PieceOf(l, m, o);
      if o in m.carved {
        NoBigs(l, m, o);
      }
    } else {
      CarvedCells(l, m);
      assert CarvedIn(l, m, o);
    }
  }

  /** The first free block of a bucket, and the lists without it. */
  lemma FirstFree(l: Layout, nextf: seq<nat>, cells: map<nat, Cell>, carved: map<nat, nat>, lists: seq<seq<nat>>, bucket: nat)
    requires ListsOk(l, nextf, cells, carved, lists) && bucket < |nextf| && nextf[bucket] != NULL
    ensures |lists| == |nextf| && lists[bucket] != [] && lists[bucket][0] == nextf[bucket]
    ensures var o := nextf[bucket];
            && o in carved && carved[o] == bucket && o in cells && cells[o].Next?
            && ListsOk(l, Put(nextf, bucket, cells[o].next), cells[o := Magic(bucket)], carved, lists[bucket := lists[bucket][1..]])
  {
    hide Linked, Distinct;
    var o := nextf[bucket];
    LinkedHead(cells, nextf[bucket], lists[bucket]);
    assert o in lists[bucket];
    TakenLinked(nextf, cells, carved, lists, bucket, o);
  }

  lemma TakenLinked(nextf: seq<nat>, cells: map<nat, Cell>, carved: map<nat, nat>, lists: seq<seq<nat>>, bucket: nat, o: nat)
    requires AllLinked(nextf, cells, lists) && AllListed(cells, carved, lists) && bucket < |nextf| && o == nextf[bucket] != NULL
    requires lists[bucket] != [] && o in cells && cells[o].Next? && o in carved && carved[o] == bucket
    ensures AllLinked(Put(nextf, bucket, cells[o].next), cells[o := Magic(bucket)], lists[bucket := lists[bucket][1..]])
    ensures AllListed(cells[o := Magic(bucket)], carved, lists[bucket := lists[bucket][1..]])
  {
    hide Linked, Distinct;
    LinkedHead(cells, nextf[bucket], lists[bucket]);
    var more := cells[o := Magic(bucket)];
    LinkedKept(cells, more, cells[o].next, lists[bucket][1..]);
    forall i | 0 <= i < |lists| && i != bucket ensures Linked(more, nextf[i], lists[i]) && o !in lists[i] {
      LinkedKept(cells, more, nextf[i], lists[i]);
    }
  }

  /** The lists with a block given back. */
  lemma GiveFirst(l: Layout, m: Memory, nextf: seq<nat>, lists: seq<seq<nat>>, o: nat)
    requires MemoryOk(l, m) && ListsOk(l, nextf, m.cells, m.carved, lists) && o in m.live && o in m.carved
    ensures m.carved[o] < |nextf| == |lists|
    ensures var b := m.carved[o];
            ListsOk(l, Put(nextf, b, o), m.cells[o := Next(nextf[b])], m.carved, lists[b := [o] + lists[b]])
  {
    hide Linked, Distinct, CarvedOk, BigsOk, SpaceOk;
    CarvedPositive(l, m, o);
    NoBigs(l, m, o);
    GivenLinked(nextf, m.cells, m.carved, lists, m.carved[o], o);
  }

  lemma CarvedPositive(l: Layout, m: Memory, o: nat)
    requires CarvedOk(l, m) && o in m.carved
    ensures o > 0
  {
    assert CarvedIn(l, m, o);
  }

  lemma GivenLinked(nextf: seq<nat>, cells: map<nat, Cell>, carved: map<nat, nat>, lists: seq<seq<nat>>, b: nat, o: nat)
    requires AllLinked(nextf, cells, lists) && AllListed(cells, carved, lists) && b < |nextf|
    requires o in carved && carved[o] == b && o in cells && cells[o].Magic? && o > 0
    ensures AllLinked(Put(nextf, b, o), cells[o := Next(nextf[b])], lists[b := [o] + lists[b]])
    ensures AllListed(cells[o := Next(nextf[b])], carved, lists[b := [o] + lists[b]])
  {
    hide Linked;
    var more := cells[o := Next(nextf[b])];
    LinkedPush(cells, nextf[b], lists[b], o);
    forall i | 0 <= i < |lists| && i != b ensures Linked(more, nextf[i], lists[i]) && o !in lists[i] {
      LinkedKept(cells, more, nextf[i], lists[i]);
    }
  }

  /** Without the big block at o its piece is no big block's. */
  lemma ValuesMinus(l: Layout, m: Memory, o: nat)
    requires MemoryOk(l, m) && o in m.bigAt
    ensures (m.bigAt - {o}).Values == m.bigAt.Values - {m.bigAt[o]}
  {
    var less := m.bigAt - {o};
    forall x | x in m.bigAt.Values && x != m.bigAt[o] ensures x in less.Values {
      var k :| k in m.bigAt && m.bigAt[k] == x;
      assert less[k] == x;
    }
    forall k | k in less ensures less[k] != m.bigAt[o] {
      assert BigIn(l, m, k) && BigIn(l, m, o);
    }
  }

  ghost predicate OnlyRow(was: map<nat, Cell>, cells: map<nat, Cell>, row: seq<nat>) {
    forall x :: x in was && x !in row ==> x in cells && cells[x] == was[x]
  }

  lemma MembersPlus(list: seq<nat>, c: nat)
    ensures Members([c] + list) == Members(list) + {c}
  {
    assert forall x :: x in [c] + list <==> x == c || x in list;
  }

  /** An empty list is filled with a row of new blocks. */
  lemma ListsMore(l: Layout, nextf: seq<nat>, cells: map<nat, Cell>, carved: map<nat, nat>, lists: seq<seq<nat>>, bucket: nat,
                  head: nat, row: seq<nat>, more: map<nat, Cell>)
    requires ListsOk(l, nextf, cells, carved, lists) && bucket < |lists| && nextf[bucket] == NULL
    requires RowWritten(cells, more, row) && Linked(more, head, row) && Distinct(row)
    requires forall x :: x in row ==> x !in carved
    ensures ListsOk(l, Put(nextf, bucket, head), more, carved + (map x | x in row :: bucket), lists[bucket := row])
  {
    hide AllLinked, AllListed, Linked, Distinct;
    MoreLinked(nextf, cells, lists, carved, bucket, head, row, more);
    GrownLists(cells, more, carved, lists, bucket, row);
  }

  lemma MoreLinked(nextf: seq<nat>, cells: map<nat, Cell>, lists: seq<seq<nat>>, carved: map<nat, nat>, bucket: nat,
                   head: nat, row: seq<nat>, more: map<nat, Cell>)
    requires AllLinked(nextf, cells, lists) && AllListed(cells, carved, lists) && bucket < |lists| && nextf[bucket] == NULL
    requires RowWritten(cells, more, row) && Linked(more, head, row) && Distinct(row)
    requires forall x :: x in row ==> x !in carved
    ensures AllLinked(Put(nextf, bucket, head), more, lists[bucket := row]) && lists[bucket] == []
  {
    hide Linked, Distinct;
    NoneListed(cells, nextf[bucket], lists[bucket]);
    forall i | 0 <= i < |lists| && i != bucket ensures Linked(more, nextf[i], lists[i]) {
      LinkedKept(cells, more, nextf[i], lists[i]);
    }
  }

  lemma GrownLists(cells: map<nat, Cell>, more: map<nat, Cell>, carved: map<nat, nat>, lists: seq<seq<nat>>, bucket: nat, row: seq<nat>)
    requires bucket < |lists| && lists[bucket] == [] && RowWritten(cells, more, row) && forall x :: x in row ==> x !in carved
    requires AllListed(cells, carved, lists)
    ensures AllListed(more, carved + (map x | x in row :: bucket), lists[bucket := row])
  {
    var grown, all := carved + (map x | x in row :: bucket), lists[bucket := row];
    forall a | a in grown ensures a in more && grown[a] < |all| && (a in all[grown[a]] <==> more[a].Next?) {
      if a !in row {
        assert a in carved && grown[a] == carved[a];
      }
    }
  }

  lemma ListLengths(l: Layout, nextf: seq<nat>, cells: map<nat, Cell>, carved: map<nat, nat>, lists: seq<seq<nat>>)
    requires ListsOk(l, nextf, cells, carved, lists)
    ensures l.Valid() && |nextf| == |lists| == l.Buckets()
  {
  }

  lemma NoneListed(cells: map<nat, Cell>, head: nat, list: seq<nat>)
    requires Linked(cells, head, list) && Distinct(list) && head == NULL
    ensures list == []
  {
    LinkedHead(cells, head, list);
  }

  lemma ChunkedParts(l: Layout, m: Memory, c: nat, bucket: nat, n: nat, cells: map<nat, Cell>)
    requires l.Valid()
    ensures var r, row := Chunked(l, m, c, bucket, n, cells), Row(c + l.blockHeader, Size(bucket), n);
            && r.cells == cells && r.owned == m.owned[c := l.blockHeader + l.MaxMalloc()] && r.chunks == m.chunks + {c}
            && r.carved == m.carved + (map x | x in row :: bucket)
            && r.bigAt == m.bigAt && r.live == m.live
  {
  }

  lemma IsPositive(owned: map<nat, nat>, c: nat, n: nat)
    requires Vacant(owned, c, n)
    ensures c > 0
  {
  }

  lemma OwnedPositive(l: Layout, m: Memory)
    requires MemoryOk(l, m)
    ensures l.Valid() && forall c :: c in m.owned ==> c > 0
  {
  }

  lemma RingFirst(next: map<nat, nat>, prev: map<nat, nat>, ring: seq<nat>)
    requires Ring(next, prev, ring)
    ensures |ring| >= 1 && ring[0] == NULL
  {
  }

  /** The ring has the pieces of the big blocks, all of them held. */
  lemma NotInRing(l: Layout, m: Memory, ring: seq<nat>, c: nat, n: nat)
    requires MemoryOk(l, m) && Members(ring) == m.bigAt.Values + {NULL} && Vacant(m.owned, c, n)
    ensures c > 0 && c !in ring && c !in m.owned && c + l.blockHeader !in m.bigAt
  {
    NotBig(l, m, c);
    assert c in ring ==> c in Members(ring);
    forall o | o in m.bigAt ensures m.bigAt[o] in m.owned {
      assert BigIn(l, m, o);
    }
  }

  /** Lists do not see what happens to cells of blocks that are not carved. */
  lemma ListsElsewhere(l: Layout, nextf: seq<nat>, cells: map<nat, Cell>, carved: map<nat, nat>, lists: seq<seq<nat>>, o: nat, cell: Cell)
    requires ListsOk(l, nextf, cells, carved, lists) && o !in carved
    ensures ListsOk(l, nextf, cells[o := cell], carved, lists)
  {
    var more := cells[o := cell];
    forall i | 0 <= i < |lists| ensures Linked(more, nextf[i], lists[i]) && Distinct(lists[i]) {
      LinkedKept(cells, more, nextf[i], lists[i]);
    }
  }

  lemma RingPlus(ring: seq<nat>, c: nat)
    requires |ring| >= 1 && ring[0] == NULL
    ensures Members([NULL, c] + ring[1..]) == Members(ring) + {c}
  {
    var more := [NULL, c] + ring[1..];
    assert ring == [NULL] + ring[1..];
    assert forall x :: x in more <==> x == NULL || x == c || x in ring[1..];
  }

  lemma ValuesPlus(bigAt: map<nat, nat>, o: nat, c: nat)
    requires o !in bigAt
    ensures bigAt[o := c].Values == bigAt.Values + {c}
  {
    var more := bigAt[o := c];
    assert more[o] == c;
    forall x | x in bigAt.Values ensures x in more.Values {
      var k :| k in bigAt && bigAt[k] == x;
      assert more[k] == x;
    }
  }

  /** Above all that is held there is room. */
  lemma {:induction false} Above(owned: map<nat, nat>, n: nat) returns (top: nat)
    ensures Vacant(owned, top, n) && forall d :: d in owned ==> d + owned[d] <= top && d < top
    decreases |owned|
  {
    if owned == map[] {
      top := 1;
    } else {
      var d :| d in owned;
      var rest := owned - {d};
      var t := Above(rest, n);
      top := if t > d + owned[d] then t else d + owned[d] + 1;
      forall e | e in owned ensures e + owned[e] <= top && e < top {
        assert e == d || (e in rest && rest[e] == owned[e]);
      }
    }
  }
}
