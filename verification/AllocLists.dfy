/** Address ranges, sizes, and the linked lists of the bucket allocator. */
module AllocLists {

  /** The size of a block in a bucket: the power of two with exponent bucket + 3. */
  function Size(bucket: nat): (n: nat)
    ensures n >= 8
  {
    if bucket == 0 then 8 else 2 * Size(bucket - 1)
  }

  lemma {:induction false} SizeRises(i: nat, j: nat)
    requires i <= j
    ensures Size(i) <= Size(j)
  {
    if i < j {
      SizeRises(i, j - 1);
    }
  }

  lemma {:induction false} SizeDivides(i: nat, j: nat)
    requires i <= j
    ensures Size(j) % Size(i) == 0 && Size(j) / Size(i) >= 1
  {
    if i == j {
      OnceEach(Size(i));
    } else {
      SizeDivides(i, j - 1);
      TwiceEach(Size(j - 1), Size(i));
    }
  }

  /** A larger block divides evenly into smaller ones. */
  lemma BlocksFit(i: nat, j: nat)
    requires i <= j
    ensures var n := Size(j) / Size(i); n >= 1 && n * Size(i) == Size(j)
  {
    SizeDivides(i, j);
  }

  lemma OnceEach(n: nat)
    requires n > 0
    ensures n % n == 0 && n / n == 1
  {
  }

  lemma TwiceEach(m: nat, n: nat)
    requires n > 0 && m % n == 0 && m / n >= 1
    ensures 2 * m % n == 0 && 2 * m / n >= 1
  {
    var q := m / n;
    assert m == q * n;
    assert 2 * m == (2 * q) * n;
    Multiple(2 * q, n);
  }

  lemma Multiple(q: nat, n: nat)
    requires n > 0
    ensures q * n % n == 0 && q * n / n == q
  {
    if q > 0 {
      Multiple(q - 1, n);
      assert q * n == (q - 1) * n + n;
      AddOne((q - 1) * n, n);
    }
  }

  lemma AddOne(m: nat, n: nat)
    requires n > 0
    ensures (m + n) % n == m % n && (m + n) / n == m / n + 1
  {
    var q, r := m / n, m % n;
    assert m + n == (q + 1) * n + r;
    Unique(m + n, n, q + 1, r);
  }

  lemma Unique(x: nat, n: nat, q: nat, r: nat)
    requires n > 0 && r < n && x == q * n + r
    ensures x / n == q && x % n == r
  {
    var p, s := x / n, x % n;
    assert x == p * n + s;
    assert (p - q) * n == r - s;
    FarMultiple(p - q, n);
  }

  lemma FarMultiple(d: int, n: int)
    requires n > 0
    ensures d >= 1 ==> d * n >= n
    ensures d <= -1 ==> d * n <= -n
  {
    assert d >= 1 ==> (d - 1) * n >= 0;
    assert d <= -1 ==> (-1 - d) * n >= 0;
  }

  /** The n bytes from a and the m bytes from b have no byte in common. */
  predicate Apart(a: nat, n: nat, b: nat, m: nat) {
    a + n <= b || b + m <= a
  }

  // ---------------------------------------------------------------- free lists

  /** What the first bytes of a block hold: a link when it is free, else the magic number and the bucket. */
  datatype Cell = Next(next: nat) | Magic(bucket: nat)

  const NULL: nat := 0

  /** The links lead from head through the blocks listed to the end. */
  ghost predicate Linked(cells: map<nat, Cell>, head: nat, list: seq<nat>)
    decreases |list|
  {
    if list == [] then head == NULL
    else head == list[0] != NULL && head in cells && cells[head].Next? && Linked(cells, cells[head].next, list[1..])
  }

  ghost predicate Distinct(list: seq<nat>) {
    forall i, j :: 0 <= i < j < |list| ==> list[i] != list[j]
  }

  lemma {:induction false} LinkedKept(cells: map<nat, Cell>, more: map<nat, Cell>, head: nat, list: seq<nat>)
    requires Linked(cells, head, list)
    requires forall a :: a in list && a in cells ==> a in more && more[a] == cells[a]
    ensures Linked(more, head, list)
    decreases |list|
  {
    if list != [] {
      LinkedKept(cells, more, cells[head].next, list[1..]);
    }
  }

  /** Putting a block in front of a list. */
  lemma LinkedPush(cells: map<nat, Cell>, head: nat, list: seq<nat>, a: nat)
    requires Linked(cells, head, list) && a !in list && a != NULL
    ensures Linked(cells[a := Next(head)], a, [a] + list)
  {
    LinkedKept(cells, cells[a := Next(head)], head, list);
    assert ([a] + list)[1..] == list;
  }

  lemma LinkedHead(cells: map<nat, Cell>, head: nat, list: seq<nat>)
    requires Linked(cells, head, list) && Distinct(list)
    ensures head == NULL <==> list == []
    ensures list != [] ==> head == list[0] && head in cells && cells[head].Next? && Linked(cells, cells[head].next, list[1..])
    ensures list != [] ==> Distinct(list[1..]) && head !in list[1..] && (forall a :: a in list <==> a == head || a in list[1..])
  {
    if list != [] {
      assert list == [list[0]] + list[1..];
    }
  }

  // ---------------------------------------------------------------- the ring of big blocks

  /** The links lead from a to b and back. */
  predicate Link(next: map<nat, nat>, prev: map<nat, nat>, a: nat, b: nat) {
    a in next && next[a] == b && b in prev && prev[b] == a
  }

  /** Links forward and back around the ring that starts and ends at the list head, which is number NULL. */
  ghost predicate Ring(next: map<nat, nat>, prev: map<nat, nat>, ring: seq<nat>) {
    && |ring| >= 1 && ring[0] == NULL && Distinct(ring)
    && forall i :: 0 <= i < |ring| ==> Link(next, prev, ring[i], ring[After(ring, i)])
  }

  function After(ring: seq<nat>, i: int): (j: nat)
    requires 0 <= i < |ring|
    ensures j < |ring|
  {
    if i + 1 < |ring| then i + 1 else 0
  }

  function Before(ring: seq<nat>, i: int): (j: nat)
    requires 0 <= i < |ring|
    ensures j < |ring| && After(ring, j) == i
  {
    if i == 0 then |ring| - 1 else i - 1
  }

  lemma RingAt(next: map<nat, nat>, prev: map<nat, nat>, ring: seq<nat>, k: nat)
    requires Ring(next, prev, ring) && k < |ring|
    ensures ring[k] in next && ring[k] in prev
    ensures next[ring[k]] == ring[After(ring, k)] && prev[ring[k]] == ring[Before(ring, k)]
  {
    assert Link(next, prev, ring[k], ring[After(ring, k)]);
    assert Link(next, prev, ring[Before(ring, k)], ring[k]);
  }

  /** A link between other places is not disturbed by a new link. */
  lemma LinkKept(next: map<nat, nat>, prev: map<nat, nat>, a: nat, b: nat, x: nat, y: nat)
    requires Link(next, prev, a, b) && a != x && b != y
    ensures Link(next[x := y], prev[y := x], a, b)
  {
  }

  lemma DifferentPlaces(ring: seq<nat>, i: nat, j: nat)
    requires Distinct(ring) && i < |ring| && j < |ring| && i != j
    ensures ring[i] != ring[j]
  {
  }

  /** Linking a block in after the list head. */
  lemma RingInsert(next: map<nat, nat>, prev: map<nat, nat>, ring: seq<nat>, c: nat)
    requires Ring(next, prev, ring) && c !in ring
    ensures NULL in next
    ensures var n := next[NULL];
            Ring(next[c := n][NULL := c], prev[n := c][c := NULL], [NULL, c] + ring[1..])
  {
    RingAt(next, prev, ring, 0);
    var n := next[NULL];
    var more := [NULL, c] + ring[1..];
    var next1, prev1 := next[c := n], prev[n := c];
    var next2, prev2 := next1[NULL := c], prev1[c := NULL];
    assert forall i :: 2 <= i < |more| ==> more[i] == ring[i - 1];
    forall i: nat | i < |more| ensures Link(next2, prev2, more[i], more[After(more, i)]) {
      if i == 1 {
        assert more[After(more, 1)] == n;
      } else if i >= 2 {
        var j: nat := i - 1;
        assert more[After(more, i)] == ring[After(ring, j)];
        assert Link(next, prev, ring[j], ring[After(ring, j)]);
        DifferentPlaces(ring, j, 0);
        DifferentPlaces(ring, After(ring, j), After(ring, 0));
        LinkKept(next, prev, ring[j], ring[After(ring, j)], c, n);
        LinkKept(next1, prev1, ring[j], ring[After(ring, j)], NULL, c);
      }
    }
    InsertedDistinct(ring, c);
  }

  lemma InsertedDistinct(ring: seq<nat>, c: nat)
    requires Distinct(ring) && |ring| >= 1 && ring[0] == NULL && c !in ring
    ensures Distinct([NULL, c] + ring[1..])
  {
  }

  /** Linking a block out. */
  lemma RingRemove(next: map<nat, nat>, prev: map<nat, nat>, ring: seq<nat>, k: nat)
    requires Ring(next, prev, ring) && 0 < k < |ring|
    ensures ring[k] in next && ring[k] in prev
    ensures var c := ring[k];
            Ring(next[prev[c] := next[c]], prev[next[c] := prev[c]], ring[..k] + ring[k + 1..])
  {
    RingAt(next, prev, ring, k);
    var p, n := ring[k - 1], ring[After(ring, k)];
    var less := ring[..k] + ring[k + 1..];
    forall i: nat | i < |less| ensures Link(next[p := n], prev[n := p], less[i], less[After(less, i)]) {
      var j: nat := if i < k then i else i + 1;
      assert less[i] == ring[j];
      if i == k - 1 {
        assert less[After(less, i)] == n;
      } else {
        assert less[After(less, i)] == ring[After(ring, j)];
        assert Link(next, prev, ring[j], ring[After(ring, j)]);
        DifferentPlaces(ring, j, k - 1);
        DifferentPlaces(ring, After(ring, j), After(ring, k));
      }
    }
    RemovedDistinct(ring, k);
  }

  lemma RemovedDistinct(ring: seq<nat>, k: nat)
    requires Distinct(ring) && k < |ring|
    ensures Distinct(ring[..k] + ring[k + 1..])
    ensures forall x :: x in ring[..k] + ring[k + 1..] <==> x in ring && x != ring[k]
  {
    var less := ring[..k] + ring[k + 1..];
    forall i, j | 0 <= i < j < |less| ensures less[i] != less[j] {
      var x, y := if i < k then i else i + 1, if j < k then j else j + 1;
      assert ring[x] != ring[y];
    }
    forall x | x in ring && x != ring[k] ensures x in less {
      var j :| 0 <= j < |ring| && ring[j] == x;
      assert less[if j < k then j else j - 1] == x;
    }
    forall x | x in less ensures x in ring && x != ring[k] {
      var i :| 0 <= i < |less| && less[i] == x;
      DifferentPlaces(ring, if i < k then i else i + 1, k);
    }
  }

  /** Putting another block in the place of one in the ring. */
  lemma RingReplace(next: map<nat, nat>, prev: map<nat, nat>, ring: seq<nat>, k: nat, d: nat)
    requires Ring(next, prev, ring) && 0 < k < |ring| && d !in ring
    ensures ring[k] in next && ring[k] in prev
    ensures var p, n := prev[ring[k]], next[ring[k]];
            Ring(next[d := n][p := d], prev[n := d][d := p], ring[k := d])
  {
    RingAt(next, prev, ring, k);
    var p, n := ring[k - 1], ring[After(ring, k)];
    var next1, prev1 := next[d := n], prev[n := d];
    var other := ring[k := d];
    forall i: nat | i < |other| ensures Link(next1[p := d], prev1[d := p], other[i], other[After(other, i)]) {
      if i != k && i != k - 1 {
        assert Link(next, prev, ring[i], ring[After(ring, i)]);
        DifferentPlaces(ring, i, k - 1);
        DifferentPlaces(ring, After(ring, i), After(ring, k));
        LinkKept(next, prev, ring[i], ring[After(ring, i)], d, n);
        LinkKept(next1, prev1, ring[i], ring[After(ring, i)], p, d);
      } else if i == k - 1 {
        assert other[After(other, i)] == d;
      } else {
        assert other[After(other, i)] == n;
        assert d != p;
      }
    }
  }

  // ---------------------------------------------------------------- carving

  /** n blocks of the given size, one after the other from a on. */
  function Row(a: nat, size: nat, n: nat): (row: seq<nat>)
    ensures |row| == n
    decreases n
  {
    if n == 0 then [] else [a] + Row(a + size, size, n - 1)
  }

  lemma {:induction false} RowBounds(a: nat, size: nat, n: nat)
    ensures forall x :: x in Row(a, size, n) ==> a <= x && x + size <= a + n * size
    decreases n
  {
    if n > 0 {
      RowBounds(a + size, size, n - 1);
      assert a + size + (n - 1) * size == a + n * size;
      forall x | x in Row(a, size, n) ensures a <= x && x + size <= a + n * size {
        assert x == a || x in Row(a + size, size, n - 1);
        FarMultipleOf(n, size);
      }
    }
  }

  lemma FarMultipleOf(n: nat, size: nat)
    requires n > 0
    ensures size <= n * size
  {
    assert (n - 1) * size >= 0;
    assert n * size == (n - 1) * size + size;
  }

  lemma {:induction false} RowApart(a: nat, size: nat, n: nat)
    requires size > 0
    ensures Distinct(Row(a, size, n))
    ensures forall x, y :: x in Row(a, size, n) && y in Row(a, size, n) && x != y ==> Apart(x, size, y, size)
    decreases n
  {
    if n > 0 {
      RowApart(a + size, size, n - 1);
      RowBounds(a + size, size, n - 1);
      var row, rest := Row(a, size, n), Row(a + size, size, n - 1);
      forall x, y | x in row && y in row && x != y ensures Apart(x, size, y, size) {
        assert (x == a || x in rest) && (y == a || y in rest);
      }
      forall i, j | 0 <= i < j < |row| ensures row[i] != row[j] {
        assert row[j] == rest[j - 1] && rest[j - 1] in rest;
        if i > 0 {
          assert row[i] == rest[i - 1];
        }
      }
    }
  }

  /** Each block of the row leads to the next. */
  ghost predicate RowLinks(cells: map<nat, Cell>, a: nat, size: nat, n: nat)
    decreases n
  {
    n > 0 ==> a in cells && cells[a] == Next(if n == 1 then NULL else a + size) && RowLinks(cells, a + size, size, n - 1)
  }

  lemma {:induction false} RowLinked(cells: map<nat, Cell>, a: nat, size: nat, n: nat)
    requires RowLinks(cells, a, size, n) && a > 0
    ensures Linked(cells, if n == 0 then NULL else a, Row(a, size, n))
    ensures forall x :: x in Row(a, size, n) ==> x in cells && cells[x].Next?
    decreases n
  {
    if n > 0 {
      RowLinked(cells, a + size, size, n - 1);
      assert Row(a, size, n)[1..] == Row(a + size, size, n - 1);
      forall x | x in Row(a, size, n) ensures x in cells && cells[x].Next? {
        assert x == a || x in Row(a + size, size, n - 1);
      }
    }
  }

  /** Where block number k of the row is. */
  ghost function Place(a: nat, size: nat, k: nat): (p: nat)
    ensures p >= a
    decreases k
  {
    if k == 0 then a else Place(a + size, size, k - 1)
  }

  lemma {:induction false} PlaceNext(a: nat, size: nat, k: nat)
    ensures Place(a, size, k + 1) == Place(a, size, k) + size
    decreases k
  {
    if k > 0 {
      PlaceNext(a + size, size, k - 1);
    }
  }

  lemma {:induction false} PlaceInRow(a: nat, size: nat, k: nat, n: nat)
    requires k < n
    ensures Place(a, size, k) in Row(a, size, n)
    decreases n
  {
    if k > 0 {
      PlaceInRow(a + size, size, k - 1, n - 1);
    }
  }

  /** The first k blocks of the row each lead to the next. */
  ghost predicate Chained(cells: map<nat, Cell>, a: nat, size: nat, k: nat)
    decreases k
  {
    k > 0 ==> a in cells && cells[a] == Next(a + size) && Chained(cells, a + size, size, k - 1)
  }

  /** One more link. */
  lemma {:induction false} ChainedMore(cells: map<nat, Cell>, a: nat, size: nat, k: nat)
    requires Chained(cells, a, size, k) && size > 0
    ensures var p := Place(a, size, k); Chained(cells[p := Next(p + size)], a, size, k + 1)
    decreases k
  {
    if k > 0 {
      ChainedMore(cells, a + size, size, k - 1);
    }
  }

  /** The last block leads nowhere. */
  lemma {:induction false} ChainedEnd(cells: map<nat, Cell>, a: nat, size: nat, k: nat)
    requires Chained(cells, a, size, k) && size > 0
    ensures RowLinks(cells[Place(a, size, k) := Next(NULL)], a, size, k + 1)
    decreases k
  {
    if k > 0 {
      ChainedEnd(cells, a + size, size, k - 1);
    }
  }
}
