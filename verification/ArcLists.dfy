/** Doubly linked chains of arcs, which are numbers. */
module ArcLists {
  const NULL: nat := 0

  datatype Link = Link(next: nat, prev: nat)

  function At(c: seq<nat>, i: int): nat {
    if 0 <= i < |c| then c[i] else NULL
  }

  ghost predicate Distinct(c: seq<nat>) {
    forall i, j :: 0 <= i < j < |c| ==> c[i] != c[j]
  }

  ghost predicate LinkedAt(m: map<nat, Link>, c: seq<nat>, i: nat)
    requires i < |c|
  {
    c[i] in m && m[c[i]] == Link(At(c, i + 1), At(c, i - 1))
  }

  /** From head on, the links lead through c, forward and backward. */
  ghost predicate Chained(m: map<nat, Link>, head: nat, c: seq<nat>) {
    head == At(c, 0) && NULL !in c && Distinct(c) && forall i :: 0 <= i < |c| ==> LinkedAt(m, c, i)
  }

  /** Another arc at the beginning of a chain. */
  function Prepended(m: map<nat, Link>, head: nat, x: nat): map<nat, Link> {
    var r := m[x := Link(head, NULL)];
    if head in r && head != NULL then r[head := r[head].(prev := x)] else r
  }

  lemma PrependChain(m: map<nat, Link>, head: nat, c: seq<nat>, x: nat)
    requires Chained(m, head, c) && x != NULL && x !in c
    ensures Chained(Prepended(m, head, x), x, [x] + c)
  {
    var r, e := Prepended(m, head, x), [x] + c;
    forall i | 0 <= i < |e| ensures LinkedAt(r, e, i) {
      if i > 0 {
        assert LinkedAt(m, c, i - 1) && c[i - 1] in c;
        assert i > 1 ==> c[0] != c[i - 1];
      } else {
        assert c != [] ==> c[0] in c;
      }
    }
  }

  /** A chain that shares no arc with what has changed. */
  lemma PrependElsewhere(m: map<nat, Link>, head: nat, x: nat, other: nat, c: seq<nat>)
    requires Chained(m, other, c) && x !in c && head !in c
    ensures Chained(Prepended(m, head, x), other, c)
  {
    var r := Prepended(m, head, x);
    forall i | 0 <= i < |c| ensures LinkedAt(r, c, i) {
      assert LinkedAt(m, c, i) && c[i] in c;
    }
  }

  /** An arc taken out of its chain. */
  function Unlinked(m: map<nat, Link>, x: nat): map<nat, Link>
    requires x in m
  {
    var n, p := m[x].next, m[x].prev;
    var r := if p != NULL && p in m then m[p := m[p].(next := n)] else m;
    if n != NULL && n in r then r[n := r[n].(prev := p)] else r
  }

  ghost function Removed(c: seq<nat>, k: nat): (r: seq<nat>)
    requires k < |c|
    ensures |r| == |c| - 1 && forall i :: 0 <= i < |r| ==> r[i] == c[if i < k then i else i + 1]
  {
    c[..k] + c[k + 1..]
  }

  lemma RemovedMembers(c: seq<nat>, k: nat)
    requires k < |c| && Distinct(c)
    ensures Distinct(Removed(c, k)) && forall x :: x in Removed(c, k) <==> x in c && x != c[k]
  {
    var r := Removed(c, k);
    forall x | x in c && x != c[k] ensures x in r {
      var i :| 0 <= i < |c| && c[i] == x;
      assert r[if i < k then i else i - 1] == x;
    }
  }

  lemma UnlinkChain(m: map<nat, Link>, head: nat, c: seq<nat>, k: nat)
    requires Chained(m, head, c) && k < |c|
    ensures c[k] in m && (m[c[k]].prev == NULL <==> k == 0)
    ensures Chained(Unlinked(m, c[k]), if k == 0 then m[c[k]].next else head, Removed(c, k))
  {
    assert LinkedAt(m, c, k);
    assert k > 0 ==> c[k - 1] in c && LinkedAt(m, c, k - 1);
    assert k + 1 < |c| ==> c[k + 1] in c && LinkedAt(m, c, k + 1);
    RemovedMembers(c, k);
    var r, e := Unlinked(m, c[k]), Removed(c, k);
    forall i | 0 <= i < |e| ensures LinkedAt(r, e, i) {
      UnlinkedAt(m, c, k, if i < k then i else i + 1);
    }
  }

  lemma UnlinkedAt(m: map<nat, Link>, c: seq<nat>, k: nat, j: nat)
    requires k < |c| && j < |c| && j != k && Distinct(c) && NULL !in c && LinkedAt(m, c, k) && LinkedAt(m, c, j)
    requires (k > 0 ==> LinkedAt(m, c, k - 1)) && (k + 1 < |c| ==> LinkedAt(m, c, k + 1))
    ensures LinkedAt(Unlinked(m, c[k]), Removed(c, k), if j < k then j else j - 1)
  {
    var e := Removed(c, k);
    var i := if j < k then j else j - 1;
    assert e[i] == c[j] && c[j] in c;
    assert At(e, i + 1) == if j + 1 == k then At(c, k + 1) else At(c, j + 1);
    assert At(e, i - 1) == if j == k + 1 then At(c, k - 1) else At(c, j - 1);
    assert k > 0 ==> c[k - 1] in c;
    assert k + 1 < |c| ==> c[k + 1] in c;
  }

  lemma UnlinkElsewhere(m: map<nat, Link>, head: nat, c0: seq<nat>, k: nat, other: nat, c: seq<nat>)
    requires Chained(m, head, c0) && k < |c0| && Chained(m, other, c) && forall x :: x in c0 ==> x !in c
    ensures c0[k] in m && Chained(Unlinked(m, c0[k]), other, c)
  {
    assert LinkedAt(m, c0, k);
    assert k > 0 ==> c0[k - 1] in c0;
    assert k + 1 < |c0| ==> c0[k + 1] in c0;
    var r := Unlinked(m, c0[k]);
    forall i | 0 <= i < |c| ensures LinkedAt(r, c, i) {
      assert LinkedAt(m, c, i) && c[i] in c;
    }
  }

  /** The links of the first n arcs of a chain, set anew. */
  ghost function Relinked(m: map<nat, Link>, c: seq<nat>, n: nat): (r: map<nat, Link>)
    requires n <= |c|
  {
    if n == 0 then m else Relinked(m, c, n - 1)[c[n - 1] := Link(At(c, n), At(c, n - 2))]
  }

  lemma {:induction false} RelinkedAt(m: map<nat, Link>, c: seq<nat>, n: nat)
    requires n <= |c| && Distinct(c)
    ensures forall i :: 0 <= i < n ==> LinkedAt(Relinked(m, c, n), c, i)
    ensures forall x :: x in m && x !in c ==> x in Relinked(m, c, n) && Relinked(m, c, n)[x] == m[x]
  {
    if n > 0 {
      RelinkedAt(m, c, n - 1);
      assert c[n - 1] in c;
      var q, r := Relinked(m, c, n - 1), Relinked(m, c, n);
      forall i | 0 <= i < n ensures LinkedAt(r, c, i) {
        assert i < n - 1 ==> LinkedAt(q, c, i) && c[i] != c[n - 1];
      }
    }
  }

  lemma RelinkChain(m: map<nat, Link>, c: seq<nat>)
    requires NULL !in c && Distinct(c)
    ensures Chained(Relinked(m, c, |c|), At(c, 0), c)
  {
    RelinkedAt(m, c, |c|);
  }

  lemma RelinkElsewhere(m: map<nat, Link>, c0: seq<nat>, other: nat, c: seq<nat>)
    requires Distinct(c0) && Chained(m, other, c) && forall x :: x in c0 ==> x !in c
    ensures Chained(Relinked(m, c0, |c0|), other, c)
  {
    RelinkedAt(m, c0, |c0|);
    var r := Relinked(m, c0, |c0|);
    forall i | 0 <= i < |c| ensures LinkedAt(r, c, i) {
      assert LinkedAt(m, c, i) && c[i] in c;
    }
  }

  /** The arc after number i. */
  lemma NextInChain(m: map<nat, Link>, head: nat, c: seq<nat>, i: nat)
    requires Chained(m, head, c) && i < |c|
    ensures c[i] in m && m[c[i]].next == At(c, i + 1)
  {
    assert LinkedAt(m, c, i);
  }

  lemma ChainFacts(m: map<nat, Link>, head: nat, c: seq<nat>)
    requires Chained(m, head, c)
    ensures Distinct(c) && NULL !in c && head == At(c, 0) && (head == NULL <==> c == []) && (head == NULL || head in c)
  {
    assert c != [] ==> c[0] in c;
  }

  lemma NullEnds(c: seq<nat>, i: nat)
    requires NULL !in c && i <= |c| && At(c, i) == NULL
    ensures i == |c|
  {
    assert forall k :: 0 <= k < |c| ==> c[k] in c;
  }
}
