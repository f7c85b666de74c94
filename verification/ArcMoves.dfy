/** Moving, copying and merging the arcs at one side of a state, one by one or by sorting and merging chains. */
module ArcMoves {
  import opened NfaGraph
  import opened SortedArcs
  import opened ArcLists
  import opened ArcChains

  function What(w: map<nat, Arc>, x: nat): Arc {
    if x in w then w[x] else Arc(EMPTY, 0, 0, 0)
  }

  /** The arcs along a chain. */
  function Along(w: map<nat, Arc>, c: seq<nat>): (s: seq<Arc>)
    ensures |s| == |c| && forall i :: 0 <= i < |c| ==> s[i] == What(w, c[i])
  {
    seq(|c|, i requires 0 <= i < |c| => What(w, c[i]))
  }

  /** The arcs along the chain of a state are those that hang there, each once. */
  lemma AlongIs(st: ArcStore, ins: bool, s: nat)
    requires st.Valid() && s in st.states
    ensures s in st.Chain(ins) && s in st.Head(ins) && s in st.Count(ins) && st.Count(ins)[s] == |st.Chain(ins)[s]|
    ensures Distinct(st.Chain(ins)[s]) && NULL !in st.Chain(ins)[s] && st.Head(ins)[s] == At(st.Chain(ins)[s], 0)
    ensures Chained(st.Link(ins), st.Head(ins)[s], st.Chain(ins)[s]) && Different(Along(st.what, st.Chain(ins)[s]))
    ensures forall x :: x in st.Chain(ins)[s] <==> x in st.what && Far(st.what[x], !ins) == s
    ensures forall a :: a in Along(st.what, st.Chain(ins)[s]) <==> a in Side(st.Arcs(), s, ins)
  {
    hide Chained, SideOk;
    SideKeeps(st.Side(ins), st.what, ins, st.states, s);
    var c, t := st.Chain(ins)[s], Along(st.what, st.Chain(ins)[s]);
    forall i, j | 0 <= i < j < |t| ensures t[i] != t[j] {
      assert c[i] in c && c[j] in c;
    }
    forall a | a in t ensures a in Side(st.Arcs(), s, ins) {
      var i :| 0 <= i < |t| && t[i] == a;
      assert c[i] in c;
    }
    forall a | a in Side(st.Arcs(), s, ins) ensures a in t {
      var x :| x in st.what && st.what[x] == a;
      assert x in c;
      var i :| 0 <= i < |c| && c[i] == x;
      assert t[i] == a;
    }
  }

  // ---------------------------------------------------------------- one more arc, unless it is there

  /** Looks for an arc on the shorter of the chains it would be on. */
  method FindArc(st: ArcStore, a: Arc) returns (found: bool)
    requires st.Valid() && a.from in st.states && a.to in st.states
    ensures found <==> a in st.Arcs()
  {
    hide ArcStore.Valid, Chained;
    AlongIs(st, false, a.from);
    AlongIs(st, true, a.to);
    var ins := st.outCount[a.from] > st.inCount[a.to];
    var s := if ins then a.to else a.from;
    ghost var c := st.Chain(ins)[s];
    var x := st.Head(ins)[s];
    ghost var i := 0;
    while x != NULL
      invariant i <= |c| && x == At(c, i) && forall j :: 0 <= j < i ==> c[j] in st.what && st.what[c[j]] != a
      decreases |c| - i
    {
      assert c[i] in c;
      if st.what[x] == a {
        return true;
      }
      NextInChain(st.Link(ins), st.Head(ins)[s], c, i);
      x := st.Link(ins)[x].next;
      i := i + 1;
    }
    NullEnds(c, i);
    assert forall y :: y in c ==> y in st.what && st.what[y] != a;
    found := false;
  }

  /** Adds an arc unless an equal one is there. */
  method NewArc(st: ArcStore, a: Arc)
    requires st.Valid() && a.from in st.states && a.to in st.states
    modifies st
    ensures st.Valid() && st.Arcs() == old(st.Arcs()) + {a}
    ensures forall x :: x in old(st.what) ==> x in st.what && st.what[x] == old(st.what)[x]
    ensures forall ins, s :: s in st.states && Far(a, !ins) != s ==>
              s in st.Chain(ins) && s in old(st.Chain(ins)) && st.Chain(ins)[s] == old(st.Chain(ins))[s]
  {
    hide ArcStore.Valid, Chained;
    forall s | s in st.states ensures s in st.inChain && s in st.outChain {
      AlongIs(st, true, s);
      AlongIs(st, false, s);
    }
    var found := FindArc(st, a);
    if !found {
      ghost var w := st.what;
      ghost var inChain, outChain := st.inChain, st.outChain;
      var x := st.CreateArc(a);
      MoreArcs(w, x, a);
      forall ins, s | s in st.states && Far(a, !ins) != s
        ensures s in st.Chain(ins) && st.Chain(ins)[s] == (if ins then inChain else outChain)[s]
      {
      }
    }
  }

  lemma MoreArcs(w: map<nat, Arc>, x: nat, a: Arc)
    requires x !in w
    ensures ArcsOf(w[x := a]) == ArcsOf(w) + {a}
  {
    var r := w[x := a];
    forall b | b in ArcsOf(w) + {a} ensures b in ArcsOf(r) {
      if b == a {
        assert r[x] == a;
      } else {
        var y :| y in w && w[y] == b;
        assert r[y] == b;
      }
    }
  }

  lemma FewerArcs(w: map<nat, Arc>, x: nat)
    requires x in w && NoTwins(w)
    ensures ArcsOf(w - {x}) == ArcsOf(w) - {w[x]}
  {
    var r := w - {x};
    forall b | b in ArcsOf(w) - {w[x]} ensures b in ArcsOf(r) {
      var y :| y in w && w[y] == b;
      assert r[y] == b;
    }
  }

  lemma ChangedArcs(w: map<nat, Arc>, x: nat, b: Arc)
    requires x in w && NoTwins(w)
    ensures ArcsOf(w[x := b]) == ArcsOf(w) - {w[x]} + {b}
  {
    FewerArcs(w, x);
    MoreArcs(w - {x}, x, b);
    assert (w - {x})[x := b] == w[x := b];
  }

  // ---------------------------------------------------------------- sorting a chain

  /** Puts one more arc in its place. */
  method InsertId(ids: seq<nat>, x: nat, w: map<nat, Arc>, ins: bool) returns (r: seq<nat>)
    requires Ordered(Along(w, ids), ins) && Distinct(ids) && x !in ids
    ensures Ordered(Along(w, r), ins) && Distinct(r) && |r| == |ids| + 1 && forall y :: y in r <==> y in ids || y == x
  {
    hide Compare;
    var a := What(w, x);
    ghost var s := Along(w, ids);
    var k := 0;
    while k < |ids| && Compare(What(w, ids[k]), a, ins) <= 0
      invariant k <= |ids| && forall i :: 0 <= i < k ==> Compare(s[i], a, ins) <= 0
    {
      k := k + 1;
    }
    forall j | k <= j < |s| ensures Compare(a, s[j], ins) <= 0 {
      CompareBack(a, s[k], ins);
      if k < j { CompareTrans(a, s[k], s[j], ins); }
    }
    r := ids[..k] + [x] + ids[k..];
    InsertedOrdered(s, a, k, ins);
    assert Along(w, r) == s[..k] + [a] + s[k..];
    InsertedDistinct(ids, x, k);
  }

  lemma InsertedDistinct(ids: seq<nat>, x: nat, k: nat)
    requires k <= |ids| && Distinct(ids) && x !in ids
    ensures var r := ids[..k] + [x] + ids[k..]; Distinct(r) && forall y :: y in r <==> y in ids || y == x
  {
    var r := ids[..k] + [x] + ids[k..];
    assert ids == ids[..k] + ids[k..];
    forall i | 0 <= i < |r| ensures r[i] == if i < k then ids[i] else if i == k then x else ids[i - 1] {
    }
  }

  /** Sorts arcs by what they are. */
  method SortIds(ids: seq<nat>, w: map<nat, Arc>, ins: bool) returns (r: seq<nat>)
    requires Distinct(ids)
    ensures Ordered(Along(w, r), ins) && Distinct(r) && |r| == |ids| && forall y :: y in r <==> y in ids
  {
    hide Compare, Ordered;
    r := [];
    NothingOrdered(ins);
    assert Along(w, r) == [];
    var i := 0;
    while i < |ids|
      invariant i <= |ids| && Ordered(Along(w, r), ins) && Distinct(r) && |r| == i && forall y :: y in r <==> y in ids[..i]
    {
      assert ids[..i + 1] == ids[..i] + [ids[i]];
      r := InsertId(r, ids[i], w, ins);
      i := i + 1;
    }
    assert ids[..i] == ids;
  }

  /** Lists a chain. */
  method ListChain(st: ArcStore, ins: bool, s: nat) returns (ids: seq<nat>)
    requires st.Valid() && s in st.states
    ensures s in st.Chain(ins) && ids == st.Chain(ins)[s]
  {
    hide ArcStore.Valid, Chained;
    AlongIs(st, ins, s);
    ghost var c := st.Chain(ins)[s];
    var x := st.Head(ins)[s];
    ids := [];
    while x != NULL
      invariant |ids| <= |c| && ids == c[..|ids|] && x == At(c, |ids|)
      decreases |c| - |ids|
    {
      NextInChain(st.Link(ins), st.Head(ins)[s], c, |ids|);
      ids := ids + [x];
      x := st.Link(ins)[x].next;
    }
    NullEnds(c, |ids|);
  }

  /** Sorts the chain of a state in place. */
  method SortChain(st: ArcStore, ins: bool, s: nat)
    requires st.Valid() && s in st.states
    modifies st`inLink, st`inHead, st`inChain, st`outLink, st`outHead, st`outChain
    ensures st.Valid() && s in st.Chain(ins) && StrictlyOrdered(Along(st.what, st.Chain(ins)[s]), ins)
    ensures forall t :: t in old(st.Chain(ins)) && t != s ==> t in st.Chain(ins) && st.Chain(ins)[t] == old(st.Chain(ins))[t]
  {
    hide Chained, Relinked, Compare, SideOk;
    AlongIs(st, ins, s);
    if st.Count(ins)[s] <= 1 {
      return;
    }
    var sortarray := ListChain(st, ins, s);
    var sorted := SortIds(sortarray, st.what, ins);
    ghost var h := st.Side(ins);
    var m := Relink(st.Link(ins), sorted);
    if ins {
      st.inLink, st.inHead, st.inChain := m, st.inHead[s := sorted[0]], st.inChain[s := sorted];
    } else {
      st.outLink, st.outHead, st.outChain := m, st.outHead[s := sorted[0]], st.outChain[s := sorted];
    }
    ResortOk(h, st.what, ins, st.states, s, sorted);
    assert st.Side(ins) == Resorted(h, s, sorted);
    AlongIs(st, ins, s);
    OneSideStrict(Along(st.what, sorted), ins, s);
  }

  /** Sets the links of a list of arcs. */
  method Relink(link: map<nat, Link>, sorted: seq<nat>) returns (m: map<nat, Link>)
    ensures m == Relinked(link, sorted, |sorted|)
  {
    m := link;
    var i := 0;
    while i < |sorted|
      invariant i <= |sorted| && m == Relinked(link, sorted, i)
    {
      m := m[sorted[i] := Link(At(sorted, i + 1), At(sorted, i - 1))];
      i := i + 1;
    }
  }

  // ---------------------------------------------------------------- walking along chains that change

  ghost predicate EndsWith(c: seq<nat>, s: seq<nat>) {
    |s| <= |c| && c[|c| - |s|..] == s
  }

  /** What has not been walked yet of a chain that began as ids: from number i on it is still there. */
  ghost predicate Rest(st: ArcStore, ins: bool, s: nat, ids: seq<nat>, t: seq<Arc>, i: nat)
    reads st
  {
    && i <= |ids| == |t| && s in st.Chain(ins) && EndsWith(st.Chain(ins)[s], ids[i..])
    && forall j :: i <= j < |ids| ==> ids[j] in st.what && st.what[ids[j]] == t[j]
  }

  lemma RestAll(st: ArcStore, ins: bool, s: nat)
    requires st.Valid() && s in st.states
    ensures s in st.Chain(ins) && Rest(st, ins, s, st.Chain(ins)[s], Along(st.what, st.Chain(ins)[s]), 0)
  {
    hide Chained, ArcStore.Valid;
    AlongIs(st, ins, s);
    var c := st.Chain(ins)[s];
    assert c[0..] == c;
    forall j | 0 <= j < |c| ensures c[j] in st.what {
      assert c[j] in c;
    }
  }

  /** The next arc of a walk. */
  lemma RestNext(st: ArcStore, ins: bool, s: nat, ids: seq<nat>, t: seq<Arc>, i: nat)
    requires st.Valid() && s in st.states && Rest(st, ins, s, ids, t, i)
    ensures At(ids, i) != NULL <==> i < |ids|
    ensures i < |ids| ==>
              && ids[i] in st.Chain(ins)[s] && ids[i] in st.what && st.what[ids[i]] == t[i] && Far(t[i], !ins) == s
              && ids[i] in st.Link(ins) && st.Link(ins)[ids[i]].next == At(ids, i + 1) && Rest(st, ins, s, ids, t, i + 1)
  {
    hide Chained, ArcStore.Valid;
    AlongIs(st, ins, s);
    var c := st.Chain(ins)[s];
    if i < |ids| {
      var p := |c| - (|ids| - i);
      EndsAt(c, ids, i);
      assert c[p] in c;
      NextInChain(st.Link(ins), st.Head(ins)[s], c, p);
    }
  }

  /** Places at the end of a chain. */
  lemma EndsAt(c: seq<nat>, ids: seq<nat>, i: nat)
    requires i < |ids| && EndsWith(c, ids[i..])
    ensures |c| >= |ids| - i && EndsWith(c, ids[i + 1..])
    ensures forall m :: i <= m < |ids| ==> c[|c| - |ids| + m] == ids[m]
  {
    var p := |c| - (|ids| - i);
    forall m | i <= m < |ids| ensures c[|c| - |ids| + m] == ids[m] {
      assert c[p..][m - i] == ids[i..][m - i];
    }
    assert c[p + 1..] == c[p..][1..] == ids[i + 1..];
  }

  lemma EndsAdded(c: seq<nat>, s: seq<nat>, x: nat)
    requires EndsWith(c, s)
    ensures EndsWith([x] + c, s)
  {
    assert ([x] + c)[|c| + 1 - |s|..] == c[|c| - |s|..];
  }

  lemma EndsShortened(c: seq<nat>, ids: seq<nat>, i: nat, r: seq<nat>)
    requires Distinct(c) && i < |ids| && EndsWith(c, ids[i..]) && Shortened(c, ids[i], r)
    ensures EndsWith(r, ids[i + 1..])
  {
    var p := |c| - (|ids| - i);
    EndsAt(c, ids, i);
    assert c[p] in c;
    var q :| 0 <= q < |c| && c[q] == ids[i] && r == Removed(c, q);
    assert q == p;
    assert r[p..] == c[p + 1..];
  }

  lemma NotShortened(c: seq<nat>, x: nat, r: seq<nat>)
    requires x !in c && Shortened(c, x, r)
    ensures r == c
  {
  }

  /** An arc comes neither again in its walk nor in one along another chain. */
  lemma NotAgain(st: ArcStore, ins: bool, s: nat, ids: seq<nat>, t: seq<Arc>, i: nat, u: nat, jds: seq<nat>, v: seq<Arc>, j: nat)
    requires st.Valid() && s in st.states && u in st.states && s != u
    requires Rest(st, ins, s, ids, t, i) && Rest(st, ins, u, jds, v, j) && i < |ids|
    ensures (forall m :: i < m < |ids| ==> ids[m] != ids[i]) && forall m :: j <= m < |jds| ==> jds[m] != ids[i]
    ensures ids[i] !in st.Chain(ins)[u]
  {
    hide Chained, ArcStore.Valid;
    RestNext(st, ins, s, ids, t, i);
    AlongIs(st, ins, s);
    AlongIs(st, ins, u);
    var c, d := st.Chain(ins)[s], st.Chain(ins)[u];
    EndsAt(c, ids, i);
    forall m | i < m < |ids| ensures ids[m] != ids[i] {
      assert c[|c| - |ids| + m] != c[|c| - |ids| + i];
    }
    forall m | j <= m < |jds| ensures jds[m] != ids[i] {
      EndsAt(d, jds, j);
      assert d[|d| - |jds| + m] in d;
    }
  }

  lemma OnlyOnce(st: ArcStore)
    requires st.Valid()
    ensures NoTwins(st.what)
  {
  }

  /** Makes an arc; two walks on one side are not disturbed. */
  method AddArc(st: ArcStore, a: Arc, ghost ins: bool, ghost s: nat, ghost ids: seq<nat>, ghost t: seq<Arc>, ghost i: nat,
                ghost u: nat, ghost jds: seq<nat>, ghost v: seq<Arc>, ghost j: nat)
    requires st.Valid() && a.from in st.states && a.to in st.states && a !in st.Arcs()
    requires Rest(st, ins, s, ids, t, i) && Rest(st, ins, u, jds, v, j)
    modifies st
    ensures st.Valid() && st.Arcs() == old(st.Arcs()) + {a}
    ensures Rest(st, ins, s, ids, t, i) && Rest(st, ins, u, jds, v, j)
  {
    hide ArcStore.Valid, EndsWith;
    ghost var w, chain := st.what, st.Chain(ins);
    var x := st.CreateArc(a);
    MoreArcs(w, x, a);
    EndsAdded(chain[s], ids[i..], x);
    EndsAdded(chain[u], jds[j..], x);
  }

  /** Frees the next arc of the first walk. */
  method TakeArc(st: ArcStore, x: nat, ghost ins: bool, ghost s: nat, ghost ids: seq<nat>, ghost t: seq<Arc>, ghost i: nat,
                 ghost u: nat, ghost jds: seq<nat>, ghost v: seq<Arc>, ghost j: nat)
    requires st.Valid() && s in st.states && u in st.states && s != u
    requires Rest(st, ins, s, ids, t, i) && Rest(st, ins, u, jds, v, j) && i < |ids| && x == ids[i]
    modifies st
    ensures st.Valid() && st.Arcs() == old(st.Arcs()) - {t[i]}
    ensures Rest(st, ins, s, ids, t, i + 1) && Rest(st, ins, u, jds, v, j)
  {
    hide ArcStore.Valid, EndsWith, Shortened, Chained;
    RestNext(st, ins, s, ids, t, i);
    AlongIs(st, ins, s);
    NotAgain(st, ins, s, ids, t, i, u, jds, v, j);
    ghost var w, chain := st.what, st.Chain(ins);
    OnlyOnce(st);
    FewerArcs(w, x);
    st.FreeArc(x);
    EndsShortened(chain[s], ids, i, st.Chain(ins)[s]);
    NotShortened(chain[u], x, st.Chain(ins)[u]);
  }

  /** Makes the next inarc of the first walk lead to the state of the second. */
  method Retarget(st: ArcStore, x: nat, ghost s: nat, ghost ids: seq<nat>, ghost t: seq<Arc>, ghost i: nat,
                  u: nat, ghost jds: seq<nat>, ghost v: seq<Arc>, ghost j: nat)
    requires st.Valid() && s in st.states && u in st.states && s != u
    requires Rest(st, true, s, ids, t, i) && Rest(st, true, u, jds, v, j) && i < |ids| && x == ids[i] && t[i].(to := u) !in st.Arcs()
    modifies st
    ensures st.Valid() && st.Arcs() == old(st.Arcs()) - {t[i]} + {t[i].(to := u)}
    ensures Rest(st, true, s, ids, t, i + 1) && Rest(st, true, u, jds, v, j)
  {
    hide ArcStore.Valid, EndsWith, Shortened, Chained;
    RestNext(st, true, s, ids, t, i);
    AlongIs(st, true, s);
    NotAgain(st, true, s, ids, t, i, u, jds, v, j);
    ghost var w, chain := st.what, st.inChain;
    OnlyOnce(st);
    ChangedArcs(w, x, t[i].(to := u));
    st.ChangeArcTarget(x, u);
    EndsShortened(chain[s], ids, i, st.inChain[s]);
    EndsAdded(chain[u], jds[j..], x);
  }

  // ---------------------------------------------------------------- the sort-and-merge way

  lemma ArcEnds(st: ArcStore, x: nat)
    requires st.Valid() && x in st.what
    ensures st.what[x].from in st.states && st.what[x].to in st.states && st.what[x] in st.Arcs()
  {
  }

  /** One more arc of F has become an arc of H. */
  lemma OneMoved(A: set<Arc>, F: set<Arc>, H: set<Arc>, a: Arc, b: Arc)
    requires a !in F && a !in H + {b}
    ensures A - F + H - {a} + {b} == A - (F + {a}) + (H + {b})
    ensures A - F + H + {b} - {a} == A - (F + {a}) + (H + {b})
  {
  }

  /** Moves one arc that newState does not have: an inarc by changing its target, an outarc by making a new one. */
  method MoveNext(st: ArcStore, o: nat, oldState: nat, newState: nat, ins: bool, ghost A: set<Arc>,
                  ghost oids: seq<nat>, ghost oa: seq<Arc>, ghost i: nat, ghost nids: seq<nat>, ghost na: seq<Arc>, ghost j: nat)
    requires st.Valid() && oldState in st.states && newState in st.states && oldState != newState
    requires Rest(st, ins, oldState, oids, oa, i) && Rest(st, ins, newState, nids, na, j) && i < |oids| == |oa| && o == oids[i]
    requires StrictlyOrdered(oa, ins) && (forall a :: a in oa <==> a in Side(A, oldState, ins))
    requires (forall a :: a in na <==> a in Side(A, newState, ins)) && forall l :: 0 <= l < |na| ==> Compare(oa[i], na[l], ins) != 0
    requires st.Arcs() == A - First(oa, i) + HangAll(First(oa, i), newState, ins)
    modifies st
    ensures st.Valid() && st.Arcs() == A - First(oa, i + 1) + HangAll(First(oa, i + 1), newState, ins)
    ensures Rest(st, ins, oldState, oids, oa, i + 1) && Rest(st, ins, newState, nids, na, j)
  {
    hide Compare, ArcStore.Valid, Rest, First, HangAll, StrictlyOrdered, ArcsOf;
    RestNext(st, ins, oldState, oids, oa, i);
    NotHungYet(A, oa, na, i, newState, ins);
    FirstNext(oa, i, newState, ins);
    NotFirst(oa, i, ins);
    ElsewhereNow(oa, i, oldState, newState, ins);
    var a := st.what[o];
    ArcEnds(st, o);
    OneMoved(A, First(oa, i), HangAll(First(oa, i), newState, ins), a, Hang(a, newState, ins));
    if ins {
      Retarget(st, o, oldState, oids, oa, i, newState, nids, na, j);
    } else {
      AddArc(st, a.(from := newState), ins, oldState, oids, oa, i, newState, nids, na, j);
      TakeArc(st, o, ins, oldState, oids, oa, i, newState, nids, na, j);
    }
  }

  /** Drops one arc that newState has already. */
  method DropNext(st: ArcStore, o: nat, oldState: nat, newState: nat, ins: bool, ghost A: set<Arc>,
                  ghost oids: seq<nat>, ghost oa: seq<Arc>, ghost i: nat, ghost nids: seq<nat>, ghost na: seq<Arc>, ghost j: nat)
    requires st.Valid() && oldState in st.states && newState in st.states && oldState != newState
    requires Rest(st, ins, oldState, oids, oa, i) && Rest(st, ins, newState, nids, na, j) && i < |oids| == |oa| && o == oids[i]
    requires StrictlyOrdered(oa, ins) && (forall a :: a in oa <==> a in Side(A, oldState, ins)) && Hang(oa[i], newState, ins) in A
    requires st.Arcs() == A - First(oa, i) + HangAll(First(oa, i), newState, ins)
    modifies st
    ensures st.Valid() && st.Arcs() == A - First(oa, i + 1) + HangAll(First(oa, i + 1), newState, ins)
    ensures Rest(st, ins, oldState, oids, oa, i + 1) && Rest(st, ins, newState, nids, na, j)
  {
    hide Compare, ArcStore.Valid, Rest, StrictlyOrdered, ArcsOf;
    FirstNext(oa, i, newState, ins);
    NotFirst(oa, i, ins);
    ElsewhereNow(oa, i, oldState, newState, ins);
    assert oa[i] in oa;
    TakeArc(st, o, ins, oldState, oids, oa, i, newState, nids, na, j);
  }

  /** Sorts the chains of both states and goes to where they begin. */
  method SortBoth(st: ArcStore, oldState: nat, newState: nat, ins: bool)
    returns (o: nat, n: nat, ghost oids: seq<nat>, ghost nids: seq<nat>, ghost oa: seq<Arc>, ghost na: seq<Arc>)
    requires st.Valid() && oldState in st.states && newState in st.states && oldState != newState
    modifies st
    ensures st.Valid() && st.Arcs() == old(st.Arcs()) && o == At(oids, 0) && n == At(nids, 0) && NULL !in oids && NULL !in nids
    ensures Rest(st, ins, oldState, oids, oa, 0) && Rest(st, ins, newState, nids, na, 0) && |oa| == |oids| && |na| == |nids|
    ensures StrictlyOrdered(oa, ins) && StrictlyOrdered(na, ins)
    ensures forall a :: a in oa <==> a in Side(st.Arcs(), oldState, ins)
    ensures forall a :: a in na <==> a in Side(st.Arcs(), newState, ins)
  {
    hide ArcStore.Valid, Rest, StrictlyOrdered, ArcsOf, Chained;
    SortChain(st, ins, oldState);
    SortChain(st, ins, newState);
    oids, nids := st.Chain(ins)[oldState], st.Chain(ins)[newState];
    oa, na := Along(st.what, oids), Along(st.what, nids);
    AlongIs(st, ins, oldState);
    AlongIs(st, ins, newState);
    RestAll(st, ins, oldState);
    RestAll(st, ins, newState);
    o, n := st.Head(ins)[oldState], st.Head(ins)[newState];
  }

  /** Moves the arcs at one side of a state to another state by sorting both chains and merging them. */
  method MoveSorted(st: ArcStore, oldState: nat, newState: nat, ins: bool)
    requires st.Valid() && oldState in st.states && newState in st.states && oldState != newState
    modifies st
    ensures st.Valid()
    ensures var S := Side(old(st.Arcs()), oldState, ins); st.Arcs() == old(st.Arcs()) - S + HangAll(S, newState, ins)
  {
    hide Compare, ArcStore.Valid, Rest, StrictlyOrdered, ArcsOf, Chained, HangAll;
    ghost var A := st.Arcs();
    var o, n; ghost var oids, nids, oa, na;
    o, n, oids, nids, oa, na := SortBoth(st, oldState, newState, ins);
    ghost var i: nat, j: nat := 0, 0;
    HangNone(oa, newState, ins);
    while o != NULL && n != NULL
      invariant st.Valid() && Rest(st, ins, oldState, oids, oa, i) && Rest(st, ins, newState, nids, na, j)
      invariant i <= |oids| && j <= |nids| && o == At(oids, i) && n == At(nids, j) && Merging(oa, na, i, j, ins)
      invariant st.Arcs() == A - First(oa, i) + HangAll(First(oa, i), newState, ins)
      decreases |oids| - i + |nids| - j
    {
      RestNext(st, ins, oldState, oids, oa, i);
      RestNext(st, ins, newState, nids, na, j);
      MergeNext(oa, na, i, j, ins);
      var c := Compare(st.what[o], st.what[n], ins);
      if c < 0 {
        NoCounterpart(oa, na, i, j, ins);
        var next := st.Link(ins)[o].next;
        MoveNext(st, o, oldState, newState, ins, A, oids, oa, i, nids, na, j);
        o, i := next, i + 1;
      } else if c == 0 {
        HungAlready(A, oa[i], na[j], newState, ins);
        assert na[j] in na;
        var next := st.Link(ins)[o].next;
        n := st.Link(ins)[n].next;
        DropNext(st, o, oldState, newState, ins, A, oids, oa, i, nids, na, j + 1);
        o, i, j := next, i + 1, j + 1;
      } else {
        n, j := st.Link(ins)[n].next, j + 1;
      }
    }
    while o != NULL
      invariant st.Valid() && Rest(st, ins, oldState, oids, oa, i) && Rest(st, ins, newState, nids, na, j)
      invariant i <= |oids| && j <= |nids| && o == At(oids, i) && Merging(oa, na, i, j, ins)
      invariant o != NULL ==> j == |nids|
      invariant st.Arcs() == A - First(oa, i) + HangAll(First(oa, i), newState, ins)
      decreases |oids| - i
    {
      RestNext(st, ins, oldState, oids, oa, i);
      NoCounterpart(oa, na, i, j, ins);
      var next := st.Link(ins)[o].next;
      MoveNext(st, o, oldState, newState, ins, A, oids, oa, i, nids, na, j);
      o, i := next, i + 1;
    }
    RestNext(st, ins, oldState, oids, oa, i);
    FirstAll(oa, Side(A, oldState, ins));
  }

  /** Copies one arc that newState does not have. */
  method CopyNext(st: ArcStore, a: Arc, newState: nat, ins: bool, ghost A: set<Arc>, ghost oa: seq<Arc>, ghost i: nat,
                  ghost oldState: nat, ghost oids: seq<nat>, ghost nids: seq<nat>, ghost na: seq<Arc>, ghost j: nat)
    requires st.Valid() && newState in st.states && i < |oa| && a == oa[i] && Far(a, ins) in st.states
    requires Rest(st, ins, oldState, oids, oa, i) && Rest(st, ins, newState, nids, na, j)
    requires StrictlyOrdered(oa, ins) && (forall a :: a in na <==> a in Side(A, newState, ins))
    requires forall l :: 0 <= l < |na| ==> Compare(oa[i], na[l], ins) != 0
    requires st.Arcs() == A + HangAll(First(oa, i), newState, ins)
    modifies st
    ensures st.Valid() && st.Arcs() == A + HangAll(First(oa, i + 1), newState, ins)
    ensures Rest(st, ins, oldState, oids, oa, i) && Rest(st, ins, newState, nids, na, j)
  {
    hide Compare, ArcStore.Valid, Rest, First, HangAll, StrictlyOrdered, ArcsOf;
    NotHungYet(A, oa, na, i, newState, ins);
    FirstNext(oa, i, newState, ins);
    AddArc(st, Hang(a, newState, ins), ins, oldState, oids, oa, i, newState, nids, na, j);
  }

  /** Copies the arcs at one side of a state to another state by sorting both chains and merging them. */
  method CopySorted(st: ArcStore, oldState: nat, newState: nat, ins: bool)
    requires st.Valid() && oldState in st.states && newState in st.states && oldState != newState
    modifies st
    ensures st.Valid() && st.Arcs() == old(st.Arcs()) + HangAll(Side(old(st.Arcs()), oldState, ins), newState, ins)
  {
    hide Compare, ArcStore.Valid, Rest, StrictlyOrdered, ArcsOf, Chained, HangAll;
    ghost var A := st.Arcs();
    var o, n; ghost var oids, nids, oa, na;
    o, n, oids, nids, oa, na := SortBoth(st, oldState, newState, ins);
    ghost var i: nat, j: nat := 0, 0;
    HangNone(oa, newState, ins);
    while o != NULL && n != NULL
      invariant st.Valid() && Rest(st, ins, oldState, oids, oa, i) && Rest(st, ins, newState, nids, na, j)
      invariant i <= |oids| && j <= |nids| && o == At(oids, i) && n == At(nids, j) && Merging(oa, na, i, j, ins)
      invariant st.Arcs() == A + HangAll(First(oa, i), newState, ins)
      decreases |oids| - i + |nids| - j
    {
      RestNext(st, ins, oldState, oids, oa, i);
      RestNext(st, ins, newState, nids, na, j);
      MergeNext(oa, na, i, j, ins);
      FirstNext(oa, i, newState, ins);
      var a, c := st.what[o], Compare(st.what[o], st.what[n], ins);
      ArcEnds(st, o);
      if c < 0 {
        NoCounterpart(oa, na, i, j, ins);
        o := st.Link(ins)[o].next;
        CopyNext(st, a, newState, ins, A, oa, i, oldState, oids, nids, na, j);
        RestNext(st, ins, oldState, oids, oa, i);
        i := i + 1;
      } else if c == 0 {
        HungAlready(A, oa[i], na[j], newState, ins);
        assert na[j] in na && na[j] in A;
        o, n, i, j := st.Link(ins)[o].next, st.Link(ins)[n].next, i + 1, j + 1;
      } else {
        n, j := st.Link(ins)[n].next, j + 1;
      }
    }
    while o != NULL
      invariant st.Valid() && Rest(st, ins, oldState, oids, oa, i) && Rest(st, ins, newState, nids, na, j)
      invariant i <= |oids| && j <= |nids| && o == At(oids, i) && Merging(oa, na, i, j, ins)
      invariant o != NULL ==> j == |nids|
      invariant st.Arcs() == A + HangAll(First(oa, i), newState, ins)
      decreases |oids| - i
    {
      RestNext(st, ins, oldState, oids, oa, i);
      NoCounterpart(oa, na, i, j, ins);
      var a := st.what[o];
      ArcEnds(st, o);
      o := st.Link(ins)[o].next;
      CopyNext(st, a, newState, ins, A, oa, i, oldState, oids, nids, na, j);
      RestNext(st, ins, oldState, oids, oa, i);
      i := i + 1;
    }
    RestNext(st, ins, oldState, oids, oa, i);
    FirstAll(oa, Side(A, oldState, ins));
  }

  /** Merges the arcs of the array, which may repeat each other, into the inarcs of s. */
  method MergeIns(st: ArcStore, s: nat, arcarray: array<Arc>)
    requires st.Valid() && s in st.states && forall a :: a in arcarray[..] ==> a.from in st.states
    modifies st, arcarray
    ensures st.Valid() && st.Arcs() == old(st.Arcs()) + Enter(First(old(arcarray[..]), arcarray.Length), s)
  {
    hide Compare, ArcStore.Valid, Rest, StrictlyOrdered, ArcsOf, Chained, Enter, First;
    if arcarray.Length == 0 {
      NoneFirst(arcarray[..], s);
      return;
    }
    ghost var given := arcarray[..];
    SortChain(st, true, s);
    SortArray(arcarray, true);
    ghost var sorted := arcarray[..];
    SameFirst(given, sorted);
    var count := DropRepeats(arcarray);
    ghost var oa := arcarray[..count];
    KeptFacts(sorted, oa, s);
    MergeSorted(st, s, arcarray, count);
  }

  /** Walks the sorted array and the sorted in-chain of s, and adds what s does not have. */
  method MergeSorted(st: ArcStore, s: nat, arcarray: array<Arc>, count: nat)
    requires st.Valid() && s in st.states && count <= arcarray.Length && StrictlyOrdered(arcarray[..count], true)
    requires forall a :: a in arcarray[..count] ==> a.from in st.states
    requires s in st.inChain && StrictlyOrdered(Along(st.what, st.inChain[s]), true)
    modifies st
    ensures st.Valid() && st.Arcs() == old(st.Arcs()) + Enter(First(arcarray[..count], count), s)
  {
    hide Compare, ArcStore.Valid, Rest, StrictlyOrdered, ArcsOf, Chained, HangAll, First;
    ghost var A, oa := st.Arcs(), arcarray[..count];
    ghost var nids := st.inChain[s];
    ghost var na := Along(st.what, nids);
    AlongIs(st, true, s);
    RestAll(st, true, s);
    var n := st.inHead[s];
    var i: nat := 0;
    ghost var j: nat := 0;
    HangNone(oa, s, true);
    while i < count && n != NULL
      invariant st.Valid() && Rest(st, true, s, nids, na, j) && i <= count && j <= |nids| && n == At(nids, j)
      invariant Merging(oa, na, i, j, true) && st.Arcs() == A + HangAll(First(oa, i), s, true)
      decreases count - i + |nids| - j
    {
      RestNext(st, true, s, nids, na, j);
      MergeNext(oa, na, i, j, true);
      FirstNext(oa, i, s, true);
      var c := Compare(arcarray[i], st.what[n], true);
      if c < 0 {
        NoCounterpart(oa, na, i, j, true);
        MergeOne(st, arcarray[i], s, A, oa, i, nids, na, j);
        i := i + 1;
      } else if c == 0 {
        HungAlready(A, oa[i], na[j], s, true);
        assert na[j] in na && na[j] in A;
        n, i, j := st.inLink[n].next, i + 1, j + 1;
      } else {
        n, j := st.inLink[n].next, j + 1;
      }
    }
    while i < count
      invariant st.Valid() && Rest(st, true, s, nids, na, j) && i <= count && j <= |nids|
      invariant Merging(oa, na, i, j, true) && st.Arcs() == A + HangAll(First(oa, i), s, true)
      invariant i < count ==> j == |nids|
    {
      NoCounterpart(oa, na, i, j, true);
      MergeOne(st, arcarray[i], s, A, oa, i, nids, na, j);
      i := i + 1;
    }
    EnterIsHung(First(oa, count), s);
  }

  /** Adds one arc of the array that s does not have. */
  method MergeOne(st: ArcStore, a: Arc, s: nat, ghost A: set<Arc>, ghost oa: seq<Arc>, ghost i: nat,
                  ghost nids: seq<nat>, ghost na: seq<Arc>, ghost j: nat)
    requires st.Valid() && s in st.states && i < |oa| && a == oa[i] && a.from in st.states
    requires Rest(st, true, s, nids, na, j) && StrictlyOrdered(oa, true) && (forall a :: a in na <==> a in Ins(A, s))
    requires forall l :: 0 <= l < |na| ==> Compare(oa[i], na[l], true) != 0
    requires st.Arcs() == A + HangAll(First(oa, i), s, true)
    modifies st
    ensures st.Valid() && st.Arcs() == A + HangAll(First(oa, i + 1), s, true) && Rest(st, true, s, nids, na, j)
  {
    hide Compare, ArcStore.Valid, Rest, First, HangAll, StrictlyOrdered, ArcsOf;
    NotHungYet(A, oa, na, i, s, true);
    FirstNext(oa, i, s, true);
    AddArc(st, a.(to := s), true, s, nids, na, j, s, nids, na, j);
  }

  // ---------------------------------------------------------------- one by one

  /** Moves the arcs at one side of a state one at a time. */
  method MoveOneByOne(st: ArcStore, oldState: nat, newState: nat, ins: bool)
    requires st.Valid() && oldState in st.states && newState in st.states && oldState != newState
    modifies st
    ensures st.Valid()
    ensures var S := Side(old(st.Arcs()), oldState, ins); st.Arcs() == old(st.Arcs()) - S + HangAll(S, newState, ins)
  {
    hide ArcStore.Valid, ArcsOf, Chained, HangAll, Shortened;
    ghost var A := st.Arcs();
    ghost var moved: set<Arc> := {};
    NoneMoved(A, newState, ins);
    AlongIs(st, ins, oldState);
    var o := st.Head(ins)[oldState];
    while o != NULL
      invariant st.Valid() && oldState in st.Head(ins) && oldState in st.Chain(ins) && o == st.Head(ins)[oldState]
      invariant moved <= Side(A, oldState, ins) && st.Arcs() == A - moved + HangAll(moved, newState, ins)
      decreases |st.Chain(ins)[oldState]|
    {
      AlongIs(st, ins, oldState);
      ghost var c := st.Chain(ins)[oldState];
      assert c[0] in c;
      var a := st.what[o];
      ArcEnds(st, o);
      StillThere(A, moved, oldState, newState, ins, a, st.Arcs());
      NewArc(st, Hang(a, newState, ins));
      assert st.Chain(ins)[oldState] == c;
      OnlyOnce(st);
      FewerArcs(st.what, o);
      st.FreeArc(o);
      HeadFreed(c, o, st.Chain(ins)[oldState]);
      moved := moved + {a};
      AlongIs(st, ins, oldState);
      o := st.Head(ins)[oldState];
    }
    AlongIs(st, ins, oldState);
    AllMoved(A, moved, oldState, newState, ins, st.Arcs(), Along(st.what, st.Chain(ins)[oldState]));
  }

  lemma NoneMoved(A: set<Arc>, x: nat, ins: bool)
    ensures A - {} + HangAll({}, x, ins) == A
  {
  }

  /** An arc that still hangs at oldState is an original one that has not been moved. */
  lemma StillThere(A: set<Arc>, moved: set<Arc>, oldState: nat, newState: nat, ins: bool, a: Arc, B: set<Arc>)
    requires moved <= Side(A, oldState, ins) && B == A - moved + HangAll(moved, newState, ins) && oldState != newState
    requires a in B && Far(a, !ins) == oldState
    ensures a in Side(A, oldState, ins) && a !in moved && a !in HangAll(moved + {a}, newState, ins)
    ensures HangAll(moved + {a}, newState, ins) == HangAll(moved, newState, ins) + {Hang(a, newState, ins)}
    ensures B + {Hang(a, newState, ins)} - {a} == A - (moved + {a}) + HangAll(moved + {a}, newState, ins)
  {
  }

  lemma HeadFreed(c: seq<nat>, o: nat, r: seq<nat>)
    requires c != [] && c[0] == o && Shortened(c, o, r)
    ensures |r| < |c|
  {
    assert c[0] in c;
  }

  lemma AllMoved(A: set<Arc>, moved: set<Arc>, oldState: nat, newState: nat, ins: bool, B: set<Arc>, left: seq<Arc>)
    requires moved <= Side(A, oldState, ins) && B == A - moved + HangAll(moved, newState, ins)
    requires left == [] && forall a :: a in left <==> a in Side(B, oldState, ins)
    ensures moved == Side(A, oldState, ins)
  {
    assert forall a :: a !in Side(B, oldState, ins);
    assert forall a :: a in Side(A, oldState, ins) ==> a in moved || a in Side(B, oldState, ins);
  }

  /** Copies the arcs at one side of a state one at a time. */
  method CopyOneByOne(st: ArcStore, oldState: nat, newState: nat, ins: bool)
    requires st.Valid() && oldState in st.states && newState in st.states && oldState != newState
    modifies st
    ensures st.Valid() && st.Arcs() == old(st.Arcs()) + HangAll(Side(old(st.Arcs()), oldState, ins), newState, ins)
  {
    hide ArcStore.Valid, ArcsOf, Chained, HangAll, First;
    ghost var A := st.Arcs();
    AlongIs(st, ins, oldState);
    ghost var c := st.Chain(ins)[oldState];
    ghost var oa := Along(st.what, c);
    HangNone(oa, newState, ins);
    FirstAll(oa, Side(A, oldState, ins));
    var o := st.Head(ins)[oldState];
    ghost var i := 0;
    while o != NULL
      invariant st.Valid() && oldState in st.Chain(ins) && st.Chain(ins)[oldState] == c && i <= |c| && o == At(c, i)
      invariant forall j :: 0 <= j < |c| ==> c[j] in st.what && st.what[c[j]] == oa[j]
      invariant st.Arcs() == A + HangAll(First(oa, i), newState, ins)
      decreases |c| - i
    {
      AlongIs(st, ins, oldState);
      assert c[i] in c;
      var a := st.what[o];
      ArcEnds(st, o);
      NewArc(st, Hang(a, newState, ins));
      FirstNext(oa, i, newState, ins);
      AlongIs(st, ins, oldState);
      NextInChain(st.Link(ins), st.Head(ins)[oldState], c, i);
      o := st.Link(ins)[o].next;
      i := i + 1;
    }
    AlongIs(st, ins, oldState);
    NullEnds(c, i);
  }

  // ---------------------------------------------------------------- the choice

  /** Which arcs there are once those on one side of a state hang on another, or have copies there. */
  lemma Rehung(A: set<Arc>, oldState: nat, newState: nat)
    ensures forall b :: b in HangAll(Side(A, oldState, true), newState, true) <==> b.to == newState && b.(to := oldState) in A
    ensures forall b :: b in HangAll(Side(A, oldState, false), newState, false) <==> b.from == newState && b.(from := oldState) in A
  {
    forall b: Arc | b.to == newState && b.(to := oldState) in A ensures b in HangAll(Side(A, oldState, true), newState, true) {
      assert b == b.(to := oldState).(to := newState);
    }
    forall b: Arc | b.from == newState && b.(from := oldState) in A ensures b in HangAll(Side(A, oldState, false), newState, false) {
      assert b == b.(from := oldState).(from := newState);
    }
  }

  /** Moves the arcs that enter (leave) one state to another. */
  method MoveArcs(st: ArcStore, oldState: nat, newState: nat, ins: bool)
    requires st.Valid() && oldState in st.states && newState in st.states && oldState != newState
    modifies st
    ensures st.Valid()
    ensures ins ==> forall b :: b in st.Arcs() <==>
              (b in old(st.Arcs()) && b.to != oldState) || (b.to == newState && b.(to := oldState) in old(st.Arcs()))
    ensures !ins ==> forall b :: b in st.Arcs() <==>
              (b in old(st.Arcs()) && b.from != oldState) || (b.from == newState && b.(from := oldState) in old(st.Arcs()))
  {
    hide ArcStore.Valid, HangAll;
    AlongIs(st, ins, oldState);
    AlongIs(st, ins, newState);
    Rehung(st.Arcs(), oldState, newState);
    if BulkArcOpUseSort(st.Count(ins)[oldState], st.Count(ins)[newState]) {
      MoveSorted(st, oldState, newState, ins);
    } else {
      MoveOneByOne(st, oldState, newState, ins);
    }
  }

  /** Copies the arcs that enter (leave) one state to another. */
  method CopyArcs(st: ArcStore, oldState: nat, newState: nat, ins: bool)
    requires st.Valid() && oldState in st.states && newState in st.states && oldState != newState
    modifies st
    ensures st.Valid()
    ensures ins ==> forall b :: b in st.Arcs() <==> b in old(st.Arcs()) || (b.to == newState && b.(to := oldState) in old(st.Arcs()))
    ensures !ins ==> forall b :: b in st.Arcs() <==> b in old(st.Arcs()) || (b.from == newState && b.(from := oldState) in old(st.Arcs()))
  {
    hide ArcStore.Valid, HangAll;
    AlongIs(st, ins, oldState);
    AlongIs(st, ins, newState);
    Rehung(st.Arcs(), oldState, newState);
    if BulkArcOpUseSort(st.Count(ins)[oldState], st.Count(ins)[newState]) {
      CopySorted(st, oldState, newState, ins);
    } else {
      CopyOneByOne(st, oldState, newState, ins);
    }
  }
}
