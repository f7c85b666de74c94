/** Looking for loops of constraint arcs by a marking depth-first search. */
module ConstraintLoops {
  import opened NfaGraph
  import opened PullStep
  import opened WordReading
  import FixEmpties

  /** A constraint arc leads from x to y. */
  ghost predicate Constrains(A: set<Arc>, x: nat, y: nat) {
    exists a :: a in A && IsConstraint(a.ty) && a.from == x && a.to == y
  }

  /** A chain of constraint arcs, each to the state that the mark of its source names. */
  ghost predicate Chain(A: set<Arc>, tmp: map<nat, nat>, c: seq<nat>, next: nat) {
    forall i :: 0 <= i < |c| ==> LinkAt(A, tmp, c, next, i)
  }

  ghost predicate LinkAt(A: set<Arc>, tmp: map<nat, nat>, c: seq<nat>, next: nat, i: nat)
    requires i < |c|
  {
    c[i] in tmp && tmp[c[i]] == (if i + 1 < |c| then c[i + 1] else next) && Constrains(A, c[i], tmp[c[i]])
  }

  /** The marks lead from z through a loop of constraint arcs back to z. */
  ghost predicate LoopAt(A: set<Arc>, tmp: map<nat, nat>, z: nat) {
    exists c: seq<nat> :: |c| > 0 && c[0] == z && Chain(A, tmp, c, z)
  }

  /** Every constraint arc out of a state in the list leads to a state before it in the list. */
  ghost predicate Topological(A: set<Arc>, order: seq<nat>) {
    forall i, y :: 0 <= i < |order| && Constrains(A, order[i], y) ==> y in order[..i]
  }

  /** The marks during the search: the states of order point to themselves and are done with, the
      states of path lead on to s, and no others are marked. */
  ghost predicate Marks(A: set<Arc>, tmp: map<nat, nat>, path: seq<nat>, s: nat, order: seq<nat>) {
    && (forall x :: x in order ==> x in tmp && tmp[x] == x)
    && (forall x :: x in tmp ==> x in order || x in path)
    && (forall x :: x in path ==> x !in order)
    && (forall i, j :: 0 <= i < j < |path| ==> path[i] != path[j])
    && Chain(A, tmp, path, s) && Topological(A, order)
  }

  lemma LoopFound(A: set<Arc>, tmp: map<nat, nat>, path: seq<nat>, s: nat, order: seq<nat>)
    requires Marks(A, tmp, path, s, order) && s in path
    ensures LoopAt(A, tmp, s)
  {
    var i :| 0 <= i < |path| && path[i] == s;
    var c := path[i..];
    assert c[0] == s;
    assert Chain(A, tmp, c, s) by {
      forall k | 0 <= k < |c| ensures LinkAt(A, tmp, c, s, k) {
        assert LinkAt(A, tmp, path, s, i + k);
      }
    }
  }

  /** Entering s: it is marked with the state its first unexplored constraint leads to. */
  lemma MarkEnter(A: set<Arc>, tmp: map<nat, nat>, path: seq<nat>, s: nat, order: seq<nat>, y: nat)
    requires Marks(A, tmp, path, s, order) && s !in path && s !in order && Constrains(A, s, y) && s != y
    ensures Marks(A, tmp[s := y], path + [s], y, order)
  {
    var tmp', path' := tmp[s := y], path + [s];
    forall i | 0 <= i < |path'| ensures LinkAt(A, tmp', path', y, i) {
      if i < |path| {
        assert LinkAt(A, tmp, path, s, i) && path[i] in path;
      }
    }
  }

  lemma MarkReturn(A: set<Arc>, tmp: map<nat, nat>, path: seq<nat>, s: nat, order: seq<nat>, y: nat)
    requires Marks(A, tmp, path + [s], y, order)
    ensures Marks(A, tmp - {s}, path, s, order) && s !in path && s !in order && s in tmp
  {
    var path' := path + [s];
    assert path'[|path|] == s;
    assert LinkAt(A, tmp, path', y, |path|);
    forall i | 0 <= i < |path| ensures LinkAt(A, tmp - {s}, path, s, i) {
      assert LinkAt(A, tmp, path', y, i) && path'[i] != path'[|path|];
    }
    forall x | x in path ensures x in path' && x != s {
      var i :| 0 <= i < |path| && path[i] == x;
      assert path'[i] == x && path'[i] != path'[|path|];
    }
    forall i, j | 0 <= i < j < |path| ensures path[i] != path[j] {
      assert path'[i] != path'[j];
    }
    forall x | x in tmp - {s} ensures x in order || x in path {
      if x in path' {
        var i :| 0 <= i < |path'| && path'[i] == x;
        assert i < |path|;
      }
    }
  }

  /** Leaving s: everything its constraints lead to is done with, and now s is. */
  lemma MarkDone(A: set<Arc>, tmp: map<nat, nat>, path: seq<nat>, s: nat, order: seq<nat>)
    requires Marks(A, tmp - {s}, path, s, order) && s !in path && s !in order && (forall y :: Constrains(A, s, y) ==> y in order)
    ensures Marks(A, tmp[s := s], path, s, order + [s])
  {
    var order' := order + [s];
    forall i, y | 0 <= i < |order'| && Constrains(A, order'[i], y) ensures y in order'[..i] {
      if i < |order| {
        assert order'[i] == order[i] && order'[..i] == order[..i];
      } else {
        assert order'[..i] == order;
      }
    }
    assert forall x :: x in order' <==> x in order || x == s;
    var tmp' := tmp[s := s];
    forall i | 0 <= i < |path| ensures LinkAt(A, tmp', path, s, i) {
      assert LinkAt(A, tmp - {s}, path, s, i);
    }
  }

  lemma NotMarked(A: set<Arc>, tmp: map<nat, nat>, path: seq<nat>, s: nat, order: seq<nat>)
    requires Marks(A, tmp, path, s, order) && s !in tmp
    ensures s !in path && s !in order
  {
    forall i | 0 <= i < |path| ensures path[i] != s {
      assert LinkAt(A, tmp, path, s, i);
    }
  }

  /** Searches for a constraint loop from s; returns one of its states, or nothing if no constraints
      lead from s to a loop. */
  method FindConstraintLoop(A: set<Arc>, s: nat, tmp0: map<nat, nat>, ghost path: seq<nat>, ghost order0: seq<nat>, ghost S: set<nat>)
    returns (loop: int, tmp: map<nat, nat>, ghost order: seq<nat>)
    requires Marks(A, tmp0, path, s, order0)
    requires s in S && (forall a :: a in A ==> a.to in S) && tmp0.Keys <= S
    requires forall a :: a in A && IsConstraint(a.ty) ==> a.from != a.to
    ensures loop == -1 ==> Marks(A, tmp, path, s, order) && order0 <= order && s in order && tmp.Keys <= S
    ensures loop != -1 ==> loop >= 0 && LoopAt(A, tmp, loop)
    decreases S - tmp0.Keys
  {
    hide Topological, Chain, Constrains, LoopAt;
    tmp, order := tmp0, order0;
    if s in tmp {
      if tmp[s] == s {
        OnlyDone(A, tmp, path, s, order);
        return -1, tmp, order;
      }
      LoopFound(A, tmp, path, s, order);
      return s, tmp, order;
    }
    var todo := set a | a in A && a.from == s && IsConstraint(a.ty);
    ghost var done: set<Arc> := {};
    assert tmp0 - {s} == tmp0;
    NotMarked(A, tmp, path, s, order);
    while todo != {}
      invariant done + todo == set a | a in A && a.from == s && IsConstraint(a.ty)
      invariant Marks(A, tmp - {s}, path, s, order) && s !in path && s !in order
      invariant order0 <= order && tmp.Keys <= S && tmp0.Keys <= tmp.Keys
      invariant forall a :: a in done ==> a.to in order
      decreases todo
    {
      var a :| a in todo;
      ConstrainsBy(A, a);
      MarkEnter(A, tmp - {s}, path, s, order, a.to);
      ghost var before, marked := order, (tmp - {s})[s := a.to];
      tmp := tmp[s := a.to];
      assert tmp == marked;
      assert s in S - tmp0.Keys && s !in S - tmp.Keys;
      loop, tmp, order := FindConstraintLoop(A, a.to, tmp, path + [s], order, S);
      if loop != -1 {
        return;
      }
      MarkReturn(A, tmp, path, s, order, a.to);
      KeysKept(A, tmp0, path, s, order0, tmp - {s}, order);
      PrefixKeeps(before, order, done);
      todo, done := todo - {a}, done + {a};
    }
    AllDone(A, s, done, order);
    MarkDone(A, tmp, path, s, order);
    tmp, order := tmp[s := s], order + [s];
    return -1, tmp, order;
  }

  lemma OnlyDone(A: set<Arc>, tmp: map<nat, nat>, path: seq<nat>, s: nat, order: seq<nat>)
    requires Marks(A, tmp, path, s, order) && s in tmp && tmp[s] == s
    requires forall a :: a in A && IsConstraint(a.ty) ==> a.from != a.to
    ensures s in order
  {
    assert !Constrains(A, s, s);
    forall i | 0 <= i < |path| ensures path[i] != s {
      assert LinkAt(A, tmp, path, s, i);
    }
  }

  lemma ConstrainsBy(A: set<Arc>, a: Arc)
    requires a in A && IsConstraint(a.ty)
    ensures Constrains(A, a.from, a.to)
  {
  }

  lemma AllDone(A: set<Arc>, s: nat, done: set<Arc>, order: seq<nat>)
    requires done == (set a | a in A && a.from == s && IsConstraint(a.ty)) && forall a :: a in done ==> a.to in order
    ensures forall y :: Constrains(A, s, y) ==> y in order
  {
  }

  lemma PrefixKeeps(o: seq<nat>, o': seq<nat>, done: set<Arc>)
    requires o <= o' && forall a :: a in done ==> a.to in o
    ensures forall a :: a in done ==> a.to in o'
  {
    forall a | a in done ensures a.to in o' {
      var i :| 0 <= i < |o| && o[i] == a.to;
      assert o'[i] == a.to;
    }
  }

  /** Marked states stay marked. */
  lemma KeysKept(A: set<Arc>, tmp0: map<nat, nat>, path: seq<nat>, s: nat, order0: seq<nat>, tmp: map<nat, nat>, order: seq<nat>)
    requires Marks(A, tmp0, path, s, order0) && Marks(A, tmp, path, s, order) && order0 <= order
    ensures tmp0.Keys <= tmp.Keys
  {
    forall x | x in tmp0 ensures x in tmp {
      if x in path {
        var i :| 0 <= i < |path| && path[i] == x;
        assert LinkAt(A, tmp, path, s, i);
      } else {
        var i :| 0 <= i < |order0| && order0[i] == x;
        assert order[i] == x;
      }
    }
  }

  // ---------------------------------------------------------------- the scan

  /** A list in which constraints only lead backward ranks its states. */
  lemma OrderRanks(A: set<Arc>, order: seq<nat>) returns (rank: map<nat, nat>)
    requires Topological(A, order) && forall a :: a in A && IsConstraint(a.ty) ==> a.from in order
    ensures Ranked(A, rank)
  {
    rank := map x | x in order :: RankIn(order, x);
    forall a | a in A && IsConstraint(a.ty) ensures a.from in rank && a.to in rank && rank[a.from] < rank[a.to] {
      var i := |order| - 1 - RankIn(order, a.from);
      RankIs(order, a.from);
      assert Constrains(A, order[i], a.to);
      assert a.to in order[..i];
      var j :| 0 <= j < i && order[j] == a.to;
      RankIs(order, a.to);
      FirstComesFirst(order, a.to, j);
    }
  }

  /** How many entries follow the first entry x. */
  ghost function RankIn(order: seq<nat>, x: nat): (r: nat)
    requires x in order
    ensures r < |order|
  {
    if order[0] == x then |order| - 1 else RankIn(order[1..], x)
  }

  lemma {:induction false} RankIs(order: seq<nat>, x: nat)
    requires x in order
    ensures order[|order| - 1 - RankIn(order, x)] == x
  {
    if order[0] != x {
      RankIs(order[1..], x);
    }
  }

  lemma {:induction false} FirstComesFirst(order: seq<nat>, x: nat, j: nat)
    requires j < |order| && order[j] == x
    ensures |order| - 1 - RankIn(order, x) <= j
  {
    if order[0] != x {
      FirstComesFirst(order[1..], x, j - 1);
    }
  }

  /** A loop of constraints excludes every ranking. */
  lemma LoopUnranked(A: set<Arc>, tmp: map<nat, nat>, z: nat, rank: map<nat, nat>)
    requires LoopAt(A, tmp, z)
    ensures !Ranked(A, rank)
  {
    var c: seq<nat> :| |c| > 0 && c[0] == z && Chain(A, tmp, c, z);
    if Ranked(A, rank) {
      ChainRises(A, tmp, c, z, rank, |c| - 1);
    }
  }

  lemma {:induction false} ChainRises(A: set<Arc>, tmp: map<nat, nat>, c: seq<nat>, z: nat, rank: map<nat, nat>, k: nat)
    requires Chain(A, tmp, c, z) && Ranked(A, rank) && k < |c|
    ensures var y := if k + 1 < |c| then c[k + 1] else z;
            c[0] in rank && y in rank && rank[c[0]] < rank[y]
  {
    assert LinkAt(A, tmp, c, z, k);
    if k > 0 {
      ChainRises(A, tmp, c, z, rank, k - 1);
    }
  }

  /** Scans all states. It finds a loop exactly if there is one. */
  method Scan(n: Nfa) returns (loop: int, ghost rank: map<nat, nat>)
    requires n.Valid() && forall a :: a in n.arcs && IsConstraint(a.ty) ==> a.from != a.to
    ensures loop == -1 ==> Ranked(n.arcs, rank)
    ensures loop != -1 ==> forall any: map<nat, nat> :: !Ranked(n.arcs, any)
  {
    hide Topological, Chain, LoopAt;
    var tmp: map<nat, nat> := map[];
    ghost var order: seq<nat> := [];
    var i := 0;
    NothingMarked(n.arcs);
    rank := map[];
    while i < |n.states|
      invariant i <= |n.states| && Marks(n.arcs, tmp, [], 0, order) && tmp.Keys <= set x | x in n.states
      invariant forall k :: 0 <= k < i ==> n.states[k] in order
    {
      var s := n.states[i];
      AnyNext(n.arcs, tmp, order, 0, s);
      ghost var before := order;
      loop, tmp, order := FindConstraintLoop(n.arcs, s, tmp, [], order, set x | x in n.states);
      if loop != -1 {
        forall any: map<nat, nat> ensures !Ranked(n.arcs, any) {
          LoopUnranked(n.arcs, tmp, loop, any);
        }
        return;
      }
      AnyNext(n.arcs, tmp, order, s, 0);
      forall k | 0 <= k < i ensures n.states[k] in order {
        var j :| 0 <= j < |before| && before[j] == n.states[k];
        assert order[j] == n.states[k];
      }
      i := i + 1;
    }
    loop := -1;
    rank := OrderRanks(n.arcs, order);
  }

  lemma NothingMarked(A: set<Arc>)
    ensures Marks(A, map[], [], 0, [])
  {
  }

  lemma AnyNext(A: set<Arc>, tmp: map<nat, nat>, order: seq<nat>, s: nat, s': nat)
    requires Marks(A, tmp, [], s, order)
    ensures Marks(A, tmp, [], s', order)
  {
  }

  // ---------------------------------------------------------------- loops of a single arc

  /** The constraints that lead from a state to itself. */
  ghost function SelfLoops(A: set<Arc>): set<Arc> {
    set a | a in A && IsConstraint(a.ty) && a.from == a.to
  }

  /** Dropping any of them changes nothing. */
  lemma SelfLoopsIdle(g: Ends, A: set<Arc>, D: set<Arc>)
    requires Regular(g, A) && D <= SelfLoops(A)
    ensures SameLanguage(g, A, A - D)
  {
    var B := A - D;
    forall r: Reading | r.g == g ensures r.Accepts(A) <==> r.Accepts(B) {
      forall P ensures r.Closed(A, P) <==> r.Closed(B, P) {
        if r.Closed(B, P) {
          forall a, i: nat, j: nat | a in A && (a.from, i) in P && r.Takes(a, i, j) ensures (a.to, j) in P {
            if a in B {
              ClosedTakes(r, B, P, a, i, j);
            }
          }
          IsClosed(r, A, P);
        }
        if r.Closed(A, P) {
          forall a, i: nat, j: nat | a in B && (a.from, i) in P && r.Takes(a, i, j) ensures (a.to, j) in P {
            ClosedTakes(r, A, P, a, i, j);
          }
          IsClosed(r, B, P);
        }
      }
      ClosedAlike(r, A, B);
    }
  }

  /** What the pass over the states has done before position i. */
  ghost predicate Tidied(g: Ends, A: set<Arc>, n: Nfa, i: nat, hasconstraints: bool)
    reads n
  {
    && n.Valid() && n.pre == g.pre && n.post == g.post && i <= |n.states|
    && n.arcs <= A && Regular(g, n.arcs) && SameLanguage(g, A, n.arcs)
    && forall a, k :: 0 <= k < i && a in n.arcs && a.from == n.states[k] && IsConstraint(a.ty) ==> a.to != a.from && hasconstraints
  }

  /** Drops the constraints that lead from a state to itself, and the states that are left without outarcs. */
  method DropSelfLoops(n: Nfa, g: Ends) returns (hasconstraints: bool)
    requires n.Valid() && n.pre == g.pre && n.post == g.post && Regular(g, n.arcs)
    modifies n`arcs, n`states
    ensures n.Valid() && n.arcs <= old(n.arcs) && Regular(g, n.arcs) && SameLanguage(g, old(n.arcs), n.arcs)
    ensures forall a :: a in n.arcs && IsConstraint(a.ty) ==> a.from != a.to && hasconstraints
  {
    hide SameLanguage, Tidied;
    ghost var A := n.arcs;
    var i := 0;
    hasconstraints := false;
    NothingTidied(g, A, n);
    while i < |n.states|
      invariant n.Valid() && n.pre == g.pre && n.post == g.post && i <= |n.states| && Tidied(g, A, n, i, hasconstraints)
      decreases |n.states| - i
    {
      var s := n.states[i];
      var outs := set a | a in n.arcs && a.from == s && IsConstraint(a.ty);
      var loops := set a | a in outs && a.to == s;
      FreeLoops(n, g, A, i, hasconstraints, loops);
      TidiedNext(g, A, n, i, hasconstraints, hasconstraints || outs != loops);
      hasconstraints := hasconstraints || outs != loops;
      if Outs(n.arcs, s) == {} && !n.Flag(s) {
        DropEmptied(n, g, A, i, hasconstraints);
      } else {
        i := i + 1;
      }
    }
    AllTidied(g, A, n, hasconstraints);
  }

  lemma NothingTidied(g: Ends, A: set<Arc>, n: Nfa)
    requires n.Valid() && n.pre == g.pre && n.post == g.post && n.arcs == A && Regular(g, A)
    ensures Tidied(g, A, n, 0, false)
  {
    SelfLoopsIdle(g, A, {});
    assert A - {} == A;
  }

  lemma TidiedNext(g: Ends, A: set<Arc>, n: Nfa, i: nat, has: bool, has': bool)
    requires Tidied(g, A, n, i, has) && i < |n.states| && (has ==> has')
    requires forall a :: a in n.arcs && a.from == n.states[i] && IsConstraint(a.ty) ==> a.to != a.from && has'
    ensures Tidied(g, A, n, i, has') && Tidied(g, A, n, i + 1, has')
  {
    hide SameLanguage, Regular;
  }

  lemma AllTidied(g: Ends, A: set<Arc>, n: Nfa, has: bool)
    requires Tidied(g, A, n, |n.states|, has)
    ensures n.Valid() && n.arcs <= A && Regular(g, n.arcs) && SameLanguage(g, A, n.arcs)
    ensures forall a :: a in n.arcs && IsConstraint(a.ty) ==> a.from != a.to && has
  {
    hide SameLanguage, Regular;
    forall a | a in n.arcs && IsConstraint(a.ty) ensures a.from != a.to && has {
      var k :| 0 <= k < |n.states| && n.states[k] == a.from;
    }
  }

  method FreeLoops(n: Nfa, g: Ends, ghost A: set<Arc>, ghost i: nat, ghost has: bool, loops: set<Arc>)
    requires Tidied(g, A, n, i, has) && loops <= SelfLoops(n.arcs)
    modifies n`arcs
    ensures n.Valid() && n.arcs == old(n.arcs) - loops && Tidied(g, A, n, i, has)
  {
    hide SameLanguage, Regular;
    ghost var B := n.arcs;
    var todo := loops;
    while todo != {}
      invariant n.Valid() && todo <= loops && n.arcs == B - (loops - todo)
      decreases todo
    {
      var a :| a in todo;
      n.FreeArc(a);
      todo := todo - {a};
    }
    assert loops - todo == loops;
    SelfLoopsIdle(g, B, loops);
    SameTrans(g, A, B, n.arcs);
    FewerRegular(g, B, n.arcs);
  }

  lemma FewerRegular(g: Ends, A: set<Arc>, B: set<Arc>)
    requires Regular(g, A) && B <= A
    ensures Regular(g, B)
  {
  }

  /** Drops a state without outarcs. */
  method DropEmptied(n: Nfa, g: Ends, ghost A: set<Arc>, i: nat, ghost has: bool)
    requires Tidied(g, A, n, i, has) && i < |n.states| && Outs(n.arcs, n.states[i]) == {} && !n.Flag(n.states[i])
    modifies n`arcs, n`states
    ensures n.Valid() && Tidied(g, A, n, i, has) && i <= |n.states| == |old(n.states)| - 1
  {
    hide SameLanguage, Regular;
    ghost var B, S, s := n.arcs, n.states, n.states[i];
    DropAt(n, i);
    EmptiedUseless(g, B, n.arcs, s);
    SameTrans(g, A, B, n.arcs);
    FewerRegular(g, B, n.arcs);
    assert forall k :: 0 <= k < i ==> n.states[k] == S[k];
  }

  method DropAt(n: Nfa, i: nat)
    requires n.Valid() && i < |n.states| && !n.Flag(n.states[i])
    modifies n`arcs, n`states
    ensures n.Valid() && n.arcs == old(n.arcs) - Ins(old(n.arcs), old(n.states)[i]) - Outs(old(n.arcs), old(n.states)[i])
    ensures n.states == old(n.states)[..i] + old(n.states)[i + 1..]
  {
    n.DropState(n.states[i]);
  }

  lemma EmptiedUseless(g: Ends, A: set<Arc>, B: set<Arc>, s: nat)
    requires Outs(A, s) == {} && s != g.post && B == A - Ins(A, s) - Outs(A, s)
    ensures SameLanguage(g, A, B)
  {
    DropUseless(g, A, B);
  }

  /** Drops the constraints that lead from a state to itself, then looks for longer loops. When there is
      none, the constraints are ranked; breaking a loop that is found is not part of this. */
  method FixConstraintLoops(n: Nfa, g: Ends) returns (loop: int, ghost rank: map<nat, nat>)
    requires n.Valid() && n.pre == g.pre && n.post == g.post && Regular(g, n.arcs)
    modifies n`arcs, n`states
    ensures n.Valid() && Regular(g, n.arcs) && SameLanguage(g, old(n.arcs), n.arcs)
    ensures n.arcs <= old(n.arcs)
    ensures loop == -1 ==> Ranked(n.arcs, rank)
    ensures loop != -1 ==> forall any: map<nat, nat> :: !Ranked(n.arcs, any)
  {
    hide SameLanguage, Regular, FixEmpties.SameWalks;
    ghost var A := n.arcs;
    var hasconstraints := DropSelfLoops(n, g);
    if !hasconstraints {
      return -1, map[];
    }
    loop, rank := Scan(n);
    if loop == -1 {
      ghost var B := n.arcs;
      FixEmpties.DropUselessStates(n, g);
      FixEmpties.SameWords(g, B, n.arcs);
      SameTrans(g, A, B, n.arcs);
      FewerRegular(g, B, n.arcs);
    }
  }
}
