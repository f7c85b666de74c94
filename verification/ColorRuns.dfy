/** The meaning of an NFA whose arcs are all plain: which states a colour word
    leads to, told by sets, by walks, and by the compacted NFA. */
module ColorRuns {
  import opened NfaGraph
  import opened CompactNfa

  /** p is the sequence of states on a walk that reads the word w. */
  ghost predicate Walk(A: set<Arc>, w: seq<nat>, p: seq<nat>) {
    |p| == |w| + 1 && forall k :: 0 <= k < |w| ==> Arc(PLAIN, w[k], p[k], p[k + 1]) in A
  }

  /** The NFA accepts w: some walk from pre to post reads it. */
  ghost predicate Accepted(A: set<Arc>, pre: nat, post: nat, w: seq<nat>) {
    exists p :: Walk(A, w, p) && p[0] == pre && p[|w|] == post
  }

  ghost function Reads(A: set<Arc>, S: set<nat>, co: nat): set<nat> {
    set a | a in A && a.ty == PLAIN && a.co == co && a.from in S :: a.to
  }

  /** The states that w leads to from S. */
  ghost function Run(A: set<Arc>, S: set<nat>, w: seq<nat>): set<nat> {
    if w == [] then S else Reads(A, Run(A, S, w[..|w| - 1]), w[|w| - 1])
  }

  /** Subset simulation and walks agree. */
  lemma {:induction false} RunIsWalks(A: set<Arc>, s: nat, w: seq<nat>, t: nat)
    ensures t in Run(A, {s}, w) <==> exists p :: Walk(A, w, p) && p[0] == s && p[|w|] == t
  {
    if w == [] {
      assert s == t ==> Walk(A, w, [s]) && [s][0] == s && [s][|w|] == t;
    } else {
      var n := |w| - 1;
      if t in Run(A, {s}, w) {
        var a :| a in A && a.ty == PLAIN && a.co == w[n] && a.from in Run(A, {s}, w[..n]) && a.to == t;
        RunIsWalks(A, s, w[..n], a.from);
        var p :| Walk(A, w[..n], p) && p[0] == s && p[n] == a.from;
        assert a == Arc(PLAIN, w[n], a.from, t);
        assert forall k :: 0 <= k < n ==> Arc(PLAIN, w[..n][k], p[k], p[k + 1]) in A;
        assert Walk(A, w, p + [t]);
      }
      if exists p :: Walk(A, w, p) && p[0] == s && p[|w|] == t {
        var p :| Walk(A, w, p) && p[0] == s && p[|w|] == t;
        assert Walk(A, w[..n], p[..|w|]) && p[..|w|][0] == s && p[..|w|][n] == p[n];
        RunIsWalks(A, s, w[..n], p[n]);
        assert Arc(PLAIN, w[n], p[n], p[n + 1]) in A;
      }
    }
  }

  // ---------------------------------------------------------------- compaction

  /** c is the compact form of the arcs A. */
  ghost predicate Compacts(A: set<Arc>, pre: nat, post: nat, c: Cnfa) {
    && c.WellFormed() && c.pre == pre && c.post == post
    && (forall a :: a in A ==> (a.ty == PLAIN || a.ty == LACON) && a.from < c.nstates && a.to < c.nstates)
    && (forall s: nat, co: nat, t: nat :: s < c.nstates ==>
          (Carc(co, t) in c.states[s] <==>
           if co < c.ncolors then Arc(PLAIN, co, s, t) in A else Arc(LACON, co - c.ncolors, s, t) in A))
    && (c.haslacons <==> exists a :: a in A && a.ty == LACON)
    && (forall s: nat :: s < c.nstates ==> (c.noprogress[s] <==> s == pre || exists a :: a in A && a.from == pre && a.to == s))
  }

  /** The compact form of one arc. */
  function CarcOf(a: Arc, ncolors: nat): Carc {
    Carc(if a.ty == PLAIN then a.co else ncolors + a.co, a.to)
  }

  /** ca is the compact form of an out-arc of s. */
  ghost predicate Stems(A: set<Arc>, s: nat, ca: Carc, ncolors: nat) {
    exists a :: a in A && a.from == s && ca == CarcOf(a, ncolors)
  }

  /** Lays out the out-arcs of one state. */
  method CompactState(A: set<Arc>, s: nat, ncolors: nat) returns (arcs: seq<Carc>, sawlacon: bool)
    requires forall a :: a in A && a.from == s ==> a.ty == LACON || (a.ty == PLAIN && a.co < ncolors)
    ensures forall a :: a in A && a.from == s ==> CarcOf(a, ncolors) in arcs
    ensures forall k :: 0 <= k < |arcs| ==> Stems(A, s, arcs[k], ncolors)
    ensures sawlacon <==> exists a :: a in A && a.from == s && a.ty == LACON
  {
    arcs, sawlacon := [], false;
    var todo := Outs(A, s);
    while todo != {}
      invariant todo <= Outs(A, s)
      invariant forall a :: a in Outs(A, s) - todo ==> CarcOf(a, ncolors) in arcs
      invariant forall k :: 0 <= k < |arcs| ==> Stems(A, s, arcs[k], ncolors)
      invariant sawlacon <==> exists a :: a in Outs(A, s) - todo && a.ty == LACON
      decreases todo
    {
      var a :| a in todo;
      arcs := arcs + [CarcOf(a, ncolors)];
      if a.ty == LACON { sawlacon := true; }
      todo := todo - {a};
    }
  }

  /** Builds the compact form; the states must be numbered without gaps. */
  method Compact(n: Nfa, ncolors: nat) returns (c: Cnfa)
    requires n.Valid() && forall s: nat :: s < n.nstates ==> s in n.states
    requires forall a :: a in n.arcs ==> a.ty == LACON || (a.ty == PLAIN && a.co < ncolors)
    ensures Compacts(n.arcs, n.pre, n.post, c) && c.ncolors == ncolors && c.nstates == n.nstates
  {
    var states: seq<seq<Carc>> := [];
    var haslacons := false;
    for s := 0 to n.nstates
      invariant |states| == s
      invariant forall i :: 0 <= i < s ==> forall a :: a in n.arcs && a.from == i ==> CarcOf(a, ncolors) in states[i]
      invariant forall i, k :: 0 <= i < s && 0 <= k < |states[i]| ==>
                  Stems(n.arcs, i, states[i][k], ncolors)
      invariant haslacons <==> exists a :: a in n.arcs && a.from < s && a.ty == LACON
    {
      var arcs, sawlacon := CompactState(n.arcs, s, ncolors);
      states := states + [arcs];
      haslacons := haslacons || sawlacon;
    }
    var first := set a | a in n.arcs && a.from == n.pre :: a.to;
    var noprogress := seq(n.nstates, s => s == n.pre || s in first);
    c := Cnfa(n.nstates, ncolors, n.pre, n.post, haslacons, noprogress, states);
    CompactDone(n.arcs, c);
  }

  lemma CompactDone(A: set<Arc>, c: Cnfa)
    requires forall a :: a in A ==> a.ty == LACON || (a.ty == PLAIN && a.co < c.ncolors)
    requires forall a :: a in A ==> a.from < c.nstates && a.to < c.nstates
    requires |c.states| == c.nstates == |c.noprogress| && c.pre < c.nstates && c.post < c.nstates && c.pre != c.post
    requires forall i :: 0 <= i < c.nstates ==> forall a :: a in A && a.from == i ==> CarcOf(a, c.ncolors) in c.states[i]
    requires forall i, k :: 0 <= i < c.nstates && 0 <= k < |c.states[i]| ==>
                  Stems(A, i, c.states[i][k], c.ncolors)
    requires c.haslacons <==> exists a :: a in A && a.ty == LACON
    requires forall s: nat :: s < c.nstates ==> (c.noprogress[s] <==> s == c.pre || exists a :: a in A && a.from == c.pre && a.to == s)
    ensures Compacts(A, c.pre, c.post, c)
  {
    forall s, k | 0 <= s < c.nstates && 0 <= k < |c.states[s]|
      ensures c.states[s][k].to < c.nstates && (c.states[s][k].co >= c.ncolors ==> c.haslacons)
    {
      assert Stems(A, s, c.states[s][k], c.ncolors);
    }
    forall s: nat, co: nat, t: nat | s < c.nstates
      ensures Carc(co, t) in c.states[s] <==>
              if co < c.ncolors then Arc(PLAIN, co, s, t) in A else Arc(LACON, co - c.ncolors, s, t) in A
    {
      if Carc(co, t) in c.states[s] {
        var k :| 0 <= k < |c.states[s]| && c.states[s][k] == Carc(co, t);
        assert Stems(A, s, c.states[s][k], c.ncolors);
        var a :| a in A && a.from == s && c.states[s][k] == CarcOf(a, c.ncolors);
        assert a == if co < c.ncolors then Arc(PLAIN, co, s, t) else Arc(LACON, co - c.ncolors, s, t);
      }
      if co < c.ncolors && Arc(PLAIN, co, s, t) in A {
        assert CarcOf(Arc(PLAIN, co, s, t), c.ncolors) == Carc(co, t);
      }
      if co >= c.ncolors && Arc(LACON, co - c.ncolors, s, t) in A {
        assert CarcOf(Arc(LACON, co - c.ncolors, s, t), c.ncolors) == Carc(co, t);
      }
    }
  }
}
