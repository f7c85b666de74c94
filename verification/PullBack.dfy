/** Pulling back constraints until none is left but ^ out of the first state. */
module PullBack {
  import opened NfaGraph
  import opened WordReading
  import ArcWalks
  import opened PullStep
  import opened PullWeight

  /** g tells the ends of n for someone who reads in the given direction. */
  ghost predicate EndsFit(n: Nfa, rev: bool, g: Ends) {
    if rev then n.post == g.pre && n.pre == g.post else n.pre == g.pre && n.post == g.post
  }

  /** The intermediate states made so far for the state f, by predecessor and successor. */
  type Intermediates = map<(nat, nat), nat>

  ghost predicate InterOk(g: Ends, A: set<Arc>, f: nat, inter: Intermediates) {
    && (forall p :: p in inter ==>
          && inter[p] != g.pre && inter[p] != g.post && p.1 != f && Between(A, f, p.0, inter[p], p.1)
          && (Ins(A, inter[p]) == {} <==> Outs(A, inter[p]) == {}))
    && (forall p, q :: p in inter && q in inter && inter[p] == inter[q] ==> p == q)
  }

  /** The arc a is dealt with: the arcs D before it were, and so is it now. */
  lemma SwapMore(D: set<Arc>, con: Arc, K: map<nat, nat>, a: Arc, s: nat)
    requires Combine(con, a) == Compatible && (a.from in K ==> K[a.from] == s)
    requires forall b :: b in D && Combine(con, b) == Compatible ==> b.from in K
    ensures SwappedIn(D + {a}, con, K[a.from := s]) == SwappedIn(D, con, K) + {con.(from := a.from, to := s)}
    ensures SwappedOut(D + {a}, con, K[a.from := s]) == SwappedOut(D, con, K) + {a.(from := s, to := con.to)}
  {
    var K' := K[a.from := s];
    forall b ensures b in SwappedIn(D + {a}, con, K') <==> b in SwappedIn(D, con, K) + {con.(from := a.from, to := s)} {
      if b in SwappedIn(D, con, K) {
        var d :| d in D && Combine(con, d) == Compatible && d.from in K && b == con.(from := d.from, to := K[d.from]);
        assert K'[d.from] == K[d.from];
      }
    }
    forall b ensures b in SwappedOut(D + {a}, con, K') <==> b in SwappedOut(D, con, K) + {a.(from := s, to := con.to)} {
      if b in SwappedOut(D, con, K) {
        var d :| d in D && Combine(con, d) == Compatible && d.from in K && b == d.(from := K[d.from], to := con.to);
        assert K'[d.from] == K[d.from];
      }
    }
  }

  lemma SwapSame(D: set<Arc>, con: Arc, K: map<nat, nat>, a: Arc)
    requires Combine(con, a) != Compatible
    ensures SwappedIn(D + {a}, con, K) == SwappedIn(D, con, K) && SwappedOut(D + {a}, con, K) == SwappedOut(D, con, K)
  {
  }

  /** The arcs D that a pull does away with. */
  ghost function Gone(D: set<Arc>, con: Arc): set<Arc> {
    set a | a in D && Combine(con, a) != Satisfied
  }

  /** B is A with the inarcs D dealt with. */
  ghost predicate Swapping(A: set<Arc>, B: set<Arc>, con: Arc, D: set<Arc>, inter: Intermediates, K: map<nat, nat>) {
    && (forall x :: x in K ==> (x, con.to) in inter && inter[(x, con.to)] == K[x])
    && (forall a :: a in D && Combine(con, a) == Compatible ==> a.from in K)
    && (forall x :: x in K ==> exists a :: a in D && a.from == x && Combine(con, a) == Compatible)
    && B == A - Gone(D, con) + SwappedIn(D, con, K) + SwappedOut(D, con, K)
  }

  ghost predicate Listed(inter: Intermediates, states: seq<nat>) {
    forall p :: p in inter ==> inter[p] in states && p.0 in states && p.1 in states
  }

  /** The states only grew, and only new states before y were added to the intermediates. */
  ghost predicate Grown(states0: seq<nat>, inter0: Intermediates, states: seq<nat>, inter: Intermediates, y: nat) {
    && Listed(inter, states)
    && states0 <= states
    && (forall p :: p in inter0 ==> p in inter && inter[p] == inter0[p])
    && (forall p :: p in inter && p !in inter0 ==> inter[p] !in states0 && p.1 == y)
  }

  lemma GrownTrans(s0: seq<nat>, i0: Intermediates, s1: seq<nat>, i1: Intermediates, s2: seq<nat>, i2: Intermediates, y: nat)
    requires Grown(s0, i0, s1, i1, y) && Grown(s1, i1, s2, i2, y)
    ensures Grown(s0, i0, s2, i2, y)
  {
  }

  lemma GrownStarts(s0: seq<nat>, i0: Intermediates, y: nat)
    requires Listed(i0, s0)
    ensures Grown(s0, i0, s0, i0, y)
  {
  }

  lemma GrownLists(s0: seq<nat>, i0: Intermediates, s1: seq<nat>, i1: Intermediates, y: nat)
    requires Grown(s0, i0, s1, i1, y)
    ensures Listed(i1, s1) && s0 <= s1 && forall z :: z in s0 ==> z in s1
  {
  }

  lemma SwappingStarts(A: set<Arc>, con: Arc, inter: Intermediates)
    ensures Swapping(A, A, con, {}, inter, map[])
  {
  }

  lemma SwappingSame(A: set<Arc>, B: set<Arc>, con: Arc, D: set<Arc>, inter: Intermediates, K: map<nat, nat>, a: Arc, B': set<Arc>)
    requires Swapping(A, B, con, D, inter, K) && Combine(con, a) != Compatible && a.to == con.from
    requires B' == if Combine(con, a) == Satisfied then B else B - {a}
    requires con.to != con.from && forall x :: x in K ==> K[x] != con.from
    ensures Swapping(A, B', con, D + {a}, inter, K)
  {
    hide Combine, SwappedIn, SwappedOut, Gone;
    SwapSame(D, con, K, a);
    NewArcsElsewhere(D, con, K);
    GoneMore(D, con, a);
  }

  lemma SwappingMore(A: set<Arc>, B: set<Arc>, con: Arc, D: set<Arc>, inter: Intermediates, K: map<nat, nat>,
                     a: Arc, s: nat, inter': Intermediates, B': set<Arc>)
    requires Swapping(A, B, con, D, inter, K) && Combine(con, a) == Compatible && a.to == con.from && con.to != con.from
    requires forall x :: x in K ==> K[x] != con.from
    requires s != con.from && (a.from, con.to) in inter' && inter'[(a.from, con.to)] == s
    requires forall p :: p in inter ==> p in inter' && inter'[p] == inter[p]
    requires B' == B + {con.(from := a.from, to := s)} + {a.(from := s, to := con.to)} - {a}
    ensures Swapping(A, B', con, D + {a}, inter', K[a.from := s])
  {
    hide Combine, SwappedIn, SwappedOut, Gone;
    SwapMore(D, con, K, a, s);
    NewArcsElsewhere(D, con, K);
    GoneMore(D, con, a);
    var I, O := SwappedIn(D, con, K), SwappedOut(D, con, K);
    assert A - Gone(D, con) + I + O + {con.(from := a.from, to := s)} + {a.(from := s, to := con.to)} - {a}
        == A - (Gone(D, con) + {a}) + (I + {con.(from := a.from, to := s)}) + (O + {a.(from := s, to := con.to)});
  }

  lemma GoneMore(D: set<Arc>, con: Arc, a: Arc)
    ensures Gone(D + {a}, con) == Gone(D, con) + (if Combine(con, a) == Satisfied then {} else {a})
  {
    hide Combine;
  }

  /** The swapped arcs do not enter the source of the constraint. */
  lemma NewArcsElsewhere(D: set<Arc>, con: Arc, K: map<nat, nat>)
    requires con.to != con.from && forall x :: x in K ==> K[x] != con.from
    ensures forall b :: b in SwappedIn(D, con, K) + SwappedOut(D, con, K) ==> b.to != con.from
  {
    hide Combine;
  }

  /** The intermediate state for x and the target of con: one that is there already, or a new one. */
  method Intermediate(n: Nfa, rev: bool, g: Ends, ghost A: set<Arc>, con: Arc, x: nat, inter0: Intermediates) returns (s: nat, inter: Intermediates)
    requires n.Valid() && EndsFit(n, rev, g) && con.from in n.states && con.to in n.states && con.from != con.to
    requires x in n.states && x != con.from
    requires InterOk(g, A, con.from, inter0) && Listed(inter0, n.states)
    requires forall a :: a in A ==> a.from in n.states && a.to in n.states
    modifies n`states, n`nstates
    ensures n.Valid() && InterOk(g, A, con.from, inter) && Grown(old(n.states), inter0, n.states, inter, con.to)
    ensures (x, con.to) in inter && inter[(x, con.to)] == s && s in n.states && s != con.from && s != con.to && s != x
  {
    inter := inter0;
    if (x, con.to) in inter {
      s := inter[(x, con.to)];
    } else {
      s := n.NewState();
      assert Ins(A, s) == {} && Outs(A, s) == {};
      inter := inter[(x, con.to) := s];
    }
  }

  /** Propagates the constraint into the inarcs of its source. */
  method Propagate(n: Nfa, rev: bool, g: Ends, con: Arc, inter0: Intermediates) returns (inter: Intermediates, ghost K: map<nat, nat>)
    requires n.Valid() && EndsFit(n, rev, g)
    requires con in Seen(n, rev) && con.from != con.to && Outs(Seen(n, rev), con.from) == {con}
    requires InterOk(g, Seen(n, rev), con.from, inter0) && Listed(inter0, n.states)
    modifies n`arcs, n`states, n`nstates
    ensures n.Valid() && InterOk(g, old(Seen(n, rev)), con.from, inter) && Grown(old(n.states), inter0, n.states, inter, con.to)
    ensures Swapping(old(Seen(n, rev)), Seen(n, rev), con, Ins(old(Seen(n, rev)), con.from), inter, K)
  {
    hide Combine, InterOk, Swapping, Grown, Listed;
    inter, K := inter0, map[];
    ghost var A := Seen(n, rev);
    var todo := Ins(Seen(n, rev), con.from);
    ghost var done: set<Arc> := {};
    SwappingStarts(A, con, inter);
    GrownStarts(n.states, inter, con.to);
    while todo != {}
      invariant n.Valid() && InterOk(g, A, con.from, inter) && Grown(old(n.states), inter0, n.states, inter, con.to)
      invariant done + todo == Ins(A, con.from) && todo <= Seen(n, rev)
      invariant Swapping(A, Seen(n, rev), con, done, inter, K)
      decreases todo
    {
      var a :| a in todo;
      ghost var B := Seen(n, rev);
      KeysApart(g, A, B, con, done, inter, K);
      assert a.from == con.from ==> a in Outs(A, con.from);
      match Combine(con, a) {
      case Incompatible =>
        FreeArcSeen(n, rev, a);
        SwappingSame(A, B, con, done, inter, K, a, Seen(n, rev));
      case Satisfied =>
        SwappingSame(A, B, con, done, inter, K, a, Seen(n, rev));
      case Compatible =>
        ghost var states1, inter1 := n.states, inter;
        GrownLists(old(n.states), inter0, states1, inter, con.to);
        inter, K := SwapOne(n, rev, g, A, con, done, a, inter, K);
        GrownTrans(old(n.states), inter0, states1, inter1, n.states, inter, con.to);
      }
      todo, done := todo - {a}, done + {a};
    }
    assert done == Ins(A, con.from);
  }

  lemma KeysApart(g: Ends, A: set<Arc>, B: set<Arc>, con: Arc, D: set<Arc>, inter: Intermediates, K: map<nat, nat>)
    requires InterOk(g, A, con.from, inter) && Swapping(A, B, con, D, inter, K)
    ensures forall x :: x in K ==> K[x] != con.from
  {
    forall x | x in K ensures K[x] != con.from {
      assert Between(A, con.from, x, inter[(x, con.to)], con.to);
    }
  }

  /** Swaps the constraint and one compatible inarc. */
  method SwapOne(n: Nfa, rev: bool, g: Ends, ghost A: set<Arc>, con: Arc, ghost done: set<Arc>, a: Arc, inter0: Intermediates, ghost K0: map<nat, nat>)
    returns (inter: Intermediates, ghost K: map<nat, nat>)
    requires n.Valid() && EndsFit(n, rev, g) && con.from in n.states && con.to in n.states && con.from != con.to
    requires a in Seen(n, rev) && a.to == con.from && a.from != con.from && Combine(con, a) == Compatible
    requires InterOk(g, A, con.from, inter0) && Listed(inter0, n.states)
    requires forall b :: b in A ==> b.from in n.states && b.to in n.states
    requires Swapping(A, Seen(n, rev), con, done, inter0, K0) && forall x :: x in K0 ==> K0[x] != con.from
    modifies n`arcs, n`states, n`nstates
    ensures n.Valid() && InterOk(g, A, con.from, inter) && Grown(old(n.states), inter0, n.states, inter, con.to)
    ensures Swapping(A, Seen(n, rev), con, done + {a}, inter, K)
    ensures old(Seen(n, rev)) - {a} <= Seen(n, rev)
  {
    hide Combine, InterOk, Swapping;
    var s;
    s, inter := Intermediate(n, rev, g, A, con, a.from, inter0);
    ghost var B := Seen(n, rev);
    NewArcSeen(n, rev, con.(from := a.from, to := s));
    NewArcSeen(n, rev, a.(from := s, to := con.to));
    FreeArcSeen(n, rev, a);
    SwappingMore(A, B, con, done, inter0, K0, a, s, inter, Seen(n, rev));
    K := K0[a.from := s];
  }

  /** Moving what is left and dropping the constraint completes the pull. */
  lemma PullDone(g: Ends, A: set<Arc>, B: set<Arc>, con: Arc, inter: Intermediates, K: map<nat, nat>, C: set<Arc>)
    requires Regular(g, A) && con in A && IsBack(con.ty) && con.from != con.to && Outs(A, con.from) == {con}
    requires InterOk(g, A, con.from, inter) && Swapping(A, B, con, Ins(A, con.from), inter, K)
    requires C == B - Ins(B, con.from) + Enter(Ins(B, con.from), con.to) - {con}
    ensures Pulled(A, C, con, K)
  {
    hide Combine, InterOk, Regular;
    KeysApart(g, A, B, con, Ins(A, con.from), inter, K);
    var D := Ins(A, con.from);
    var S := set a | a in D && Combine(con, a) == Satisfied;
    NewArcsElsewhere(D, con, K);
    assert Ins(B, con.from) == S && D == Gone(D, con) + S;
    assert Enter(S, con.to) == Absorbed(D, con);
    forall b | b in SwappedIn(D, con, K) + SwappedOut(D, con, K) + Absorbed(D, con) ensures b != con {
      NotCon(A, con, K, b);
    }
    assert S !! SwappedIn(D, con, K) + SwappedOut(D, con, K) by {
      assert forall b :: b in S ==> b.to == con.from;
    }
    Rearrange(A, Gone(D, con), S, SwappedIn(D, con, K), SwappedOut(D, con, K), Absorbed(D, con), con);
  }

  lemma Rearrange(A: set<Arc>, G: set<Arc>, S: set<Arc>, I: set<Arc>, O: set<Arc>, X: set<Arc>, con: Arc)
    requires S !! I + O && con !in I + O + X
    ensures A - G + I + O - S + X - {con} == A - (G + S) - {con} + X + I + O
  {
  }

  lemma NotCon(A: set<Arc>, con: Arc, K: map<nat, nat>, b: Arc)
    requires con.from != con.to && Outs(A, con.from) == {con} && forall x :: x in K ==> K[x] != con.from
    requires b in SwappedIn(Ins(A, con.from), con, K) + SwappedOut(Ins(A, con.from), con, K) + Absorbed(Ins(A, con.from), con)
    ensures b != con
  {
    hide Combine;
    forall a | a in Ins(A, con.from) ensures a.from != con.from {
      assert a.from == con.from ==> a in Outs(A, con.from);
    }
  }

  lemma KeysFit(g: Ends, A: set<Arc>, B: set<Arc>, con: Arc, inter: Intermediates, K: map<nat, nat>)
    requires con in A && con.from != con.to && Outs(A, con.from) == {con} && IsBack(con.ty)
    requires InterOk(g, A, con.from, inter) && Swapping(A, B, con, Ins(A, con.from), inter, K)
    ensures KeysOk(g, A, con, K)
  {
    hide Combine, Between;
    forall x | x in K ensures x !in K.Values && K[x] != con.to && Between(A, con.from, x, K[x], con.to) {
      assert Between(A, con.from, (x, con.to).0, inter[(x, con.to)], (x, con.to).1);
      BetweenApart(A, con.from, x, K[x], con.to);
      var a :| a in Ins(A, con.from) && a.from == x && Combine(con, a) == Compatible;
      forall x' | x' in K ensures K[x'] != x {
        assert Between(A, con.from, (x', con.to).0, inter[(x', con.to)], (x', con.to).1);
        NotSource(A, con.from, x', K[x'], con.to, a);
      }
    }
    forall x, x' | x in K && x' in K && K[x] == K[x'] ensures x == x' {
      assert (x, con.to).0 == (x', con.to).0;
    }
  }

  lemma BetweenApart(A: set<Arc>, f: nat, x: nat, s: nat, y: nat)
    requires Between(A, f, x, s, y)
    ensures s != f && s != x && s != y
  {
  }

  lemma NotSource(A: set<Arc>, f: nat, x: nat, s: nat, y: nat, a: Arc)
    requires Between(A, f, x, s, y) && y != f && a in Ins(A, f)
    ensures a.from != s
  {
    assert a.from == s ==> a in Outs(A, s);
  }

  // ---------------------------------------------------------------- one pull

  /** The constraint gets a source of its own. */
  method CloneSource(n: Nfa, rev: bool, g: Ends, con: Arc) returns (c: Arc)
    requires n.Valid() && con in Seen(n, rev) && con.from != con.to
    modifies n`arcs, n`states, n`nstates
    ensures n.Valid() && c == con.(from := old(n.nstates)) && n.states == old(n.states) + [old(n.nstates)]
    ensures old(n.nstates) !in old(n.states) && n.nstates == old(n.nstates) + 1
    ensures Cloned(old(Seen(n, rev)), Seen(n, rev), con, c.from) && Outs(Seen(n, rev), c.from) == {c}
  {
    var f := n.NewState();
    ghost var A := Seen(n, rev);
    CopyInsSeen(n, rev, con.from, f);
    NewArcSeen(n, rev, con.(from := f));
    FreeArcSeen(n, rev, con);
    c := con.(from := f);
    CloneOuts(A, Seen(n, rev), con, f);
  }

  lemma CloneOuts(A: set<Arc>, B: set<Arc>, con: Arc, f: nat)
    requires con in A && con.from != f && con.to != f && con.from != con.to
    requires forall a :: a in A ==> a.from != f && a.to != f
    requires B == A + Enter(Ins(A, con.from), f) + {con.(from := f)} - {con}
    ensures Cloned(A, B, con, f) && Outs(B, f) == {con.(from := f)}
  {
    assert con !in Enter(Ins(A, con.from), f);
  }

  /** Swappable arcs into F and into its copy f correspond. */
  ghost predicate Twins(A: set<Arc>, F: nat, f: nat) {
    forall x: nat, s: nat, y: nat {:trigger Relaid(A, F, x, s, y)} {:trigger Relaid(A, f, x, s, y)} ::
      Relaid(A, F, x, s, y) == Relaid(A, f, x, s, y)
  }

  lemma CloneTwins(A: set<Arc>, B: set<Arc>, con: Arc, f: nat)
    requires Cloned(A, B, con, f) && IsBack(con.ty) && con.from != con.to
    ensures Twins(B, con.from, f)
    ensures forall x: nat, s: nat, y: nat {:trigger Relaid(A, con.from, x, s, y)} :: Relaid(A, con.from, x, s, y) == Relaid(B, f, x, s, y)
  {
    forall x: nat, s: nat, y: nat ensures Relaid(A, con.from, x, s, y) == Relaid(B, f, x, s, y) == Relaid(B, con.from, x, s, y) {
      forall b ensures b in Relaid(A, con.from, x, s, y) <==> b in Relaid(B, f, x, s, y) {
        if b in Relaid(A, con.from, x, s, y) {
          var a :| a in A && a.from == x && a.to == con.from && Swappable(a) && b == a.(from := s, to := y);
          assert a.(to := f) in Enter(Ins(A, con.from), f);
          assert b == a.(to := f).(from := s, to := y);
        }
        if b in Relaid(B, f, x, s, y) {
          var a' :| a' in B && a'.from == x && a'.to == f && Swappable(a') && b == a'.(from := s, to := y);
          var a :| a in Ins(A, con.from) && a' == a.(to := f);
          assert b == a.(from := s, to := y);
        }
      }
    }
  }

  /** Nothing passes from an intermediate state's predecessor into itself, so a constraint out of F does
      not enter an intermediate state. */
  lemma NotEntered(A: set<Arc>, F: nat, x: nat, s: nat, y: nat, con: Arc, rank: map<nat, nat>)
    requires Between(A, F, x, s, y) && (Ins(A, s) == {} <==> Outs(A, s) == {}) && Ranked(A, rank)
    requires con in A && con.from == F
    ensures con.to != s
  {
    forall b | b in Outs(A, s) ensures x != F {
      assert b in Relaid(A, F, x, s, y);
    }
    assert con.to == s ==> con in Ins(A, s);
  }

  lemma CloneApart(A: set<Arc>, B: set<Arc>, con: Arc, f: nat, s: nat)
    requires Cloned(A, B, con, f) && s != f && s != con.to && s != con.from && forall a :: a in Ins(A, con.from) ==> a.from != s
    ensures Ins(B, s) == Ins(A, s) && Outs(B, s) == Outs(A, s)
  {
  }

  lemma CloneInter(g: Ends, A: set<Arc>, B: set<Arc>, con: Arc, f: nat, inter: Intermediates, rank: map<nat, nat>)
    requires Cloned(A, B, con, f) && InterOk(g, A, con.from, inter) && Ranked(A, rank) && IsBack(con.ty) && con.from != con.to
    requires (forall p :: p in inter ==> inter[p] != f) && forall p :: p in inter ==> p.0 != f && p.1 != f
    ensures InterOk(g, B, f, inter)
  {
    CloneTwins(A, B, con, f);
    forall p | p in inter ensures Between(B, f, p.0, inter[p], p.1) && (Ins(B, inter[p]) == {} <==> Outs(B, inter[p]) == {}) {
      var s := inter[p];
      NotEntered(A, con.from, p.0, s, p.1, con, rank);
      forall a | a in Ins(A, con.from) ensures a.from != s {
        NotSource(A, con.from, p.0, s, p.1, a);
      }
      CloneApart(A, B, con, f, s);
    }
  }

  // ---------------------------------------------------------------- the intermediates after a pull

  lemma PulledIns(g: Ends, A: set<Arc>, C: set<Arc>, con: Arc, K: map<nat, nat>, inter: Intermediates, p: (nat, nat))
    requires PullOk(g, A, C, con, K) && InterOk(g, A, con.from, inter) && p in inter
    requires forall x :: x in K ==> (x, con.to) in inter && inter[(x, con.to)] == K[x]
    requires inter[p] != con.to
    ensures forall c :: c in Ins(C, inter[p]) ==> c.from == p.0 && IsBack(c.ty)
    ensures inter[p] !in K.Values ==> Ins(C, inter[p]) == Ins(A, inter[p])
    ensures inter[p] in K.Values ==> p.1 == con.to && p.0 in K && Ins(C, inter[p]) != {}
  {
    hide Combine;
    var s, D := inter[p], Ins(A, con.from);
    assert Between(A, con.from, p.0, s, p.1);
    forall c | c in Ins(C, s) ensures c.from == p.0 && IsBack(c.ty) && (s !in K.Values ==> c in A) {
      Sorted(A, C, con, K, c);
      if c in SwappedIn(D, con, K) {
        var a :| a in D && Combine(con, a) == Compatible && a.from in K && c == con.(from := a.from, to := K[a.from]);
        assert inter[(a.from, con.to)] == inter[p];
        assert (a.from, con.to) == p;
      } else {
        assert c in Ins(A, s);
      }
    }
    if s in K.Values {
      var x :| x in K && K[x] == s;
      assert (x, con.to) == p;
      var a :| a in D && a.from == x && Combine(con, a) == Compatible;
      assert con.(from := a.from, to := K[a.from]) in SwappedIn(D, con, K);
      assert con.(from := a.from, to := K[a.from]) in Ins(C, s);
    }
  }

  lemma PulledOuts(g: Ends, A: set<Arc>, C: set<Arc>, con: Arc, K: map<nat, nat>, inter: Intermediates, p: (nat, nat))
    requires PullOk(g, A, C, con, K) && InterOk(g, A, con.from, inter) && p in inter
    requires forall x :: x in K ==> (x, con.to) in inter && inter[(x, con.to)] == K[x]
    ensures inter[p] !in K.Values ==> Outs(C, inter[p]) == Outs(A, inter[p])
    ensures inter[p] in K.Values ==> Outs(C, inter[p]) == Relaid(A, con.from, p.0, inter[p], p.1) != {}
  {
    hide Combine;
    var s, D := inter[p], Ins(A, con.from);
    assert Between(A, con.from, p.0, s, p.1);
    forall a | a in D ensures a.from != s {
      NotSource(A, con.from, p.0, s, p.1, a);
    }
    if s in K.Values {
      var x :| x in K && K[x] == s;
      assert inter[(x, con.to)] == inter[p];
      assert (x, con.to) == p;
      KeyOuts(g, A, C, con, K, x);
    } else {
      forall b ensures b in Outs(C, s) <==> b in Outs(A, s) {
        if b in Outs(C, s) {
          Sorted(A, C, con, K, b);
        }
      }
    }
  }

  /** After the pull the outarcs of a used intermediate state are all the swappable arcs from its key. */
  lemma KeyOuts(g: Ends, A: set<Arc>, C: set<Arc>, con: Arc, K: map<nat, nat>, x: nat)
    requires PullOk(g, A, C, con, K) && x in K
    ensures Outs(C, K[x]) == Relaid(A, con.from, x, K[x], con.to) != {}
  {
    hide Combine, Between;
    var s, D := K[x], Ins(A, con.from);
    var r := Reading(g, [], (i, j) => false);
    forall b ensures b in Outs(C, s) <==> b in Relaid(A, con.from, x, s, con.to) {
      if b in Outs(C, s) {
        var a := OutOfIntermediate(r, A, C, con, K, b, x);
      }
      if b in Relaid(A, con.from, x, s, con.to) {
        var a :| a in A && a.from == x && a.to == con.from && Swappable(a) && b == a.(from := s, to := con.to);
        SwappableIsCompatible(con, a);
        assert b in SwappedOut(D, con, K);
      }
    }
    var a :| a in D && a.from == x && Combine(con, a) == Compatible;
    CompatibleSwaps(con, a);
    assert a.(from := s, to := con.to) in Relaid(A, con.from, x, s, con.to);
  }

  lemma SwappableIsCompatible(con: Arc, a: Arc)
    requires IsBack(con.ty) && Swappable(a)
    ensures Combine(con, a) == Compatible
  {
  }

  // ---------------------------------------------------------------- pull

  /** The intermediate states stay usable for further constraints out of F, whose copy f was pulled. */
  lemma PulledInter(g: Ends, A: set<Arc>, C: set<Arc>, con: Arc, K: map<nat, nat>, inter: Intermediates, F: nat, rank: map<nat, nat>)
    requires PullOk(g, A, C, con, K) && InterOk(g, A, con.from, inter) && Ranked(A, rank)
    requires forall x :: x in K ==> (x, con.to) in inter && inter[(x, con.to)] == K[x]
    requires F != con.from && F != con.to && Twins(A, F, con.from) && forall p :: p in inter ==> inter[p] != F && p.1 != F
    ensures InterOk(g, C, F, inter)
  {
    hide Combine, PullOk, Relaid, Twins;
    forall p | p in inter ensures Between(C, F, p.0, inter[p], p.1) && (Ins(C, inter[p]) == {} <==> Outs(C, inter[p]) == {}) {
      var s := inter[p];
      assert Between(A, con.from, p.0, s, p.1);
      ConFits(g, A, C, con, K, rank);
      NotEntered(A, con.from, p.0, s, p.1, con, rank);
      PulledIns(g, A, C, con, K, inter, p);
      PulledOuts(g, A, C, con, K, inter, p);
      TwinRelaid(A, F, con.from, p.0, s, p.1);
      SameRelaid(g, A, C, con, K, F, p.0, s, p.1);
    }
  }

  lemma TwinRelaid(A: set<Arc>, F: nat, f: nat, x: nat, s: nat, y: nat)
    requires Twins(A, F, f)
    ensures Relaid(A, F, x, s, y) == Relaid(A, f, x, s, y)
  {
  }

  /** The pull leaves the inarcs of every other old state alone, but for the target of the constraint. */
  lemma SameRelaid(g: Ends, A: set<Arc>, C: set<Arc>, con: Arc, K: map<nat, nat>, F: nat, x: nat, s: nat, y: nat)
    requires PullOk(g, A, C, con, K) && F != con.from && F != con.to && F !in K.Values
    ensures Relaid(C, F, x, s, y) == Relaid(A, F, x, s, y)
  {
    hide Combine, KeysOk, Regular;
    forall a ensures a in C && a.to == F <==> a in A && a.to == F {
      if a in C && a.to == F { Sorted(A, C, con, K, a); }
    }
  }

  /** The NFA is in the form that pulling relies on, and has no loop of constraints. */
  ghost predicate Fit(n: Nfa, rev: bool, g: Ends, rank: map<nat, nat>)
    reads n
  {
    n.Valid() && EndsFit(n, rev, g) && Regular(g, Seen(n, rev)) && Ranked(Seen(n, rev), rank)
  }

  /** The flagged states are the first and the last one. */
  lemma FlagMeans(n: Nfa, rev: bool, g: Ends, s: nat)
    requires EndsFit(n, rev, g)
    ensures n.Flag(s) <==> s == g.pre || s == g.post
  {
  }

  /** The main part of pull, for a constraint that is the only outarc of its source. */
  method PullPast(n: Nfa, rev: bool, g: Ends, con: Arc, inter0: Intermediates, ghost rank0: map<nat, nat>)
    returns (inter: Intermediates, ghost K: map<nat, nat>, ghost rank: map<nat, nat>)
    requires Fit(n, rev, g, rank0) && con in Seen(n, rev) && IsBack(con.ty) && Outs(Seen(n, rev), con.from) == {con}
    requires con.from != g.pre && con.from != g.post
    requires InterOk(g, Seen(n, rev), con.from, inter0) && Listed(inter0, n.states)
    modifies n`arcs, n`states, n`nstates
    ensures Fit(n, rev, g, rank) && SameLanguage(g, old(Seen(n, rev)), Seen(n, rev))
    ensures PullOk(g, old(Seen(n, rev)), Seen(n, rev), con, K) && Kinds(Seen(n, rev)) <= Kinds(old(Seen(n, rev)))
    ensures InterOk(g, old(Seen(n, rev)), con.from, inter) && Grown(old(n.states), inter0, n.states, inter, con.to)
    ensures forall x :: x in K ==> (x, con.to) in inter && inter[(x, con.to)] == K[x]
    ensures con.from in rank0 && rank == RankWith(rank0, K, rank0[con.from])
  {
    hide Combine, InterOk, Regular, Seen, Pulled, KeysOk, Grown;
    ghost var A := Seen(n, rev);
    RankedApart(A, con, rank0);
    SeenValid(n, rev);
    inter, K := Propagate(n, rev, g, con, inter0);
    ghost var B := Seen(n, rev);
    KeysFit(g, A, B, con, inter, K);
    GrownLists(old(n.states), inter0, n.states, inter, con.to);
    StillThere(A, B, con, inter, K);
    MoveInsSeen(n, rev, con.from, con.to);
    FreeArcSeen(n, rev, con);
    PullDone(g, A, B, con, inter, K, Seen(n, rev));
    PullKeeps(g, A, Seen(n, rev), con, K);
    PulledFit(g, A, Seen(n, rev), con, K, rank0);
    KindsPulled(A, Seen(n, rev), con, K);
    rank := RankWith(rank0, K, rank0[con.from]);
  }

  lemma SmallSeen(n: Nfa, rev: bool, kinds: set<(ArcType, nat)>, limit: nat)
    requires n.Valid() && Kinds(Seen(n, rev)) <= kinds && n.nstates <= limit + 1
    ensures Small(Seen(n, rev), kinds, limit + 1)
  {
    hide Kinds;
    SeenValid(n, rev);
    forall a | a in Seen(n, rev) ensures (a.ty, a.co) in kinds && a.from < limit + 1 {
      assert (a.ty, a.co) in Kinds(Seen(n, rev));
    }
  }

  lemma RankedApart(A: set<Arc>, con: Arc, rank: map<nat, nat>)
    requires Ranked(A, rank) && con in A && IsBack(con.ty)
    ensures con.from != con.to && con.from in rank
  {
  }

  lemma StillThere(A: set<Arc>, B: set<Arc>, con: Arc, inter: Intermediates, K: map<nat, nat>)
    requires con in A && con.from != con.to && Swapping(A, B, con, Ins(A, con.from), inter, K)
    ensures con in B - Ins(B, con.from)
  {
    hide Combine;
  }

  /** Pulls the constraint con backward past its source; the intermediate states are those made for this
      source in the same round. Does nothing if the source is the first state. */
  method Pull(n: Nfa, rev: bool, g: Ends, con: Arc, inter0: Intermediates, ghost rank0: map<nat, nat>,
              ghost kinds: set<(ArcType, nat)>, ghost limit: nat)
    returns (ok: bool, inter: Intermediates, ghost rank: map<nat, nat>)
    requires Fit(n, rev, g, rank0) && con in Seen(n, rev) && IsBack(con.ty)
    requires Kinds(Seen(n, rev)) <= kinds && n.nstates <= limit
    requires InterOk(g, Seen(n, rev), con.from, inter0) && Listed(inter0, n.states)
    modifies n`arcs, n`states, n`nstates
    ensures ok == !n.Flag(con.from)
    ensures !ok ==> Seen(n, rev) == old(Seen(n, rev)) && n.states == old(n.states) && inter == inter0 && rank == rank0
    ensures !ok ==> n.nstates == old(n.nstates)
    ensures ok ==> Toil(g, Seen(n, rev), rank, kinds, limit) < Toil(g, old(Seen(n, rev)), rank0, kinds, limit)
    ensures Fit(n, rev, g, rank) && SameLanguage(g, old(Seen(n, rev)), Seen(n, rev))
    ensures old(n.states) <= n.states
    ensures Kinds(Seen(n, rev)) <= Kinds(old(Seen(n, rev)))
    ensures Outs(old(Seen(n, rev)), con.from) - {con} <= Seen(n, rev)
    ensures Outs(old(Seen(n, rev)), con.from) != {con} ==> InterOk(g, Seen(n, rev), con.from, inter) && Listed(inter, n.states)
  {
    hide Combine, InterOk, Regular, Seen, Pulled, KeysOk, Grown, PullOk, Ranked, Cloned, Listed, Kinds, Toil, Small, RankWith;
    inter, rank := inter0, rank0;
    ok := !n.Flag(con.from);
    FlagMeans(n, rev, g, con.from);
    ghost var A := Seen(n, rev);
    if !ok {
      return;
    }
    if Ins(Seen(n, rev), con.from) == {} {
      FreedToil(g, A, con, rank0, kinds, limit);
      FreeArcSeen(n, rev, con);
      NeverTaken(g, A, con, rank0, inter);
      KindsMore(Seen(n, rev), A);
      return;
    }
    ghost var K;
    RankedApart(A, con, rank0);
    SeenValid(n, rev);
    if Outs(Seen(n, rev), con.from) == {con} {
      ghost var S := n.states;
      SmallSeen(n, rev, kinds, limit);
      inter, K, rank := PullPast(n, rev, g, con, inter0, rank0);
      PulledToil(g, A, Seen(n, rev), con, K, rank0, kinds, limit);
      GrownLists(S, inter0, n.states, inter, con.to);
    } else {
      SmallSeen(n, rev, kinds, limit);
      var c := CloneSource(n, rev, g, con);
      ghost var B, S1, f := Seen(n, rev), n.states, c.from;
      CloneReady(g, A, B, con, f, inter0, rank0, old(n.states), S1);
      KindsCloned(A, B, con, f);
      SmallSeen(n, rev, kinds, limit);
      inter, K, rank := PullPast(n, rev, g, c, inter0, rank0[f := rank0[con.from]]);
      ghost var C := Seen(n, rev);
      SameTrans(g, A, B, C);
      GrownLists(S1, inter0, n.states, inter, con.to);
      ClonedToil(g, A, B, C, con, f, K, rank0, kinds, limit);
      CloneFinished(g, A, B, C, con, f, K, inter0, inter, S1, n.states, rank0[f := rank0[con.from]]);
    }
  }

  /** A constraint out of a state that nothing enters can be dropped. */
  lemma NeverTaken(g: Ends, A: set<Arc>, con: Arc, rank: map<nat, nat>, inter: Intermediates)
    requires Regular(g, A) && Ranked(A, rank) && con in A && Ins(A, con.from) == {} && con.from != g.pre
    requires InterOk(g, A, con.from, inter)
    ensures SameLanguage(g, A, A - {con}) && Regular(g, A - {con}) && Ranked(A - {con}, rank)
    ensures InterOk(g, A - {con}, con.from, inter)
  {
    hide Combine;
    assert ArcWalks.Useless(g.pre, g.post, A, con);
    DropUseless(g, A, A - {con});
    forall p | p in inter ensures Ins(A, inter[p]) == {} && Outs(A, inter[p]) == {} {
      assert Between(A, con.from, p.0, inter[p], p.1);
      assert forall a :: a in A ==> a in Ins(A, a.to);
      assert Relaid(A, con.from, p.0, inter[p], p.1) == {};
    }
  }

  lemma CloneReady(g: Ends, A: set<Arc>, B: set<Arc>, con: Arc, f: nat, inter: Intermediates, rank: map<nat, nat>, S0: seq<nat>, S1: seq<nat>)
    requires Cloned(A, B, con, f) && Regular(g, A) && Ranked(A, rank) && IsBack(con.ty) && con.from != con.to && con.from in rank
    requires con.from != g.pre && con.from != g.post && f !in S0 && g.pre in S0 && g.post in S0 && S1 == S0 + [f]
    requires InterOk(g, A, con.from, inter) && Listed(inter, S0)
    ensures Regular(g, B) && Ranked(B, rank[f := rank[con.from]]) && SameLanguage(g, A, B)
    ensures InterOk(g, B, f, inter) && Listed(inter, S1) && con.(from := f) in B
  {
    hide Combine, Regular, Ranked, InterOk;
    CloneFit(g, A, B, con, f, rank);
    CloneKeeps(g, A, B, con, f);
    CloneInter(g, A, B, con, f, inter, rank);
  }

  lemma CloneFinished(g: Ends, A: set<Arc>, B: set<Arc>, C: set<Arc>, con: Arc, f: nat, K: map<nat, nat>,
                      inter0: Intermediates, inter: Intermediates, S1: seq<nat>, S2: seq<nat>, rank: map<nat, nat>)
    requires Cloned(A, B, con, f) && IsBack(con.ty) && con.from != con.to
    requires PullOk(g, B, C, con.(from := f), K) && Ranked(B, rank)
    requires InterOk(g, A, con.from, inter0) && InterOk(g, B, f, inter) && Grown(S1, inter0, S2, inter, con.to) && con.from in S1
    requires forall x :: x in K ==> (x, con.to) in inter && inter[(x, con.to)] == K[x]
    ensures InterOk(g, C, con.from, inter) && Outs(A, con.from) - {con} <= C
  {
    hide Combine, PullOk, Ranked;
    CloneTwins(A, B, con, f);
    forall p | p in inter ensures inter[p] != con.from && p.1 != con.from {
      if p in inter0 {
        assert Between(A, con.from, p.0, inter0[p], p.1);
      }
    }
    PulledInter(g, B, C, con.(from := f), K, inter, con.from, rank);
    forall b | b in Outs(A, con.from) - {con} ensures b in C {
      assert b in B && b.to != f;
      OldArcStays(g, B, C, con.(from := f), K, b);
    }
  }

  lemma OldArcStays(g: Ends, A: set<Arc>, C: set<Arc>, con: Arc, K: map<nat, nat>, b: Arc)
    requires PullOk(g, A, C, con, K) && b in A && b.to != con.from && b != con
    ensures b in C
  {
  }
}
