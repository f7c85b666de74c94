/** Bounded repetition of a sub-NFA. */
module Quantifiers {
  import opened NfaGraph
  import opened SubNfas
  import opened Repetition
  import Subexpr

  // ---------------------------------------------------------------- what the building blocks stand for

  lemma {:induction false} TimesSame(B: set<Arc>, x: nat, y: nat, sub: set<Arc>, lp: nat, rp: nat, u: seq<Label>, c: nat, i: nat, j: nat)
    requires SameThrough(B, x, y, sub, lp, rp)
    ensures Times(B, u, x, y, c, i, j) <==> Times(sub, u, lp, rp, c, i, j)
    decreases c
  {
    hide Leads;
    if c > 0 {
      var d: nat := c - 1;
      forall k: nat ensures Times(B, u, x, y, d, i, k) <==> Times(sub, u, lp, rp, d, i, k) {
        TimesSame(B, x, y, sub, lp, rp, u, d, i, k);
      }
    }
  }

  lemma SameTrans(B: set<Arc>, x: nat, y: nat, C: set<Arc>, v: nat, w: nat, sub: set<Arc>, lp: nat, rp: nat)
    requires SameThrough(B, x, y, C, v, w) && SameThrough(C, v, w, sub, lp, rp)
    ensures SameThrough(B, x, y, sub, lp, rp)
  {
    hide Leads;
    forall u: seq<Label>, i: nat, j: nat ensures Leads(B, u, x, i, y, j) <==> Leads(sub, u, lp, i, rp, j) {
      assert Leads(B, u, x, i, y, j) <==> Leads(C, u, v, i, w, j);
    }
  }

  /** What stands for repetitions of D stands for repetitions of whatever D leads through as. */
  lemma StandsTrans(B: set<Arc>, x: nat, y: nat, D: set<Arc>, v: nat, w: nat, sub: set<Arc>, lp: nat, rp: nat, m: nat, max: Subexpr.Max)
    requires StandsFor(B, x, y, D, v, w, m, max) && SameThrough(D, v, w, sub, lp, rp)
    ensures StandsFor(B, x, y, sub, lp, rp, m, max)
  {
    hide Leads, Times, Subexpr.Within;
    forall u: seq<Label>, i: nat, j: nat ensures Leads(B, u, x, i, y, j) <==> Repeated(sub, u, lp, rp, m, max, i, j) {
      assert Leads(B, u, x, i, y, j) <==> Repeated(D, u, v, w, m, max, i, j);
      forall c: nat ensures Times(D, u, v, w, c, i, j) <==> Times(sub, u, lp, rp, c, i, j) {
        TimesSame(D, v, w, sub, lp, rp, u, c, i, j);
      }
    }
  }

  function Fewer(max: Subexpr.Max): Subexpr.Max {
    if max.AtMost? && max.n > 0 then Subexpr.AtMost(max.n - 1) else max
  }

  /** One repetition less, and then one more. */
  lemma SeriesStands(B: set<Arc>, T: set<Arc>, lp: nat, s: nat, rp: nat, sub: set<Arc>, x: nat, y: nat, m: nat, max: Subexpr.Max)
    requires Series(B, T, lp, s, rp) && m > 0 && (max.AtMost? ==> max.n > 0)
    requires StandsFor(B, lp, s, sub, x, y, m - 1, Fewer(max)) && SameThrough(T, s, rp, sub, x, y)
    ensures StandsFor(B + T, lp, rp, sub, x, y, m, max)
  {
    forall u: seq<Label>, i: nat, j: nat ensures Leads(B + T, u, lp, i, rp, j) <==> Repeated(sub, u, x, y, m, max, i, j) {
      SeriesLeads(B, T, u, lp, s, rp, i, j);
      SeriesRepeats(B, T, u, lp, s, rp, sub, x, y, m, max, i, j);
    }
  }

  lemma SeriesRepeats(B: set<Arc>, T: set<Arc>, u: seq<Label>, lp: nat, s: nat, rp: nat, sub: set<Arc>, x: nat, y: nat,
                      m: nat, max: Subexpr.Max, i: nat, j: nat)
    requires m > 0 && (max.AtMost? ==> max.n > 0)
    requires StandsFor(B, lp, s, sub, x, y, m - 1, Fewer(max)) && SameThrough(T, s, rp, sub, x, y)
    ensures (exists k: nat :: Leads(B, u, lp, i, s, k) && Leads(T, u, s, k, rp, j)) <==> Repeated(sub, u, x, y, m, max, i, j)
  {
    hide Leads;
    if k: nat :| Leads(B, u, lp, i, s, k) && Leads(T, u, s, k, rp, j) {
      assert Repeated(sub, u, x, y, m - 1, Fewer(max), i, k);
      var c: nat :| Subexpr.Within(c, m - 1, Fewer(max)) && Times(sub, u, x, y, c, i, k);
      TimesNext(sub, u, x, y, c, i, k, j);
      assert Subexpr.Within(c + 1, m, max);
    }
    if Repeated(sub, u, x, y, m, max, i, j) {
      var c: nat :| Subexpr.Within(c, m, max) && Times(sub, u, x, y, c, i, j);
      var k: nat :| Times(sub, u, x, y, c - 1, i, k) && Leads(sub, u, x, k, y, j);
      assert Subexpr.Within(c - 1, m - 1, Fewer(max));
      assert Repeated(sub, u, x, y, m - 1, Fewer(max), i, k);
    }
  }

  /** With an EMPTY arc beside it, one or more becomes none or more. */
  lemma OptionStands(B: set<Arc>, lp: nat, rp: nat, sub: set<Arc>, x: nat, y: nat, max: Subexpr.Max)
    requires Strung(B, lp, rp) && StandsFor(B, lp, rp, sub, x, y, 1, max)
    ensures StandsFor(B + {Arc(EMPTY, 0, lp, rp)}, lp, rp, sub, x, y, 0, max)
  {
    hide Leads;
    forall u: seq<Label>, i: nat, j: nat
      ensures Leads(B + {Arc(EMPTY, 0, lp, rp)}, u, lp, i, rp, j) <==> Repeated(sub, u, x, y, 0, max, i, j) {
      OptionLeads(B, u, lp, rp, i, j);
      assert Leads(B, u, lp, i, rp, j) <==> Repeated(sub, u, x, y, 1, max, i, j);
      if i == j {
        assert Subexpr.Within(0, 0, max) && Times(sub, u, x, y, 0, i, j);
      }
      if c: nat :| Subexpr.Within(c, 1, max) && Times(sub, u, x, y, c, i, j) {
        assert Subexpr.Within(c, 0, max);
      }
      if c: nat :| Subexpr.Within(c, 0, max) && Times(sub, u, x, y, c, i, j) {
        assert c == 0 || Subexpr.Within(c, 1, max);
      }
    }
  }

  lemma OnceStands(sub: set<Arc>, lp: nat, rp: nat)
    ensures StandsFor(sub, lp, rp, sub, lp, rp, 1, Subexpr.AtMost(1))
  {
    hide Leads;
    forall u: seq<Label>, i: nat, j: nat ensures Leads(sub, u, lp, i, rp, j) <==> Repeated(sub, u, lp, rp, 1, Subexpr.AtMost(1), i, j) {
      TimesOnce(sub, u, lp, rp, i, j);
      assert forall c: nat :: Subexpr.Within(c, 1, Subexpr.AtMost(1)) <==> c == 1;
    }
  }

  lemma NoneStands(left: set<Arc>, sub: set<Arc>, lp: nat, rp: nat)
    requires Strung(left, lp, rp) && Outs(left, lp) == {}
    ensures StandsFor(left + {Arc(EMPTY, 0, lp, rp)}, lp, rp, sub, lp, rp, 0, Subexpr.AtMost(0))
  {
    hide Leads;
    forall u: seq<Label>, i: nat, j: nat
      ensures Leads(left + {Arc(EMPTY, 0, lp, rp)}, u, lp, i, rp, j) <==> Repeated(sub, u, lp, rp, 0, Subexpr.AtMost(0), i, j) {
      OptionLeads(left, u, lp, rp, i, j);
      if Leads(left, u, lp, i, rp, j) {
        NoWayOut(left, u, lp, i, rp, j);
      }
      assert Subexpr.Within(0, 0, Subexpr.AtMost(0)) && (Times(sub, u, lp, rp, 0, i, j) <==> i == j);
    }
  }

  lemma NoWayOut(A: set<Arc>, u: seq<Label>, x: nat, i: nat, y: nat, j: nat)
    requires Outs(A, x) == {} && Leads(A, u, x, i, y, j)
    ensures x == y
  {
    forall a | a in A ensures a.from != x {
      assert a.from == x ==> a in Outs(A, x);
    }
    LeadsLeast(A, u, iset{(x, i)}, x, i, y, j);
  }

  lemma LoopStands(sub: set<Arc>, B: set<Arc>, lp: nat, rp: nat, s: nat, t: nat)
    requires Looped(sub, B, lp, rp, s, t)
    ensures StandsFor(B, lp, rp, sub, lp, rp, if s == t then 0 else 1, Subexpr.Inf)
  {
    hide Leads, Looped;
    var least := if s == t then 0 else 1;
    forall u: seq<Label>, i: nat, j: nat ensures Leads(B, u, lp, i, rp, j) <==> Repeated(sub, u, lp, rp, least, Subexpr.Inf, i, j) {
      LoopLeads(sub, B, u, lp, rp, s, t, i, j);
      assert forall c: nat :: Subexpr.Within(c, least, Subexpr.Inf) <==> c >= least;
    }
  }

  // ---------------------------------------------------------------- rehanging

  /** The arcs Rest + B, with B strung between lp and rp over the states of sub and new ones. */
  ghost predicate Placed(A: set<Arc>, Rest: set<Arc>, B: set<Arc>, lp: nat, rp: nat, sub: set<Arc>, states0: set<nat>) {
    && A == Rest + B && Rest !! B && SubNfa(A, B, lp, rp)
    && forall x :: x in Touches(B) ==> x in Touches(sub) || x == lp || x == rp || x !in states0
  }

  /** sub with its left end moved from lp to the new state s. */
  ghost function FromNew(sub: set<Arc>, lp: nat, s: nat): set<Arc> {
    sub - Outs(sub, lp) + LeaveFrom(Outs(sub, lp), s)
  }

  lemma FromNewIsRenamed(sub: set<Arc>, lp: nat, rp: nat, s: nat) returns (h: map<nat, nat>)
    requires Strung(sub, lp, rp) && s !in Touches(sub) + {lp, rp}
    ensures Touches(sub) <= h.Keys && lp in h && rp in h && h[lp] == s && h[rp] == rp
    ensures forall p, q :: p in h && q in h && h[p] == h[q] ==> p == q
    ensures FromNew(sub, lp, s) == Renamed(sub, h)
  {
    h := map x | x in Touches(sub) + {lp, rp} :: if x == lp then s else x;
    forall a | a in sub ensures Rename(a, h) == if a.from == lp then a.(from := s) else a {
      assert a.from in Touches(sub) && a.to in Touches(sub);
    }
  }

  lemma FromNewSame(sub: set<Arc>, lp: nat, rp: nat, s: nat)
    requires Strung(sub, lp, rp) && s !in Touches(sub) + {lp, rp}
    ensures SameThrough(FromNew(sub, lp, s), s, rp, sub, lp, rp)
  {
    hide Leads, FromNew, Renamed;
    var h := FromNewIsRenamed(sub, lp, rp, s);
    forall u: seq<Label>, i: nat, j: nat ensures Leads(FromNew(sub, lp, s), u, s, i, rp, j) <==> Leads(sub, u, lp, i, rp, j) {
      CopyLeads(sub, h, u, lp, i, rp, j);
    }
  }

  lemma FromNewTouches(sub: set<Arc>, lp: nat, rp: nat, s: nat)
    requires Strung(sub, lp, rp) && s !in Touches(sub) + {lp, rp}
    ensures Touches(FromNew(sub, lp, s)) <= Touches(sub) - {lp} + {s}
    ensures Strung(FromNew(sub, lp, s), s, rp)
  {
    var T := FromNew(sub, lp, s);
    forall a | a in T ensures a.from in Touches(sub) - {lp} + {s} && a.to in Touches(sub) - {lp} && a.from != rp {
      if a in sub {
        assert a.from == lp ==> a in Outs(sub, lp);
        assert a.from in Touches(sub) && a.to in Touches(sub);
      } else {
        var b :| b in Outs(sub, lp) && a == b.(from := s);
        assert b.to in Touches(sub);
      }
    }
  }

  /** Moving the outarcs of lp to a new state. */
  lemma MovedOuts(A: set<Arc>, sub: set<Arc>, lp: nat, rp: nat, s: nat)
    requires SubNfa(A, sub, lp, rp) && s !in Touches(A) + {lp, rp}
    ensures var B := A - Outs(A, lp) + LeaveFrom(Outs(A, lp), s);
            B == A - sub + FromNew(sub, lp, s) && (A - sub) !! FromNew(sub, lp, s) && Outs(B, lp) == {}
    ensures SubNfa(A - sub + FromNew(sub, lp, s), FromNew(sub, lp, s), s, rp)
  {
    TouchesLess(sub, A);
    var T := FromNew(sub, lp, s);
    assert Outs(A, lp) == Outs(sub, lp);
    FromNewTouches(sub, lp, rp, s);
    forall a | a in A - sub ensures a !in T && a.from != s && a.to != s {
      assert a.from in Touches(A) && a.to in Touches(A);
    }
    forall a | a in T ensures a.from != lp {
      assert a.from in Touches(T);
    }
  }

  lemma TouchesLess(A: set<Arc>, B: set<Arc>)
    requires A <= B
    ensures Touches(A) <= Touches(B)
  {
  }

  /** After copying, the copy is a sub-NFA from lp to s. */
  lemma CopyPlacedWell(Rest: set<Arc>, T: set<Arc>, D: set<Arc>, lp: nat, s: nat, rp: nat, states0: set<nat>)
    requires SubNfa(Rest + T, T, s, rp) && Strung(D, lp, s) && D !! Rest + T
    requires forall a :: a in Rest + T ==> a.from != lp && a.from in states0 && a.to in states0 && a.to != s
    requires forall x :: x in Touches(D) ==> x == lp || x == s || x !in states0
    ensures SubNfa(Rest + T + D, D, lp, s)
  {
    var A := Rest + T + D;
    forall a | a in A - D ensures a.from != lp && a.to != s && (a.from in Touches(D) ==> a.from == s) && (a.to in Touches(D) ==> a.to == lp) {
      assert a in Rest + T;
    }
  }

  /** The repeated copy and the original make up a sub-NFA from lp to rp. */
  lemma JoinPlaced(Rest: set<Arc>, T: set<Arc>, B: set<Arc>, lp: nat, s: nat, rp: nat, sub: set<Arc>, states0: set<nat>, states1: set<nat>)
    requires SubNfa(Rest + sub, sub, lp, rp) && Rest !! sub && SubNfa(Rest + T + B, B, lp, s) && Rest !! T && B !! Rest + T
    requires Strung(T, s, rp) && Touches(T) <= Touches(sub) - {lp} + {s} && Touches(sub) + {lp, rp} <= states0 <= states1
    requires forall a :: a in Rest ==> a.from in states0 && a.to in states0
    requires s !in states0 && s in states1 && forall x :: x in Touches(B) ==> x == lp || x == s || x !in states1
    requires lp != rp
    ensures Placed(Rest + T + B, Rest, B + T, lp, rp, sub, states0) && Series(B, T, lp, s, rp)
  {
    var A := Rest + T + B;
    JoinTouches(T, B);
    forall a | a in B + T ensures a.to != lp && a.from != rp {
      if a in B {
        assert a.from in Touches(B) && a.from != s;
      } else {
        assert a.to in Touches(T);
      }
    }
    forall a | a in Rest ensures a !in B + T && a.from != lp && a.to != rp
        && (a.from in Touches(B + T) ==> a.from == rp) && (a.to in Touches(B + T) ==> a.to == lp) {
      RestApart(Rest, sub, lp, rp, a);
    }
    assert A - (B + T) == Rest;
  }

  lemma RestApart(Rest: set<Arc>, sub: set<Arc>, lp: nat, rp: nat, a: Arc)
    requires SubNfa(Rest + sub, sub, lp, rp) && a in Rest && a !in sub
    ensures a.from != lp && a.to != rp && (a.from in Touches(sub) ==> a.from == rp) && (a.to in Touches(sub) ==> a.to == lp)
  {
    assert a in Rest + sub - sub;
  }

  lemma JoinTouches(T: set<Arc>, B: set<Arc>)
    ensures Touches(B + T) == Touches(B) + Touches(T)
  {
  }

  // ---------------------------------------------------------------- repeat

  /** The states between lp and rp can be deleted. */
  ghost predicate Deletable(n: Nfa, sub: set<Arc>, lp: nat, rp: nat) {
    forall x :: x in Touches(sub) && x != lp && x != rp ==> !n.Flag(x)
  }

  /** The states outside sub, and its two ends, are still there. */
  ghost predicate Remain(states0: seq<nat>, states: seq<nat>, sub: set<Arc>, lp: nat, rp: nat) {
    forall x :: x in states0 && (x !in Touches(sub) || x == lp || x == rp) ==> x in states
  }

  /** Replicates the sub-NFA strung from lp to rp, so that it stands for m to max repetitions of what it was. */
  method Repeat(n: Nfa, lp: nat, rp: nat, m: nat, max: Subexpr.Max, ghost sub: set<Arc>) returns (ok: bool, ghost B: set<Arc>)
    requires n.Valid() && lp in n.states && rp in n.states && SubNfa(n.arcs, sub, lp, rp) && Deletable(n, sub, lp, rp)
    modifies n`arcs, n`states, n`nstates
    ensures n.Valid() && Remain(old(n.states), n.states, sub, lp, rp)
    ensures ok <==> (max.AtMost? ==> m <= max.n)
    ensures ok ==> Placed(n.arcs, old(n.arcs) - sub, B, lp, rp, sub, set x | x in old(n.states))
    ensures ok ==> StandsFor(B, lp, rp, sub, lp, rp, m, max)
    decreases if max.AtMost? then max.n else m, if m == 0 then 1 else 0, 1
  {
    hide StandsFor, SubNfa, Touches;
    B := sub;
    ghost var A := n.arcs;
    SubArcs(A, sub, lp, rp);
    match max
    case Inf =>
      ok := true;
      if m == 0 {
        B := LoopAround(n, lp, rp, sub);
      } else if m == 1 {
        B := LoopOver(n, lp, rp, sub);
      } else {
        ok, B := RepeatAndOnce(n, lp, rp, m, max, sub);
      }
    case AtMost(k) =>
      if m == 0 && k == 0 {
        ok := true;
        ghost var left := DelSub(n, lp, rp, sub);
        n.NewArc(EMPTY, 0, lp, rp);
        B := left + {Arc(EMPTY, 0, lp, rp)};
        DeletedPlaced(A, sub, left, lp, rp, set x | x in old(n.states));
        NoneStands(left, sub, lp, rp);
      } else if m == 0 {
        ok := true;
        if k > 1 {
          ok, B := Repeat(n, lp, rp, 1, max, sub);
        }
        ghost var C := B;
        n.NewArc(EMPTY, 0, lp, rp);
        B := C + {Arc(EMPTY, 0, lp, rp)};
        if k == 1 { OnceStands(sub, lp, rp); SelfPlaced(A, sub, lp, rp, set x | x in old(n.states)); }
        OptionPlaced(A - sub, C, lp, rp, sub, set x | x in old(n.states));
        OptionStands(C, lp, rp, sub, lp, rp, max);
      } else if m == 1 && k == 1 {
        ok := true;
        OnceStands(sub, lp, rp);
        SelfPlaced(A, sub, lp, rp, set x | x in old(n.states));
      } else if k > 1 {
        ok, B := RepeatAndOnce(n, lp, rp, m, max, sub);
      } else {
        ok := false;
      }
  }

  lemma SubArcs(A: set<Arc>, sub: set<Arc>, lp: nat, rp: nat)
    requires SubNfa(A, sub, lp, rp)
    ensures sub <= A && Strung(sub, lp, rp) && lp != rp && A - sub + sub == A
  {
  }

  lemma SelfPlaced(A: set<Arc>, sub: set<Arc>, lp: nat, rp: nat, states: set<nat>)
    requires SubNfa(A, sub, lp, rp)
    ensures Placed(A, A - sub, sub, lp, rp, sub, states)
  {
    SubArcs(A, sub, lp, rp);
  }

  lemma OptionPlaced(Rest: set<Arc>, C: set<Arc>, lp: nat, rp: nat, sub: set<Arc>, states: set<nat>)
    requires Placed(Rest + C, Rest, C, lp, rp, sub, states)
    ensures Strung(C, lp, rp)
    ensures var B := C + {Arc(EMPTY, 0, lp, rp)}; Placed(Rest + C + {Arc(EMPTY, 0, lp, rp)}, Rest, B, lp, rp, sub, states)
  {
    var e := Arc(EMPTY, 0, lp, rp);
    var B := C + {e};
    JoinTouches({e}, C);
    assert Touches({e}) == {lp, rp};
    forall a | a in Rest ensures a.from != lp && a.to != rp && (a.from in Touches(C) ==> a.from == rp) && (a.to in Touches(C) ==> a.to == lp) {
      assert a in Rest + C - C;
    }
    assert Rest + C + {e} - B == Rest;
  }

  lemma DeletedPlaced(A: set<Arc>, sub: set<Arc>, left: set<Arc>, lp: nat, rp: nat, states: set<nat>)
    requires SubNfa(A, sub, lp, rp) && left <= sub && Outs(A - sub + left, lp) == {}
    ensures Strung(left, lp, rp) && Outs(left, lp) == {}
    ensures Placed(A - sub + left + {Arc(EMPTY, 0, lp, rp)}, A - sub, left + {Arc(EMPTY, 0, lp, rp)}, lp, rp, sub, states)
  {
    TouchesLess(left, sub);
    forall a | a in left ensures a.from != lp {
      assert a.from == lp ==> a in Outs(A - sub + left, lp);
    }
    assert A - sub + left - left == A - sub;
    assert Placed(A - sub + left, A - sub, left, lp, rp, sub, states);
    OptionPlaced(A - sub, left, lp, rp, sub, states);
  }

  // ---------------------------------------------------------------- loops

  /** Moving the outarcs of lp to s and the inarcs of rp to t hangs sub between s and t. */
  lemma MovedBoth(A: set<Arc>, sub: set<Arc>, lp: nat, rp: nat, s: nat, t: nat)
    requires SubNfa(A, sub, lp, rp) && s !in Touches(A) + {lp, rp} && t !in Touches(A) + {lp, rp}
    ensures var A1 := A - Outs(A, lp) + LeaveFrom(Outs(A, lp), s);
            A1 - Ins(A1, rp) + Enter(Ins(A1, rp), t) == A - sub + Hung(sub, lp, rp, s, t)
  {
    var A1 := A - Outs(A, lp) + LeaveFrom(Outs(A, lp), s);
    var A2 := A1 - Ins(A1, rp) + Enter(Ins(A1, rp), t);
    var T := FromNew(sub, lp, s);
    MovedOuts(A, sub, lp, rp, s);
    RestKeepsOff(A, sub, lp, rp);
    assert Ins(A1, rp) == Ins(T, rp);
    HungInSteps(sub, lp, rp, s, t);
    assert A2 == (A - sub) + (T - Ins(T, rp) + Enter(Ins(T, rp), t));
  }

  lemma RestKeepsOff(A: set<Arc>, sub: set<Arc>, lp: nat, rp: nat)
    requires SubNfa(A, sub, lp, rp)
    ensures forall a :: a in A - sub ==> a.to != rp && a.from != lp
  {
  }

  lemma HungInSteps(sub: set<Arc>, lp: nat, rp: nat, s: nat, t: nat)
    requires Strung(sub, lp, rp) && s !in Touches(sub) + {lp, rp} && t !in Touches(sub) + {lp, rp}
    ensures var T := FromNew(sub, lp, s); T - Ins(T, rp) + Enter(Ins(T, rp), t) == Hung(sub, lp, rp, s, t)
  {
    var T := FromNew(sub, lp, s);
    var H := Hung(sub, lp, rp, s, t);
    forall b ensures b in T - Ins(T, rp) + Enter(Ins(T, rp), t) <==> b in H {
      if b in T - Ins(T, rp) {
        FromNewWas(sub, lp, s, b);
      } else if b in Enter(Ins(T, rp), t) {
        var c :| c in Ins(T, rp) && b == c.(to := t);
        FromNewWas(sub, lp, s, c);
      }
      if b in H {
        var a :| a in sub && b == a.(from := if a.from == lp then s else a.from, to := if a.to == rp then t else a.to);
        var c := if a.from == lp then a.(from := s) else a;
        FromNewHas(sub, lp, s, a);
        assert a.from in Touches(sub) && a.to in Touches(sub);
        if a.to == rp { assert c in Ins(T, rp) && b == c.(to := t); }
      }
    }
  }

  lemma FromNewHas(sub: set<Arc>, lp: nat, s: nat, a: Arc)
    requires a in sub
    ensures (if a.from == lp then a.(from := s) else a) in FromNew(sub, lp, s)
  {
    if a.from == lp { assert a in Outs(sub, lp); }
  }

  lemma FromNewWas(sub: set<Arc>, lp: nat, s: nat, c: Arc)
    requires c in FromNew(sub, lp, s)
    ensures exists a :: a in sub && c == if a.from == lp then a.(from := s) else a
  {
    if c in sub - Outs(sub, lp) {
      assert c.from != lp;
    } else {
      var a :| a in Outs(sub, lp) && c == a.(from := s);
      assert a in sub && a.from == lp;
    }
  }

  lemma LoopedPlaced(A: set<Arc>, sub: set<Arc>, E: set<Arc>, lp: nat, rp: nat, s: nat, t: nat, states: set<nat>)
    requires SubNfa(A, sub, lp, rp) && Touches(A) + {lp, rp} <= states && s !in states && t !in states
    requires E == LoopArcs(lp, rp, s, t)
    ensures Placed(A - sub + Hung(sub, lp, rp, s, t) + E, A - sub, Hung(sub, lp, rp, s, t) + E, lp, rp, sub, states)
    ensures Looped(sub, Hung(sub, lp, rp, s, t) + E, lp, rp, s, t)
  {
    TouchesLess(sub, A);
    var B := Hung(sub, lp, rp, s, t) + E;
    forall b | b in B ensures b.to != lp && b.from != rp && (b.from in Touches(sub) || b.from in {lp, s, t})
                              && (b.to in Touches(sub) || b.to in {rp, s, t}) && (b.from == s || b.from == t || b.to == s || b.to == t || b in sub) {
      LoopArc(sub, E, lp, rp, s, t, b);
    }
    forall a | a in A - sub ensures a !in B && a.from != lp && a.to != rp
        && (a.from in Touches(B) ==> a.from == rp) && (a.to in Touches(B) ==> a.to == lp) {
      assert a.from in Touches(A) && a.to in Touches(A);
    }
    assert A - sub + Hung(sub, lp, rp, s, t) + E - B == A - sub;
  }

  lemma LoopArc(sub: set<Arc>, E: set<Arc>, lp: nat, rp: nat, s: nat, t: nat, b: Arc)
    requires Strung(sub, lp, rp) && s !in Touches(sub) + {lp, rp} && t !in Touches(sub) + {lp, rp}
    requires E == LoopArcs(lp, rp, s, t)
    requires b in Hung(sub, lp, rp, s, t) + E
    ensures b.to != lp && b.from != rp && (b.from in Touches(sub) || b.from in {lp, s, t})
            && (b.to in Touches(sub) || b.to in {rp, s, t}) && (b.from == s || b.from == t || b.to == s || b.to == t || b in sub)
  {
    if b in Hung(sub, lp, rp, s, t) {
      var a :| a in sub && b == a.(from := if a.from == lp then s else a.from, to := if a.to == rp then t else a.to);
      assert a.from in Touches(sub) && a.to in Touches(sub);
    }
  }

  lemma RemainGrown(states0: seq<nat>, states: seq<nat>, sub: set<Arc>, lp: nat, rp: nat)
    requires states0 <= states
    ensures Remain(states0, states, sub, lp, rp)
  {
  }

  lemma TouchesStates(n: Nfa)
    requires n.Valid()
    ensures Touches(n.arcs) <= set x | x in n.states
  {
  }

  /** Hangs sub between s and t. */
  method MoveEnds(n: Nfa, lp: nat, rp: nat, s: nat, t: nat, ghost sub: set<Arc>)
    requires n.Valid() && lp != s && rp != t && s in n.states && t in n.states && SubNfa(n.arcs, sub, lp, rp)
    requires s !in Touches(n.arcs) + {lp, rp} && t !in Touches(n.arcs) + {lp, rp}
    modifies n`arcs
    ensures n.Valid() && n.arcs == old(n.arcs) - sub + Hung(sub, lp, rp, s, t)
  {
    hide SubNfa, Touches, Hung, Ins, Outs, Enter, LeaveFrom;
    MovedBoth(n.arcs, sub, lp, rp, s, t);
    n.MoveOuts(lp, s);
    n.MoveIns(rp, t);
  }

  /** Loops x around, for any number of times. */
  method LoopAround(n: Nfa, lp: nat, rp: nat, ghost sub: set<Arc>) returns (ghost B: set<Arc>)
    requires n.Valid() && lp in n.states && rp in n.states && SubNfa(n.arcs, sub, lp, rp)
    modifies n`arcs, n`states, n`nstates
    ensures n.Valid() && Remain(old(n.states), n.states, sub, lp, rp)
    ensures Placed(n.arcs, old(n.arcs) - sub, B, lp, rp, sub, set x | x in old(n.states))
    ensures StandsFor(B, lp, rp, sub, lp, rp, 0, Subexpr.Inf)
  {
    hide StandsFor, SubNfa, Touches, Placed, Looped, Hung, Ins, Outs, Enter, LeaveFrom, LoopArcs, Remain;
    ghost var A, states := n.arcs, set x | x in n.states;
    TouchesStates(n);
    ghost var old0 := n.states;
    var s := n.NewState();
    MoveEnds(n, lp, rp, s, s, sub);
    n.NewArc(EMPTY, 0, lp, s);
    n.NewArc(EMPTY, 0, s, rp);
    ghost var E := LoopArcs(lp, rp, s, s);
    B := Hung(sub, lp, rp, s, s) + E;
    LoopedPlaced(A, sub, E, lp, rp, s, s, states);
    LoopStands(sub, B, lp, rp, s, s);
    RemainGrown(old0, n.states, sub, lp, rp);
    assert n.arcs == A - sub + Hung(sub, lp, rp, s, s) + E;
  }

  lemma LoopFacts(A: set<Arc>, sub: set<Arc>, lp: nat, rp: nat, s: nat, t: nat, states0: seq<nat>, states: seq<nat>)
    requires SubNfa(A, sub, lp, rp) && lp in states0 && rp in states0 && Touches(A) <= set x | x in states0
    requires s != t && s !in states0 && t !in states0 && states0 <= states
    ensures Remain(states0, states, sub, lp, rp)
    ensures var B := Hung(sub, lp, rp, s, t) + LoopArcs(lp, rp, s, t);
            && Placed(A - sub + Hung(sub, lp, rp, s, t) + LoopArcs(lp, rp, s, t), A - sub, B, lp, rp, sub, set x | x in states0)
            && StandsFor(B, lp, rp, sub, lp, rp, 1, Subexpr.Inf)
  {
    hide StandsFor, SubNfa, Touches, Placed, Looped, Hung, LoopArcs, Remain;
    var E := LoopArcs(lp, rp, s, t);
    LoopedPlaced(A, sub, E, lp, rp, s, t, set x | x in states0);
    RemainGrown(states0, states, sub, lp, rp);
    LoopStands(sub, Hung(sub, lp, rp, s, t) + E, lp, rp, s, t);
  }

  lemma PlusThree(H: set<Arc>, a: Arc, b: Arc, c: Arc)
    ensures H + {a} + {b} + {c} == H + ({a} + {b} + {c})
  {
  }

  /** Adds a loopback arc, for one time or more. */
  method LoopOver(n: Nfa, lp: nat, rp: nat, ghost sub: set<Arc>) returns (ghost B: set<Arc>)
    requires n.Valid() && lp in n.states && rp in n.states && SubNfa(n.arcs, sub, lp, rp)
    modifies n`arcs, n`states, n`nstates
    ensures n.Valid() && Remain(old(n.states), n.states, sub, lp, rp)
    ensures Placed(n.arcs, old(n.arcs) - sub, B, lp, rp, sub, set x | x in old(n.states))
    ensures StandsFor(B, lp, rp, sub, lp, rp, 1, Subexpr.Inf)
  {
    hide StandsFor, SubNfa, Touches, Placed, Looped, Hung, Ins, Outs, Enter, LeaveFrom, LoopArcs, Remain;
    ghost var A, states := n.arcs, set x | x in n.states;
    TouchesStates(n);
    ghost var old0 := n.states;
    var s := n.NewState();
    var s2 := n.NewState();
    ghost var E := LoopArcs(lp, rp, s, s2);
    B := Hung(sub, lp, rp, s, s2) + E;
    LoopFacts(A, sub, lp, rp, s, s2, old0, n.states);
    MoveEnds(n, lp, rp, s, s2, sub);
    n.NewArc(EMPTY, 0, lp, s);
    n.NewArc(EMPTY, 0, s2, rp);
    n.NewArc(EMPTY, 0, s2, s);
    PlusThree(A - sub + Hung(sub, lp, rp, s, s2), Arc(EMPTY, 0, lp, s), Arc(EMPTY, 0, s2, rp), Arc(EMPTY, 0, s2, s));
  }

  // ---------------------------------------------------------------- one repetition less, then once more

  method RepeatAndOnce(n: Nfa, lp: nat, rp: nat, m: nat, max: Subexpr.Max, ghost sub: set<Arc>) returns (ok: bool, ghost B: set<Arc>)
    requires n.Valid() && lp in n.states && rp in n.states && SubNfa(n.arcs, sub, lp, rp) && Deletable(n, sub, lp, rp)
    requires if max.AtMost? then max.n >= 2 && m >= 1 else m >= 2
    modifies n`arcs, n`states, n`nstates
    ensures n.Valid() && Remain(old(n.states), n.states, sub, lp, rp)
    ensures ok <==> (max.AtMost? ==> m <= max.n)
    ensures ok ==> Placed(n.arcs, old(n.arcs) - sub, B, lp, rp, sub, set x | x in old(n.states))
    ensures ok ==> StandsFor(B, lp, rp, sub, lp, rp, m, max)
    decreases if max.AtMost? then max.n else m, if m == 0 then 1 else 0, 0
  {
    hide StandsFor, SubNfa, Touches, Placed, Series, FromNew, SameThrough, Strung;
    ghost var A, Rest := n.arcs, n.arcs - sub;
    ghost var states: set<nat> := set x | x in n.states;
    B := {};
    TouchesStates(n);
    SubArcs(A, sub, lp, rp);
    ghost var T, D;
    var s;
    s, T, D := DupFirst(n, lp, rp, sub);
    ghost var states1: set<nat> := set x | x in n.states;
    ghost var Left := Rest + T;
    ghost var C;
    ok, C := Repeat(n, lp, s, if m == 1 then 1 else m - 1, Fewer(max), D);
    if !ok {
      return;
    }
    assert Left + D - D == Left;
    PlacedArcs(n.arcs, Left, C, lp, s, D, states1);
    if m == 1 {
      n.NewArc(EMPTY, 0, lp, s);
      OptionPlaced(Left, C, lp, s, D, states1);
      OptionStands(C, lp, s, D, lp, s, Fewer(max));
      C := C + {Arc(EMPTY, 0, lp, s)};
      PlacedArcs(n.arcs, Left, C, lp, s, D, states1);
    }
    StandsTrans(C, lp, s, D, lp, s, sub, lp, rp, m - 1, Fewer(max));
    TouchesLess(sub, A);
    FromNewTouches(sub, lp, rp, s);
    RestStates(A, Rest, states);
    JoinPlaced(Rest, T, C, lp, s, rp, sub, states, states + {s});
    SeriesStands(C, T, lp, s, rp, sub, lp, rp, m, max);
    B := C + T;
  }

  lemma PlacedArcs(A: set<Arc>, Rest: set<Arc>, B: set<Arc>, lp: nat, rp: nat, sub: set<Arc>, states: set<nat>)
    requires Placed(A, Rest, B, lp, rp, sub, states)
    ensures A == Rest + B && Rest !! B && SubNfa(A, B, lp, rp)
    ensures forall x :: x in Touches(B) ==> x in Touches(sub) || x == lp || x == rp || x !in states
  {
  }

  lemma RestStates(A: set<Arc>, Rest: set<Arc>, states: set<nat>)
    requires Rest <= A && Touches(A) <= states
    ensures forall a :: a in Rest ==> a.from in states && a.to in states
  {
    forall a | a in Rest ensures a.from in states && a.to in states {
      assert a.from in Touches(A) && a.to in Touches(A);
    }
  }

  /** Moves sub to the right of a new state s, and puts a copy of it to the left. */
  method DupFirst(n: Nfa, lp: nat, rp: nat, ghost sub: set<Arc>) returns (s: nat, ghost T: set<Arc>, ghost D: set<Arc>)
    requires n.Valid() && lp in n.states && rp in n.states && SubNfa(n.arcs, sub, lp, rp) && Deletable(n, sub, lp, rp)
    modifies n`arcs, n`states, n`nstates
    ensures n.Valid() && s !in old(n.states) && s in n.states && forall x :: x in old(n.states) ==> x in n.states
    ensures T == FromNew(sub, lp, s) && n.arcs == old(n.arcs) - sub + T + D && (old(n.arcs) - sub) !! T && D !! old(n.arcs) - sub + T
    ensures SubNfa(n.arcs, D, lp, s) && Deletable(n, D, lp, s)
    ensures Strung(D, lp, s) && SameThrough(D, lp, s, sub, lp, rp) && SameThrough(T, s, rp, sub, lp, rp)
    ensures forall x :: x in Touches(D) ==> x == lp || x == s || (x !in old(n.states) && x != s)
  {
    hide StandsFor, SubNfa, Touches, Placed, Series, FromNew, SameThrough, Strung;
    ghost var A, Rest := n.arcs, n.arcs - sub;
    TouchesStates(n);
    SubArcs(A, sub, lp, rp);
    TouchesLess(sub, A);
    s := n.NewState();
    n.MoveOuts(lp, s);
    T := FromNew(sub, lp, s);
    MovedOuts(A, sub, lp, rp, s);
    FromNewSame(sub, lp, rp, s);
    FromNewTouches(sub, lp, rp, s);
    ghost var B := n.arcs;
    ghost var states1: set<nat> := set x | x in n.states;
    D := DupNfa(n, s, rp, lp, s, T);
    MovedArcs(A, B, sub, T, lp, s, rp, states1);
    CopyPlacedWell(Rest, T, D, lp, s, rp, states1);
    SameTrans(D, lp, s, T, s, rp, sub, lp, rp);
  }

  lemma MovedArcs(A: set<Arc>, B: set<Arc>, sub: set<Arc>, T: set<Arc>, lp: nat, s: nat, rp: nat, states: set<nat>)
    requires B == A - sub + T && Touches(A) <= states - {s} && s in states && lp in states && Outs(B, lp) == {}
    requires Strung(T, s, rp) && Touches(T) <= states
    ensures forall a :: a in B ==> a.from != lp && a.from in states && a.to in states && a.to != s
  {
    forall a | a in B ensures a.from != lp && a.from in states && a.to in states && a.to != s {
      assert a.from == lp ==> a in Outs(B, lp);
      if a in T {
        assert a.from in Touches(T) && a.to in Touches(T);
      } else {
        assert a.from in Touches(A) && a.to in Touches(A);
      }
    }
  }
}
