/** Quantified atoms of messy expressions: the parts of the NFA that the tree gets for them. */
module Atoms {
  import opened NfaGraph
  import opened SubNfas
  import opened Repetition
  import opened Quantifiers
  import Subexpr

  /** Where an atom is when it gets its quantifier: s is a new state, to which only an EMPTY arc leads. */
  ghost predicate AtomAt(n: Nfa, T: set<Arc>, begin: nat, end: nat, s: nat)
    reads n
  {
    && n.Valid() && {begin, end, s} <= (set x | x in n.states) && SubNfa(n.arcs, T, begin, end)
    && Outs(n.arcs, s) == {} && s !in Touches(T) + {begin, end}
  }

  /** The general case, an iteration: s to a new state s2 stands for m to max repetitions of the atom, which stays. */
  method IterateAtom(n: Nfa, begin: nat, end: nat, s: nat, m: nat, max: Subexpr.Max, ghost T: set<Arc>)
    returns (ok: bool, s2: nat, ghost B: set<Arc>)
    requires AtomAt(n, T, begin, end, s)
    modifies n`arcs, n`states, n`nstates
    ensures n.Valid() && s2 in n.states && s2 !in old(n.states)
    ensures ok <==> (max.AtMost? ==> m <= max.n)
    ensures ok ==> B <= n.arcs && StandsFor(B, s, s2, T, begin, end, m, max)
    ensures ok ==> SubNfa(n.arcs, B, s, s2) && T <= n.arcs
  {
    hide SubNfa, StandsFor, SameThrough, Touches;
    ghost var A, S := n.arcs, n.states;
    s2 := n.NewState();
    NotTouched(A, S, s2);
    n.MoveOuts(end, s2);
    StillSubNfa(A, n.arcs, T, begin, end, s, s2);
    ghost var A1 := n.arcs;
    ghost var D := DupNfa(n, begin, end, s, s2, T);
    CopyIsSub(A1, D, s, s2, set x | x in S);
    ghost var S1 := set x | x in n.states;
    FlagsOld(n, D, s, s2, S);
    ok, B := Repeat(n, s, s2, m, max, D);
    if ok {
      StandsTrans(B, s, s2, D, s, s2, T, begin, end, m, max);
      PlacedHolds(n.arcs, A1, D, B, T, s, s2, S1);
    }
  }

  lemma NotTouched(A: set<Arc>, S: seq<nat>, x: nat)
    requires (forall a :: a in A ==> a.from in S && a.to in S) && x !in S
    ensures x !in Touches(A)
  {
  }

  /** Moving what leaves end does not touch the atom. */
  lemma StillSubNfa(A: set<Arc>, A1: set<Arc>, T: set<Arc>, begin: nat, end: nat, s: nat, s2: nat)
    requires SubNfa(A, T, begin, end) && A1 == A - Outs(A, end) + LeaveFrom(Outs(A, end), s2)
    requires Outs(A, s) == {} && s !in Touches(T) + {begin, end} && s2 !in Touches(A) + {begin, end, s}
    ensures begin != end && SubNfa(A1, T, begin, end) && Outs(A1, s) == {} && s2 !in Touches(T)
    ensures forall a :: a in A1 ==> a.to != s2
  {
    forall a | a in A1 ensures a in A || (a.from == s2 && exists b :: b in A && b.from == end && b.to == a.to) {
      if a !in A {
        var b :| b in Outs(A, end) && a == b.(from := s2);
      }
    }
    forall a | a in A1 ensures a.from != s {
      assert a in A && a.from == s ==> a in Outs(A, s);
    }
    forall a | a in T ensures a in A1 {
      assert a.from != end;
    }
  }

  /** The copy shares only its ends with what was there. */
  lemma CopyIsSub(A: set<Arc>, D: set<Arc>, from: nat, to: nat, S: set<nat>)
    requires Strung(D, from, to) && D !! A && Outs(A, from) == {} && (forall a :: a in A ==> a.to != to)
    requires forall a :: a in A && a.from != to ==> a.from in S
    requires forall a :: a in A ==> a.to in S
    requires forall x :: x in Touches(D) ==> x == from || x == to || x !in S
    ensures SubNfa(A + D, D, from, to)
  {
    forall a | a in A + D - D ensures a.from != from {
      assert a in A && a.from == from ==> a in Outs(A, from);
    }
  }

  lemma FlagsOld(n: Nfa, D: set<Arc>, from: nat, to: nat, S: seq<nat>)
    requires n.pre in S && n.post in S
    requires forall x :: x in Touches(D) ==> x == from || x == to || x !in S
    ensures Deletable(n, D, from, to)
  {
  }

  /** What was there besides the copy is still there. */
  lemma PlacedHolds(A: set<Arc>, A1: set<Arc>, D: set<Arc>, B: set<Arc>, T: set<Arc>, from: nat, to: nat, S: set<nat>)
    requires Placed(A, A1 + D - D, B, from, to, D, S) && D !! A1 && T <= A1
    ensures B <= A && SubNfa(A, B, from, to) && T <= A
  {
    assert A1 + D - D == A1;
  }

  /** Without back references and with a minimum: x{m,n} becomes x{m-1,n-1}x, whose last x is the atom itself. */
  method PrefixAtom(n: Nfa, begin: nat, end: nat, s: nat, m: nat, max: Subexpr.Max, ghost T: set<Arc>)
    returns (ok: bool, ghost B: set<Arc>)
    requires AtomAt(n, T, begin, end, s) && Ins(n.arcs, begin) == {} && m > 0 && (max.AtMost? ==> max.n > 0)
    modifies n`arcs, n`states, n`nstates
    ensures n.Valid() && (ok <==> (max.AtMost? ==> m <= max.n))
    ensures ok ==> B + T <= n.arcs && Series(B, T, s, begin, end)
    ensures ok ==> StandsFor(B, s, begin, T, begin, end, m - 1, Fewer(max)) && StandsFor(B + T, s, end, T, begin, end, m, max)
  {
    hide SubNfa, StandsFor, SameThrough, Touches, Strung;
    ghost var A, S := n.arcs, n.states;
    ghost var S0 := set x | x in S;
    AtomApart(A, T, begin, end, S);
    ghost var D := DupNfa(n, begin, end, s, begin, T);
    NothingEnters(A, begin);
    CopyIsSub(A, D, s, begin, set x | x in S);
    FlagsOld(n, D, s, begin, S);
    ghost var S1 := set x | x in n.states;
    ok, B := Repeat(n, s, begin, m - 1, Fewer(max), D);
    if ok {
      StandsTrans(B, s, begin, D, s, begin, T, begin, end, m - 1, Fewer(max));
      PlacedHolds(n.arcs, A, D, B, T, s, begin, S1);
      PrefixSeries(n.arcs, A, D, B, T, s, begin, end, S0, S1);
      ThroughSelf(T, begin, end);
      SeriesStands(B, T, s, begin, end, T, begin, end, m, max);
    }
  }

  lemma AtomApart(A: set<Arc>, T: set<Arc>, begin: nat, end: nat, S: seq<nat>)
    requires SubNfa(A, T, begin, end) && forall a :: a in A ==> a.from in S && a.to in S
    ensures begin != end && T <= A && Strung(T, begin, end) && forall x :: x in Touches(T) ==> x in S
  {
  }

  lemma NothingEnters(A: set<Arc>, s: nat)
    requires Ins(A, s) == {}
    ensures forall a :: a in A ==> a.to != s
  {
    forall a | a in A ensures a.to != s {
      assert a.to == s ==> a in Ins(A, s);
    }
  }

  lemma ThroughSelf(T: set<Arc>, x: nat, y: nat)
    ensures SameThrough(T, x, y, T, x, y)
  {
  }

  /** The prefix and the atom share only the state where the atom begins. */
  lemma PrefixSeries(A: set<Arc>, A0: set<Arc>, D: set<Arc>, B: set<Arc>, T: set<Arc>, s: nat, begin: nat, end: nat, S: set<nat>, S1: set<nat>)
    requires Placed(A, A0 + D - D, B, s, begin, D, S1) && S <= S1 && Strung(T, begin, end)
    requires (forall x :: x in Touches(T) ==> x in S) && (forall x :: x in Touches(D) ==> x == s || x == begin || x !in S)
    requires s !in Touches(T) + {begin, end} && end in S
    ensures Series(B, T, s, begin, end)
  {
    forall x | x in Touches(B) && x in S ensures x == s || x == begin {
      assert x in S1;
    }
  }
}
