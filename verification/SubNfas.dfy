/** Sub-NFAs strung between two states: which label sequences lead through them,
    and how sequencing, options and loops combine. */
module SubNfas {
  import opened NfaGraph
  import ArcWalks

  type Label = (ArcType, nat)

  /** From x at position i of the label sequence u, arcs of A lead to y at position j. */
  ghost predicate Leads(A: set<Arc>, u: seq<Label>, x: nat, i: nat, y: nat, j: nat) {
    ArcWalks.Speller(x, i, u).Reached(A, y, j)
  }

  /** P is preserved by every arc of A. */
  ghost predicate Kept(A: set<Arc>, u: seq<Label>, P: iset<(nat, nat)>) {
    forall a, i: nat, j: nat :: a in A && (a.from, i) in P && ArcWalks.Spells(u, a, i, j) ==> (a.to, j) in P
  }

  lemma LeadsSelf(A: set<Arc>, u: seq<Label>, x: nat, i: nat)
    ensures Leads(A, u, x, i, x, i)
  {
  }

  lemma LeadsOn(A: set<Arc>, u: seq<Label>, x: nat, i: nat, a: Arc, j: nat, k: nat)
    requires Leads(A, u, x, i, a.from, j) && a in A && ArcWalks.Spells(u, a, j, k)
    ensures Leads(A, u, x, i, a.to, k)
  {
    ArcWalks.Forward(ArcWalks.Speller(x, i, u), A, a, j, k);
  }

  lemma LeadsLeast(A: set<Arc>, u: seq<Label>, P: iset<(nat, nat)>, x: nat, i: nat, y: nat, j: nat)
    requires Kept(A, u, P) && (x, i) in P && Leads(A, u, x, i, y, j)
    ensures (y, j) in P
  {
    ArcWalks.IsClosed(ArcWalks.Speller(x, i, u), A, P);
    ArcWalks.Least(ArcWalks.Speller(x, i, u), A, P, y, j);
  }

  lemma LeadsMore(A: set<Arc>, B: set<Arc>, u: seq<Label>, x: nat, i: nat, y: nat, j: nat)
    requires A <= B && Leads(A, u, x, i, y, j)
    ensures Leads(B, u, x, i, y, j)
  {
    ArcWalks.ReachedMore(ArcWalks.Speller(x, i, u), A, B, y, j);
  }

  lemma LeadsTrans(A: set<Arc>, u: seq<Label>, x: nat, i: nat, y: nat, j: nat, z: nat, k: nat)
    requires Leads(A, u, x, i, y, j) && Leads(A, u, y, j, z, k)
    ensures Leads(A, u, x, i, z, k)
  {
    hide Leads;
    var P := iset p: (nat, nat) | Leads(A, u, x, i, p.0, p.1);
    forall a, m: nat, n: nat | a in A && (a.from, m) in P && ArcWalks.Spells(u, a, m, n) ensures (a.to, n) in P {
      LeadsOn(A, u, x, i, a, m, n);
    }
    LeadsLeast(A, u, P, y, j, z, k);
  }

  // ---------------------------------------------------------------- sub-NFAs

  /** The states at the ends of arcs of A. */
  ghost function Touches(A: set<Arc>): set<nat> {
    (set a | a in A :: a.from) + (set a | a in A :: a.to)
  }

  /** sub runs from lp to rp: nothing in it enters lp or leaves rp. */
  ghost predicate Strung(sub: set<Arc>, lp: nat, rp: nat) {
    lp != rp && forall a :: a in sub ==> a.to != lp && a.from != rp
  }

  /** The only states that sub shares with the rest of A are its ends, and at those it has its own side for itself. */
  ghost predicate SubNfa(A: set<Arc>, sub: set<Arc>, lp: nat, rp: nat) {
    && sub <= A && Strung(sub, lp, rp)
    && forall a :: a in A - sub ==> a.from != lp && a.to != rp
                                    && (a.from in Touches(sub) ==> a.from == rp) && (a.to in Touches(sub) ==> a.to == lp)
  }

  /** c passes through sub, one after the other, lead from position i to position j. */
  ghost predicate Times(sub: set<Arc>, u: seq<Label>, lp: nat, rp: nat, c: nat, i: nat, j: nat) {
    if c == 0 then i == j
    else exists k: nat :: Times(sub, u, lp, rp, c - 1, i, k) && Leads(sub, u, lp, k, rp, j)
  }

  lemma TimesOnce(sub: set<Arc>, u: seq<Label>, lp: nat, rp: nat, i: nat, j: nat)
    ensures Times(sub, u, lp, rp, 1, i, j) <==> Leads(sub, u, lp, i, rp, j)
  {
    assert Times(sub, u, lp, rp, 0, i, i);
  }

  lemma TimesNext(sub: set<Arc>, u: seq<Label>, lp: nat, rp: nat, c: nat, i: nat, k: nat, j: nat)
    requires Times(sub, u, lp, rp, c, i, k) && Leads(sub, u, lp, k, rp, j)
    ensures Times(sub, u, lp, rp, c + 1, i, j)
  {
  }

  // ---------------------------------------------------------------- one after the other

  /** D from lp to s, followed by T from s to rp. */
  ghost predicate Series(D: set<Arc>, T: set<Arc>, lp: nat, s: nat, rp: nat) {
    && Strung(D, lp, s) && Strung(T, s, rp) && lp != rp
    && Touches(D) * Touches(T) <= {s} && lp !in Touches(T) && rp !in Touches(D)
  }

  lemma SeriesLeads(D: set<Arc>, T: set<Arc>, u: seq<Label>, lp: nat, s: nat, rp: nat, i: nat, j: nat)
    requires Series(D, T, lp, s, rp)
    ensures Leads(D + T, u, lp, i, rp, j) <==> exists k: nat :: Leads(D, u, lp, i, s, k) && Leads(T, u, s, k, rp, j)
  {
    if k: nat :| Leads(D, u, lp, i, s, k) && Leads(T, u, s, k, rp, j) {
      LeadsMore(D, D + T, u, lp, i, s, k);
      LeadsMore(T, D + T, u, s, k, rp, j);
      LeadsTrans(D + T, u, lp, i, s, k, rp, j);
    }
    if Leads(D + T, u, lp, i, rp, j) {
      SeriesSplits(D, T, u, lp, s, rp, i, j);
    }
  }

  ghost predicate Beyond(D: set<Arc>, T: set<Arc>, u: seq<Label>, lp: nat, s: nat, i: nat, x: nat, q: nat) {
    exists k: nat :: Leads(D, u, lp, i, s, k) && Leads(T, u, s, k, x, q)
  }

  lemma SeriesSplits(D: set<Arc>, T: set<Arc>, u: seq<Label>, lp: nat, s: nat, rp: nat, i: nat, j: nat)
    requires Series(D, T, lp, s, rp) && Leads(D + T, u, lp, i, rp, j)
    ensures Beyond(D, T, u, lp, s, i, rp, j)
  {
    hide Leads;
    var near := Touches(D) + {lp, s};
    var P := iset p: (nat, nat) | if p.0 in near then Leads(D, u, lp, i, p.0, p.1) else Beyond(D, T, u, lp, s, i, p.0, p.1);
    forall a, m: nat, n: nat | a in D + T && (a.from, m) in P && ArcWalks.Spells(u, a, m, n) ensures (a.to, n) in P {
      if a in D {
        assert a.from in Touches(D) && a.to in Touches(D);
        LeadsOn(D, u, lp, i, a, m, n);
      } else {
        assert a.from in Touches(T) && a.to in Touches(T);
        assert a.from in Touches(D) ==> a.from in Touches(D) * Touches(T);
        assert a.to in Touches(D) ==> a.to in Touches(D) * Touches(T);
        if a.from == s {
          LeadsSelf(T, u, s, m);
          LeadsOn(T, u, s, m, a, m, n);
        } else {
          var k: nat :| Leads(D, u, lp, i, s, k) && Leads(T, u, s, k, a.from, m);
          LeadsOn(T, u, s, k, a, m, n);
        }
      }
    }
    LeadsSelf(D, u, lp, i);
    LeadsLeast(D + T, u, P, lp, i, rp, j);
  }

  // ---------------------------------------------------------------- options

  /** Nothing leads back to lp. */
  lemma OnlyAtStart(sub: set<Arc>, u: seq<Label>, lp: nat, rp: nat, i: nat, q: nat)
    requires Strung(sub, lp, rp) && Leads(sub, u, lp, i, lp, q)
    ensures q == i
  {
    var P := iset p: (nat, nat) | p.0 == lp ==> p.1 == i;
    LeadsLeast(sub, u, P, lp, i, lp, q);
  }

  /** An EMPTY arc beside sub makes it optional. */
  lemma OptionLeads(sub: set<Arc>, u: seq<Label>, lp: nat, rp: nat, i: nat, j: nat)
    requires Strung(sub, lp, rp)
    ensures Leads(sub + {Arc(EMPTY, 0, lp, rp)}, u, lp, i, rp, j) <==> i == j || Leads(sub, u, lp, i, rp, j)
  {
    hide Leads;
    var e := Arc(EMPTY, 0, lp, rp);
    var B := sub + {e};
    LeadsSelf(B, u, lp, i);
    LeadsOn(B, u, lp, i, e, i, i);
    if Leads(sub, u, lp, i, rp, j) { LeadsMore(sub, B, u, lp, i, rp, j); }
    if Leads(B, u, lp, i, rp, j) {
      var P := iset p: (nat, nat) | Leads(sub, u, lp, i, p.0, p.1) || p == (rp, i);
      forall a, m: nat, n: nat | a in B && (a.from, m) in P && ArcWalks.Spells(u, a, m, n) ensures (a.to, n) in P {
        if a in sub {
          LeadsOn(sub, u, lp, i, a, m, n);
        } else {
          OnlyAtStart(sub, u, lp, rp, i, m);
        }
      }
      LeadsSelf(sub, u, lp, i);
      LeadsLeast(B, u, P, lp, i, rp, j);
    }
  }

  // ---------------------------------------------------------------- moving and copying

  /** The arcs of A with their ends renamed. */
  function Renamed(A: set<Arc>, h: map<nat, nat>): set<Arc>
    requires Touches(A) <= h.Keys
  {
    set a | a in A :: Rename(a, h)
  }

  function Rename(a: Arc, h: map<nat, nat>): Arc
    requires a.from in h && a.to in h
  {
    a.(from := h[a.from], to := h[a.to])
  }

  /** A walk can be followed under a renaming of the states. */
  lemma LeadsRenamed(A: set<Arc>, B: set<Arc>, h: map<nat, nat>, u: seq<Label>, x: nat, i: nat, y: nat, j: nat)
    requires Touches(A) <= h.Keys && x in h && y in h && Renamed(A, h) <= B && Leads(A, u, x, i, y, j)
    ensures Leads(B, u, h[x], i, h[y], j)
  {
    hide Leads;
    var P := iset p: (nat, nat) | p.0 in h ==> Leads(B, u, h[x], i, h[p.0], p.1);
    forall a, m: nat, n: nat | a in A && (a.from, m) in P && ArcWalks.Spells(u, a, m, n) ensures (a.to, n) in P {
      assert a.from in Touches(A) && a.to in Touches(A);
      assert Rename(a, h) in B;
      LeadsOn(B, u, h[x], i, Rename(a, h), m, n);
    }
    LeadsSelf(B, u, h[x], i);
    LeadsLeast(A, u, P, x, i, y, j);
  }

  /** A one-to-one copy of A leads through exactly as A does. */
  lemma CopyLeads(A: set<Arc>, h: map<nat, nat>, u: seq<Label>, x: nat, i: nat, y: nat, j: nat)
    requires Touches(A) <= h.Keys && x in h && y in h && forall p, q :: p in h && q in h && h[p] == h[q] ==> p == q
    ensures Leads(Renamed(A, h), u, h[x], i, h[y], j) <==> Leads(A, u, x, i, y, j)
  {
    if Leads(A, u, x, i, y, j) {
      LeadsRenamed(A, Renamed(A, h), h, u, x, i, y, j);
    }
    if Leads(Renamed(A, h), u, h[x], i, h[y], j) {
      var P := iset p: (nat, nat) | forall s :: s in h && h[s] == p.0 ==> Leads(A, u, x, i, s, p.1);
      assert Kept(Renamed(A, h), u, P) by {
        hide Leads;
        forall b, m: nat, n: nat | b in Renamed(A, h) && (b.from, m) in P && ArcWalks.Spells(u, b, m, n) ensures (b.to, n) in P {
          var a :| a in A && b == Rename(a, h);
          assert a.from in Touches(A) && a.to in Touches(A);
          LeadsOn(A, u, x, i, a, m, n);
        }
      }
      LeadsSelf(A, u, x, i);
      LeadsLeast(Renamed(A, h), u, P, h[x], i, h[y], j);
    }
  }

  // ---------------------------------------------------------------- loops

  /** At inner state x with label q, after some complete passes and part of another one. */
  ghost predicate Inside(sub: set<Arc>, u: seq<Label>, lp: nat, rp: nat, i: nat, x: nat, q: nat) {
    exists c: nat, k: nat :: Times(sub, u, lp, rp, c, i, k) && Leads(sub, u, lp, k, x, q)
  }

  ghost predicate AtLeast(sub: set<Arc>, u: seq<Label>, lp: nat, rp: nat, least: nat, i: nat, q: nat) {
    exists c: nat :: c >= least && Times(sub, u, lp, rp, c, i, q)
  }

  /** sub hung between the new states s and t. */
  ghost function Hung(sub: set<Arc>, lp: nat, rp: nat, s: nat, t: nat): set<Arc> {
    set a | a in sub :: a.(from := if a.from == lp then s else a.from, to := if a.to == rp then t else a.to)
  }

  /** The EMPTY arcs of a loop. */
  ghost function LoopArcs(lp: nat, rp: nat, s: nat, t: nat): (E: set<Arc>)
    ensures s == t ==> E == {Arc(EMPTY, 0, lp, s)} + {Arc(EMPTY, 0, t, rp)}
    ensures s != t ==> E == {Arc(EMPTY, 0, lp, s)} + {Arc(EMPTY, 0, t, rp)} + {Arc(EMPTY, 0, t, s)}
  {
    {Arc(EMPTY, 0, lp, s), Arc(EMPTY, 0, t, rp)} + (if s == t then {} else {Arc(EMPTY, 0, t, s)})
  }

  /** sub hung between s and t, with EMPTY arcs from lp to s, from t to rp, and, if s is not t, from t back to s. */
  ghost predicate Looped(sub: set<Arc>, B: set<Arc>, lp: nat, rp: nat, s: nat, t: nat) {
    && Strung(sub, lp, rp) && s !in Touches(sub) && t !in Touches(sub) && s != lp && s != rp && t != lp && t != rp
    && B == Hung(sub, lp, rp, s, t) + LoopArcs(lp, rp, s, t)
  }

  /** Where a walk through the loop can be: before it, in it, or after it. */
  ghost predicate LoopPlace(sub: set<Arc>, u: seq<Label>, lp: nat, rp: nat, s: nat, t: nat, i: nat, x: nat, q: nat) {
    if x == lp then q == i
    else if x == s then AtLeast(sub, u, lp, rp, 0, i, q)
    else if x == t || x == rp then AtLeast(sub, u, lp, rp, if s == t then 0 else 1, i, q)
    else Inside(sub, u, lp, rp, i, x, q)
  }

  lemma LoopThere(sub: set<Arc>, B: set<Arc>, u: seq<Label>, lp: nat, rp: nat, s: nat, t: nat, i: nat, j: nat)
    requires Looped(sub, B, lp, rp, s, t) && Leads(B, u, lp, i, rp, j)
    ensures AtLeast(sub, u, lp, rp, if s == t then 0 else 1, i, j)
  {
    hide Leads;
    var P := iset p: (nat, nat) | LoopPlace(sub, u, lp, rp, s, t, i, p.0, p.1);
    forall b, m: nat, n: nat | b in B && (b.from, m) in P && ArcWalks.Spells(u, b, m, n) ensures (b.to, n) in P {
      if b in Hung(sub, lp, rp, s, t) {
        var a :| a in sub && b == a.(from := if a.from == lp then s else a.from, to := if a.to == rp then t else a.to);
        HungStep(sub, u, lp, rp, s, t, i, a, m, n);
      } else if b.from == lp {
        assert Times(sub, u, lp, rp, 0, i, i);
      }
    }
    LeadsLeast(B, u, P, lp, i, rp, j);
  }

  lemma HungStep(sub: set<Arc>, u: seq<Label>, lp: nat, rp: nat, s: nat, t: nat, i: nat, a: Arc, m: nat, n: nat)
    requires Strung(sub, lp, rp) && s !in Touches(sub) && t !in Touches(sub) && s != lp && s != rp && t != lp && t != rp
    requires a in sub && ArcWalks.Spells(u, a, m, n)
    requires LoopPlace(sub, u, lp, rp, s, t, i, if a.from == lp then s else a.from, m)
    ensures LoopPlace(sub, u, lp, rp, s, t, i, if a.to == rp then t else a.to, n)
  {
    hide Leads;
    assert a.from in Touches(sub) && a.to in Touches(sub);
    var c: nat, k: nat;
    if a.from == lp {
      c :| c >= 0 && Times(sub, u, lp, rp, c, i, m);
      k := m;
      LeadsSelf(sub, u, lp, m);
    } else {
      c, k :| Times(sub, u, lp, rp, c, i, k) && Leads(sub, u, lp, k, a.from, m);
    }
    LeadsOn(sub, u, lp, k, a, m, n);
    if a.to == rp {
      TimesNext(sub, u, lp, rp, c, i, k, n);
    }
  }

  lemma {:induction false} LoopBack(sub: set<Arc>, B: set<Arc>, u: seq<Label>, lp: nat, rp: nat, s: nat, t: nat, c: nat, i: nat, j: nat)
    requires Looped(sub, B, lp, rp, s, t) && Times(sub, u, lp, rp, c, i, j)
    ensures Leads(B, u, lp, i, if c == 0 then s else t, j)
    decreases c
  {
    hide Leads;
    var e := Arc(EMPTY, 0, lp, s);
    if c == 0 {
      LeadsSelf(B, u, lp, i);
      LeadsOn(B, u, lp, i, e, i, i);
    } else {
      var k: nat :| Times(sub, u, lp, rp, c - 1, i, k) && Leads(sub, u, lp, k, rp, j);
      LoopBack(sub, B, u, lp, rp, s, t, c - 1, i, k);
      if c > 1 && s != t {
        LeadsOn(B, u, lp, i, Arc(EMPTY, 0, t, s), k, k);
      }
      var h := map x | x in Touches(sub) + {lp, rp} :: if x == lp then s else if x == rp then t else x;
      HungRenames(sub, B, lp, rp, s, t, h);
      LeadsRenamed(sub, B, h, u, lp, k, rp, j);
      LeadsTrans(B, u, lp, i, s, k, t, j);
    }
  }

  lemma HungRenames(sub: set<Arc>, B: set<Arc>, lp: nat, rp: nat, s: nat, t: nat, h: map<nat, nat>)
    requires Looped(sub, B, lp, rp, s, t)
    requires h == map x | x in Touches(sub) + {lp, rp} :: if x == lp then s else if x == rp then t else x
    ensures Renamed(sub, h) <= B
  {
    forall a | a in sub ensures Rename(a, h) in B {
      assert a.from in Touches(sub) && a.to in Touches(sub);
      assert Rename(a, h) in Hung(sub, lp, rp, s, t);
    }
  }

  /** A loop leads through any number of passes; at least one if s is not t. */
  lemma LoopLeads(sub: set<Arc>, B: set<Arc>, u: seq<Label>, lp: nat, rp: nat, s: nat, t: nat, i: nat, j: nat)
    requires Looped(sub, B, lp, rp, s, t)
    ensures Leads(B, u, lp, i, rp, j) <==> AtLeast(sub, u, lp, rp, if s == t then 0 else 1, i, j)
  {
    hide Leads;
    if Leads(B, u, lp, i, rp, j) {
      LoopThere(sub, B, u, lp, rp, s, t, i, j);
    }
    if AtLeast(sub, u, lp, rp, if s == t then 0 else 1, i, j) {
      var c: nat :| c >= (if s == t then 0 else 1) && Times(sub, u, lp, rp, c, i, j);
      LoopBack(sub, B, u, lp, rp, s, t, c, i, j);
      LeadsOn(B, u, lp, i, Arc(EMPTY, 0, t, rp), j, j);
    }
  }
}
