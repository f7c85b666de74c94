/** Duplicating and repeating sub-NFAs. */
module Repetition {
  import opened NfaGraph
  import opened SubNfas
  import ArcWalks
  import Subexpr

  /** Between m and max passes through sub lead from i to j. */
  ghost predicate Repeated(sub: set<Arc>, u: seq<Label>, lp: nat, rp: nat, m: nat, max: Subexpr.Max, i: nat, j: nat) {
    exists c: nat :: Subexpr.Within(c, m, max) && Times(sub, u, lp, rp, c, i, j)
  }

  /** B, strung from x to y, stands for between m and max passes through sub. */
  ghost predicate StandsFor(B: set<Arc>, x: nat, y: nat, sub: set<Arc>, lp: nat, rp: nat, m: nat, max: Subexpr.Max) {
    forall u: seq<Label>, i: nat, j: nat {:trigger Leads(B, u, x, i, y, j)} {:trigger Repeated(sub, u, lp, rp, m, max, i, j)} ::
      Leads(B, u, x, i, y, j) <==> Repeated(sub, u, lp, rp, m, max, i, j)
  }

  /** B, strung from x to y, leads through as sub does. */
  ghost predicate SameThrough(B: set<Arc>, x: nat, y: nat, sub: set<Arc>, lp: nat, rp: nat) {
    forall u: seq<Label>, i: nat, j: nat {:trigger Leads(B, u, x, i, y, j)} {:trigger Leads(sub, u, lp, i, rp, j)} ::
      Leads(B, u, x, i, y, j) <==> Leads(sub, u, lp, i, rp, j)
  }

  // ---------------------------------------------------------------- copying

  /** A sub-NFA T of A, from start to stop, is to be copied between from and to. */
  datatype Job = Job(A: set<Arc>, T: set<Arc>, start: nat, stop: nat, from: nat, to: nat, states: set<nat>)
  {
    ghost predicate Ok() {
      && SubNfa(A, T, start, stop) && from != to && from != stop && from !in Touches(T) + {start}
      && Touches(T) + {start, stop, from, to} <= states
    }

    /** The state s can be copied to d: from stands for start, and other copies are new. */
    ghost predicate Fresh(s: nat, d: nat) {
      if s == start then d == from else d !in states
    }
  }

  /** The copying in progress: tmp maps the states copied so far to their copies. */
  ghost predicate Copying(n: Nfa, q: Job, tmp: map<nat, nat>)
    reads n
  {
    && n.Valid() && q.Ok() && q.A <= n.arcs && (forall x :: x in q.states ==> x in n.states)
    && q.stop in tmp && tmp[q.stop] == q.to
    && (forall x :: x in tmp ==> x in Touches(q.T) + {q.start, q.stop} && tmp[x] in n.states && (x != q.stop ==> q.Fresh(x, tmp[x])))
    && (forall x, y :: x in tmp && y in tmp && tmp[x] == tmp[y] ==> x == y)
    && (forall b :: b in n.arcs - q.A ==> IsCopy(q, tmp, b))
  }

  ghost predicate IsCopy(q: Job, tmp: map<nat, nat>, b: Arc) {
    exists a :: a in q.T && a.from in tmp && a.to in tmp && b == Rename(a, tmp)
  }

  /** All outarcs of x have their copies. */
  ghost predicate Copied(B: set<Arc>, T: set<Arc>, tmp: map<nat, nat>, x: nat) {
    forall a :: a in T && a.from == x ==> a.from in tmp && a.to in tmp && Rename(a, tmp) in B
  }

  ghost predicate Extends(tmp: map<nat, nat>, tmp': map<nat, nat>) {
    forall y :: y in tmp ==> y in tmp' && tmp'[y] == tmp[y]
  }

  lemma CopiedStill(B: set<Arc>, B': set<Arc>, T: set<Arc>, tmp: map<nat, nat>, tmp': map<nat, nat>, x: nat)
    requires Copied(B, T, tmp, x) && B <= B' && Extends(tmp, tmp')
    ensures Copied(B', T, tmp', x)
  {
  }

  /** A state that is to be copied has just the arcs it had. */
  lemma SameOuts(n: Nfa, q: Job, tmp: map<nat, nat>, s: nat)
    requires Copying(n, q, tmp) && s in Touches(q.T) + {q.start} && s != q.stop
    ensures Outs(n.arcs, s) == Outs(q.T, s)
  {
    hide Touches;
    forall b | b in n.arcs - q.A ensures b.from != s {
      var a :| a in q.T && a.from in tmp && a.to in tmp && b == Rename(a, tmp);
      assert b.from == tmp[a.from];
    }
  }

  /** One more state is copied. */
  lemma CopyingMore(n: Nfa, q: Job, tmp: map<nat, nat>, s: nat, d: nat)
    requires Copying(n, q, tmp) && s in Touches(q.T) + {q.start} && s !in tmp && s != q.stop
    requires d in n.states && q.Fresh(s, d) && forall x :: x in tmp ==> tmp[x] != d
    ensures Copying(n, q, tmp[s := d])
  {
    hide Touches, Job.Ok;
    var tmp' := tmp[s := d];
    forall b | b in n.arcs - q.A ensures IsCopy(q, tmp', b) {
      var a :| a in q.T && a.from in tmp && a.to in tmp && b == Rename(a, tmp);
      assert Rename(a, tmp') == b;
    }
  }

  /** Copies s and everything that arcs of T lead to from it. */
  method DupTraverse(n: Nfa, s: nat, stmp: int, tmp0: map<nat, nat>, ghost q: Job) returns (tmp: map<nat, nat>)
    requires Copying(n, q, tmp0) && s in Touches(q.T) + {q.start, q.stop}
    requires if s == q.start && s !in tmp0 then stmp == q.from else stmp == -1 && q.start in tmp0
    modifies n`arcs, n`states, n`nstates
    ensures Copying(n, q, tmp) && Extends(tmp0, tmp) && s in tmp && old(n.arcs) <= n.arcs
    ensures forall x :: x in tmp && x !in tmp0 ==> Copied(n.arcs, q.T, tmp, x)
    ensures q.start in tmp
    decreases Touches(q.T) + {q.start, q.stop} - tmp0.Keys, 0
  {
    hide Touches, Job.Ok, IsCopy, Copied;
    tmp := tmp0;
    if s in tmp {
      return;
    }
    var d := TakeState(n, s, stmp, tmp, q);
    tmp := tmp[s := d];
    SameOuts(n, q, tmp, s);
    ghost var tmp1, B0 := tmp, n.arcs;
    var todo := Outs(n.arcs, s);
    ghost var done: set<Arc> := {};
    ExtendsAt(tmp0, s, d);
    while todo != {}
      invariant Copying(n, q, tmp) && Extends(tmp1, tmp) && B0 <= n.arcs && q.start in tmp
      invariant done + todo == Outs(q.T, s)
      invariant forall a :: a in done ==> a.to in tmp && Rename(a.(from := s), tmp) in n.arcs
      invariant forall x :: x in tmp && x !in tmp1 ==> Copied(n.arcs, q.T, tmp, x)
      decreases todo
    {
      var a :| a in todo;
      tmp := CopyOne(n, q, a, s, tmp, tmp1, done);
      todo, done := todo - {a}, done + {a};
    }
    AllCopied(n.arcs, q.T, tmp, s, done);
  }

  lemma AllCopied(B: set<Arc>, T: set<Arc>, tmp: map<nat, nat>, s: nat, done: set<Arc>)
    requires done == Outs(T, s) && s in tmp && forall a :: a in done ==> a.to in tmp && Rename(a.(from := s), tmp) in B
    ensures Copied(B, T, tmp, s)
  {
    forall a | a in T && a.from == s ensures a.to in tmp && Rename(a, tmp) in B {
      assert a in done && a == a.(from := s);
    }
  }

  /** The copy of a state: the one that is given, or a new one. */
  method TakeState(n: Nfa, s: nat, stmp: int, tmp: map<nat, nat>, ghost q: Job) returns (d: nat)
    requires Copying(n, q, tmp) && s in Touches(q.T) + {q.start, q.stop} && s !in tmp
    requires if s == q.start then stmp == q.from else stmp == -1
    modifies n`states, n`nstates
    ensures Copying(n, q, tmp[s := d])
  {
    hide Touches, IsCopy;
    if stmp == -1 {
      d := n.NewState();
    } else {
      d := stmp;
    }
    CopyingMore(n, q, tmp, s, d);
  }

  lemma ExtendsAt(tmp: map<nat, nat>, s: nat, d: nat)
    requires s !in tmp
    ensures Extends(tmp, tmp[s := d])
  {
  }

  lemma ExtendsTrans(t0: map<nat, nat>, t1: map<nat, nat>, t2: map<nat, nat>)
    requires Extends(t0, t1) && Extends(t1, t2)
    ensures Extends(t0, t2)
  {
  }

  lemma ExtendsHas(t0: map<nat, nat>, t1: map<nat, nat>)
    requires Extends(t0, t1)
    ensures t0.Keys <= t1.Keys
  {
  }

  lemma ArcEnds(q: Job, a: Arc)
    requires q.Ok() && a in q.T
    ensures a.to in Touches(q.T) && a.to != q.start
  {
  }

  lemma ArcIsCopy(q: Job, tmp: map<nat, nat>, a: Arc)
    requires a in q.T && a.from in tmp && a.to in tmp
    ensures IsCopy(q, tmp, Rename(a, tmp))
  {
  }

  lemma CopyingOk(n: Nfa, q: Job, tmp: map<nat, nat>)
    requires Copying(n, q, tmp)
    ensures q.Ok()
  {
  }

  /** Adds the copy of one arc. */
  method AddCopy(n: Nfa, ghost q: Job, tmp: map<nat, nat>, a: Arc)
    requires Copying(n, q, tmp) && a in q.T && a.from in tmp && a.to in tmp
    modifies n`arcs
    ensures Copying(n, q, tmp) && n.arcs == old(n.arcs) + {Rename(a, tmp)}
  {
    hide Touches, IsCopy, Job.Ok, Job.Fresh;
    ArcIsCopy(q, tmp, a);
    n.NewArc(a.ty, a.co, tmp[a.from], tmp[a.to]);
  }

  /** Copies the arc a out of s, after what it leads to. */
  method CopyOne(n: Nfa, ghost q: Job, a: Arc, s: nat, tmp0: map<nat, nat>, ghost tmp1: map<nat, nat>, ghost done: set<Arc>)
    returns (tmp: map<nat, nat>)
    requires Copying(n, q, tmp0) && Extends(tmp1, tmp0) && a in q.T && a.from == s && s in tmp0 && s in tmp1 && s != q.stop
    requires q.start in tmp0
    requires forall b :: b in done ==> b in q.T && b.from == s && b.to in tmp0 && Rename(b, tmp0) in n.arcs
    requires forall x :: x in tmp0 && x !in tmp1 ==> Copied(n.arcs, q.T, tmp0, x)
    modifies n`arcs, n`states, n`nstates
    ensures Copying(n, q, tmp) && Extends(tmp1, tmp) && old(n.arcs) <= n.arcs && q.start in tmp
    ensures forall b :: b in done + {a} ==> b.to in tmp && s in tmp && b.from == s && Rename(b, tmp) in n.arcs
    ensures forall x :: x in tmp && x !in tmp1 ==> Copied(n.arcs, q.T, tmp, x)
    decreases Touches(q.T) + {q.start, q.stop} - tmp0.Keys, 1
  {
    hide Touches, IsCopy, Copied, Extends, Copying;
    CopyingOk(n, q, tmp0);
    ArcEnds(q, a);
    ExtendsHas(tmp1, tmp0);
    ghost var B := n.arcs;
    tmp := DupTraverse(n, a.to, -1, tmp0, q);
    ExtendsTrans(tmp1, tmp0, tmp);
    ExtendsHas(tmp0, tmp);
    ghost var C := n.arcs;
    AddCopy(n, q, tmp, a);
    CopiedAll(B, C, n.arcs, q.T, tmp1, tmp0, tmp);
    CopiesStill(B, n.arcs, done, tmp0, tmp, s);
  }

  lemma CopiedAll(B: set<Arc>, C: set<Arc>, D: set<Arc>, T: set<Arc>, tmp1: map<nat, nat>, tmp0: map<nat, nat>, tmp: map<nat, nat>)
    requires B <= C <= D && Extends(tmp0, tmp)
    requires forall x :: x in tmp0 && x !in tmp1 ==> Copied(B, T, tmp0, x)
    requires forall x :: x in tmp && x !in tmp0 ==> Copied(C, T, tmp, x)
    ensures forall x :: x in tmp && x !in tmp1 ==> Copied(D, T, tmp, x)
  {
    hide Copied;
    forall x | x in tmp && x !in tmp1 ensures Copied(D, T, tmp, x) {
      if x in tmp0 {
        CopiedStill(B, D, T, tmp0, tmp, x);
      } else {
        CopiedStill(C, D, T, tmp, tmp, x);
      }
    }
  }

  lemma CopiesStill(B: set<Arc>, D: set<Arc>, done: set<Arc>, tmp0: map<nat, nat>, tmp: map<nat, nat>, s: nat)
    requires B <= D && Extends(tmp0, tmp) && s in tmp0
    requires forall b :: b in done ==> b.from == s && b.to in tmp0 && Rename(b, tmp0) in B
    ensures forall b :: b in done ==> b.to in tmp && s in tmp && b.from == s && Rename(b, tmp) in D
  {
    forall b | b in done ensures b.to in tmp && s in tmp && Rename(b, tmp) in D {
      assert Rename(b, tmp) == Rename(b, tmp0);
    }
  }

  /** The part of T that has been copied. */
  ghost function Part(T: set<Arc>, tmp: map<nat, nat>): set<Arc> {
    set a | a in T && a.from in tmp
  }

  /** When the copying is done, the new arcs lead through as T does. */
  lemma CopyDone(n: Nfa, q: Job, tmp: map<nat, nat>)
    requires Copying(n, q, tmp) && q.start in tmp && forall x :: x in tmp && x != q.stop ==> Copied(n.arcs, q.T, tmp, x)
    ensures var R := Part(q.T, tmp); Touches(R) <= tmp.Keys
    ensures var D := Renamed(Part(q.T, tmp), tmp);
            && n.arcs == q.A + D && Strung(D, q.from, q.to) && SameThrough(D, q.from, q.to, q.T, q.start, q.stop)
            && (forall b :: b in D ==> b.from == q.from || b.from !in q.states)
            && (forall x :: x in Touches(D) ==> x == q.from || x == q.to || x !in q.states)
  {
    PartTouches(n, q, tmp);
    var R := Part(q.T, tmp);
    var D := Renamed(R, tmp);
    PartArcs(n, q, tmp);
    forall u: seq<Label>, i: nat, j: nat ensures Leads(D, u, q.from, i, q.to, j) <==> Leads(q.T, u, q.start, i, q.stop, j) {
      CopyLeads(R, tmp, u, q.start, i, q.stop, j);
      PartLeads(q.T, tmp, u, q.start, i, q.stop, j);
    }
  }

  lemma PartTouches(n: Nfa, q: Job, tmp: map<nat, nat>)
    requires Copying(n, q, tmp) && forall x :: x in tmp && x != q.stop ==> Copied(n.arcs, q.T, tmp, x)
    ensures Touches(Part(q.T, tmp)) <= tmp.Keys
    ensures forall a :: a in q.T && a.from in tmp ==> a.to in tmp && Rename(a, tmp) in n.arcs
    ensures q.start in tmp ==> tmp[q.start] == q.from
    ensures tmp[q.stop] == q.to
  {
    forall a | a in q.T && a.from in tmp ensures a.to in tmp && Rename(a, tmp) in n.arcs {
      assert Copied(n.arcs, q.T, tmp, a.from);
    }
  }

  lemma PartArcs(n: Nfa, q: Job, tmp: map<nat, nat>)
    requires Copying(n, q, tmp) && Touches(Part(q.T, tmp)) <= tmp.Keys && q.start in tmp
    requires forall a :: a in q.T && a.from in tmp ==> a.to in tmp && Rename(a, tmp) in n.arcs
    ensures var D := Renamed(Part(q.T, tmp), tmp);
            && n.arcs == q.A + D && Strung(D, q.from, q.to)
            && (forall b :: b in D ==> b.from == q.from || b.from !in q.states)
            && (forall x :: x in Touches(D) ==> x == q.from || x == q.to || x !in q.states)
  {
    hide Touches;
    var D := Renamed(Part(q.T, tmp), tmp);
    forall b | b in n.arcs - q.A ensures b in D {
      var a :| a in q.T && a.from in tmp && a.to in tmp && b == Rename(a, tmp);
      assert a in Part(q.T, tmp);
    }
    forall b | b in D ensures b in n.arcs && CopyPlaced(q, b) {
      var a :| a in Part(q.T, tmp) && b == Rename(a, tmp);
      CopyIsPlaced(n, q, tmp, a);
    }
    TouchesPlaced(q, D);
  }

  /** A copy runs between the two ends and new states. */
  ghost predicate CopyPlaced(q: Job, b: Arc) {
    && b.to != q.from && b.from != q.to
    && (b.from == q.from || b.from !in q.states) && (b.to == q.to || b.to !in q.states)
  }

  lemma CopyIsPlaced(n: Nfa, q: Job, tmp: map<nat, nat>, a: Arc)
    requires Copying(n, q, tmp) && a in q.T && a.from in tmp && a.to in tmp
    ensures CopyPlaced(q, Rename(a, tmp))
  {
    assert a.to != q.start && a.from != q.stop;
  }

  lemma TouchesPlaced(q: Job, D: set<Arc>)
    requires forall b :: b in D ==> CopyPlaced(q, b)
    ensures forall x :: x in Touches(D) ==> x == q.from || x == q.to || x !in q.states
  {
  }

  /** The copied part is all that can be reached. */
  lemma PartLeads(T: set<Arc>, tmp: map<nat, nat>, u: seq<Label>, x: nat, i: nat, y: nat, j: nat)
    requires x in tmp && forall a :: a in T && a.from in tmp ==> a.to in tmp
    ensures Leads(Part(T, tmp), u, x, i, y, j) <==> Leads(T, u, x, i, y, j)
  {
    hide Leads;
    var R := Part(T, tmp);
    if Leads(R, u, x, i, y, j) { LeadsMore(R, T, u, x, i, y, j); }
    if Leads(T, u, x, i, y, j) {
      var P := iset p: (nat, nat) | p.0 in tmp && Leads(R, u, x, i, p.0, p.1);
      forall a, m: nat, k: nat | a in T && (a.from, m) in P && ArcWalks.Spells(u, a, m, k) ensures (a.to, k) in P {
        LeadsOn(R, u, x, i, a, m, k);
      }
      LeadsSelf(R, u, x, i);
      LeadsLeast(T, u, P, x, i, y, j);
    }
  }

  /** Copies the sub-NFA T from start to stop, strung between from and to. */
  method DupNfa(n: Nfa, start: nat, stop: nat, from: nat, to: nat, ghost T: set<Arc>) returns (ghost D: set<Arc>)
    requires n.Valid() && {start, stop, from, to} <= (set x | x in n.states)
    requires from != to && Outs(n.arcs, from) == {}
    requires if start == stop then T == {} else SubNfa(n.arcs, T, start, stop) && from != stop && from !in Touches(T) + {start}
    modifies n`arcs, n`states, n`nstates
    ensures n.Valid() && n.arcs == old(n.arcs) + D && D !! old(n.arcs)
    ensures forall x :: x in old(n.states) ==> x in n.states
    ensures Strung(D, from, to) && SameThrough(D, from, to, T, start, stop)
    ensures forall x :: x in Touches(D) ==> x == from || x == to || x !in old(n.states)
  {
    ghost var A := n.arcs;
    if start == stop {
      n.NewArc(EMPTY, 0, from, to);
      D := {Arc(EMPTY, 0, from, to)};
      EmptyThrough(from, to, start);
      assert forall a :: a in A && a.from == from ==> a in Outs(A, from);
      return;
    }
    ghost var q := Job(n.arcs, T, start, stop, from, to, set x | x in n.states);
    var tmp: map<nat, nat> := map[stop := to];
    JobOk(n, q);
    tmp := DupTraverse(n, start, from, tmp, q);
    CopyDone(n, q, tmp);
    D := Renamed(Part(T, tmp), tmp);
    forall b | b in D ensures b !in A {
      assert b in A && b.from == from ==> b in Outs(A, from);
    }
  }

  lemma JobOk(n: Nfa, q: Job)
    requires n.Valid() && q.A == n.arcs && q.states == (set x | x in n.states) && {q.start, q.stop, q.from, q.to} <= q.states
    requires SubNfa(q.A, q.T, q.start, q.stop) && q.from != q.to && q.from != q.stop && q.from !in Touches(q.T) + {q.start}
    ensures Copying(n, q, map[q.stop := q.to])
  {
  }

  lemma EmptyThrough(from: nat, to: nat, start: nat)
    requires from != to
    ensures SameThrough({Arc(EMPTY, 0, from, to)}, from, to, {}, start, start)
  {
    var D := {Arc(EMPTY, 0, from, to)};
    forall u: seq<Label>, i: nat, j: nat ensures Leads(D, u, from, i, to, j) <==> Leads({}, u, start, i, start, j) {
      OptionLeads({}, u, from, to, i, j);
      assert {} + D == D;
      NothingLeads(u, from, i, to, j);
      NothingLeads(u, start, i, start, j);
    }
  }

  lemma NothingLeads(u: seq<Label>, x: nat, i: nat, y: nat, j: nat)
    ensures Leads({}, u, x, i, y, j) <==> x == y && i == j
  {
    LeadsSelf({}, u, x, i);
    if Leads({}, u, x, i, y, j) {
      LeadsLeast({}, u, iset{(x, i)}, x, i, y, j);
    }
  }

  // ---------------------------------------------------------------- deleting

  /** The arcs out of the states Q stay in Q or end in rp. */
  ghost predicate Enclosed(A: set<Arc>, Q: set<nat>, rp: nat) {
    rp !in Q && forall a :: a in A && a.from in Q ==> a.to in Q + {rp}
  }

  /** Destroys all outarcs of s, and first those of the states they lead to; busy states are left alone. */
  method DelTraverse(n: Nfa, s: nat, busy: set<nat>, ghost Q: set<nat>, rp: nat)
    requires n.Valid() && Enclosed(n.arcs, Q, rp) && s in Q + {rp} && rp in busy
    requires forall x :: x in Q && x !in busy && x != s ==> !n.Flag(x)
    requires s in n.states
    modifies n`arcs, n`states
    ensures n.Valid() && n.arcs <= old(n.arcs) && (s !in busy ==> Outs(n.arcs, s) == {})
    ensures forall a :: a in old(n.arcs) - n.arcs ==> a.from in Q - busy
    ensures forall x :: x in old(n.states) && (x !in Q || x in busy || x == s) ==> x in n.states
    decreases Q - busy, 1
  {
    if Outs(n.arcs, s) == {} || s in busy {
      return;
    }
    ghost var A := n.arcs;
    while Outs(n.arcs, s) != {}
      invariant n.Valid() && n.arcs <= A && s in n.states
      invariant forall a :: a in A - n.arcs ==> a.from in Q - busy
      invariant forall x :: x in old(n.states) && (x !in Q || x in busy || x == s) ==> x in n.states
      decreases Outs(n.arcs, s)
    {
      var a :| a in Outs(n.arcs, s);
      ghost var B := n.arcs;
      assert a in A && a.to in Q + {rp};
      DelTraverse(n, a.to, busy + {s}, Q, rp);
      assert a in n.arcs;
      n.FreeArc(a);
      assert a in Outs(B, s) && a !in Outs(n.arcs, s) && Outs(n.arcs, s) <= Outs(B, s);
      if Ins(n.arcs, a.to) == {} && a.to !in busy + {s} {
        ghost var C := n.arcs;
        n.DropState(a.to);
        assert Outs(C, a.to) == {};
        assert n.arcs == C;
      }
    }
  }

  /** Deletes what is strung between lp and rp. */
  method DelSub(n: Nfa, lp: nat, rp: nat, ghost sub: set<Arc>) returns (ghost left: set<Arc>)
    requires n.Valid() && SubNfa(n.arcs, sub, lp, rp) && lp in n.states && rp in n.states
    requires forall x :: x in Touches(sub) && x != lp && x != rp ==> !n.Flag(x)
    modifies n`arcs, n`states
    ensures n.Valid() && left <= sub && n.arcs == old(n.arcs) - sub + left && Outs(n.arcs, lp) == {}
    ensures forall x :: x in old(n.states) && (x !in Touches(sub) || x == lp || x == rp) ==> x in n.states
  {
    ghost var Q := Touches(sub) + {lp} - {rp};
    ghost var A := n.arcs;
    OwnOuts(A, sub, lp, rp);
    DelTraverse(n, lp, {rp}, Q, rp);
    left := sub * n.arcs;
    assert n.arcs == A - sub + left;
  }

  /** The states strung between lp and rp have no arcs but those of sub. */
  lemma OwnOuts(A: set<Arc>, sub: set<Arc>, lp: nat, rp: nat)
    requires SubNfa(A, sub, lp, rp)
    ensures Enclosed(A, Touches(sub) + {lp} - {rp}, rp)
    ensures forall a :: a in A && a.from in Touches(sub) + {lp} - {rp} ==> a in sub
  {
    forall a | a in A && a.from in Touches(sub) + {lp} - {rp} ensures a in sub && a.to in Touches(sub) + {lp} - {rp} + {rp} {
      assert a in sub || a in A - sub;
    }
  }
}
