/** Clearing out the states that are of no use, and numbering those that are left. */
module Cleanup {
  import opened NfaGraph
  import ArcWalks
  import opened WordReading

  // ---------------------------------------------------------------- where arcs lead

  /** Following arcs forward, or backward along inarcs, does not leave T. */
  ghost predicate ClosedUnder(A: set<Arc>, ins: bool, T: iset<nat>) {
    forall a :: a in A && Far(a, !ins) in T ==> Far(a, ins) in T
  }

  /** Following arcs leads from x to s. */
  ghost predicate Leads(A: set<Arc>, ins: bool, x: nat, s: nat) {
    forall T: iset<nat> {:trigger ClosedUnder(A, ins, T)} :: ClosedUnder(A, ins, T) && x in T ==> s in T
  }

  lemma LeadsSelf(A: set<Arc>, ins: bool, s: nat)
    ensures Leads(A, ins, s, s)
  {
  }

  lemma LeadsOn(A: set<Arc>, ins: bool, x: nat, a: Arc)
    requires a in A && Leads(A, ins, x, Far(a, !ins))
    ensures Leads(A, ins, x, Far(a, ins))
  {
  }

  lemma LeadsThrough(A: set<Arc>, ins: bool, x: nat, y: nat, s: nat)
    requires Leads(A, ins, x, y) && Leads(A, ins, y, s)
    ensures Leads(A, ins, x, s)
  {
  }

  // ---------------------------------------------------------------- marking

  /** No mark: the marks are states. */
  const NULL := -1

  /** A state that had the mark okay has got another. */
  ghost predicate New(tmp0: map<nat, int>, tmp: map<nat, int>, okay: int, mark: int, x: nat) {
    x in tmp0 && x in tmp && tmp0[x] == okay && tmp[x] == mark
  }

  /** Only states marked okay get the new mark, and only if s leads to them; apart from what is still to be
      followed, what they lead to is not left okay. */
  ghost predicate Marking(A: set<Arc>, ins: bool, s: nat, okay: int, mark: int, tmp0: map<nat, int>, tmp: map<nat, int>, todo: set<Arc>) {
    && tmp.Keys == tmp0.Keys && (forall a :: a in A ==> a.from in tmp && a.to in tmp)
    && (forall x :: x in tmp0 ==> tmp[x] == tmp0[x] || New(tmp0, tmp, okay, mark, x))
    && (forall x :: New(tmp0, tmp, okay, mark, x) ==> Leads(A, ins, s, x))
    && (forall a :: a in A && a !in todo && New(tmp0, tmp, okay, mark, Far(a, !ins)) ==> tmp[Far(a, ins)] != okay)
  }

  /** Marks the states that s leads to through states marked okay. */
  method Mark(A: set<Arc>, ins: bool, s: nat, okay: int, mark: int, tmp0: map<nat, int>) returns (tmp: map<nat, int>)
    requires s in tmp0 && okay != mark && forall a :: a in A ==> a.from in tmp0 && a.to in tmp0
    ensures Marking(A, ins, s, okay, mark, tmp0, tmp, {}) && tmp[s] != okay
    decreases set x | x in tmp0 && tmp0[x] == okay
  {
    hide Leads;
    tmp := tmp0;
    if tmp[s] != okay {
      return;
    }
    tmp := tmp[s := mark];
    LeadsSelf(A, ins, s);
    var todo := Side(A, s, ins);
    while todo != {}
      invariant todo <= Side(A, s, ins) && tmp.Keys == tmp0.Keys && tmp[s] == mark
      invariant Marking(A, ins, s, okay, mark, tmp0, tmp, todo)
      decreases todo
    {
      var a :| a in todo;
      ghost var was := tmp;
      FewerOkay(tmp0, tmp, okay, mark, s);
      tmp := Mark(A, ins, Far(a, ins), okay, mark, tmp);
      MarkingMore(A, ins, s, a, okay, mark, tmp0, was, tmp, todo);
      todo := todo - {a};
    }
  }

  lemma FewerOkay(tmp0: map<nat, int>, tmp: map<nat, int>, okay: int, mark: int, s: nat)
    requires tmp.Keys == tmp0.Keys && s in tmp0 && tmp0[s] == okay && tmp[s] == mark && okay != mark
    requires forall x :: x in tmp0 ==> tmp[x] == tmp0[x] || New(tmp0, tmp, okay, mark, x)
    ensures (set x | x in tmp && tmp[x] == okay) < (set x | x in tmp0 && tmp0[x] == okay)
  {
    var before, after := set x | x in tmp0 && tmp0[x] == okay, set x | x in tmp && tmp[x] == okay;
    forall x | x in after ensures x in before {
      assert x in tmp0;
    }
    assert s in before && s !in after;
  }

  lemma MarkingMore(A: set<Arc>, ins: bool, s: nat, a: Arc, okay: int, mark: int,
                    tmp0: map<nat, int>, was: map<nat, int>, tmp: map<nat, int>, todo: set<Arc>)
    requires okay != mark && s in tmp0 && tmp0[s] == okay && s in was && was[s] == mark
    requires Marking(A, ins, s, okay, mark, tmp0, was, todo) && a in todo && todo <= Side(A, s, ins)
    requires Marking(A, ins, Far(a, ins), okay, mark, was, tmp, {}) && tmp[Far(a, ins)] != okay
    ensures Marking(A, ins, s, okay, mark, tmp0, tmp, todo - {a}) && tmp[s] == mark
  {
    hide Leads;
    forall x | New(tmp0, tmp, okay, mark, x) ensures Leads(A, ins, s, x) {
      if !New(tmp0, was, okay, mark, x) {
        assert New(was, tmp, okay, mark, x);
        LeadsSelf(A, ins, s);
        LeadsOn(A, ins, s, a);
        LeadsThrough(A, ins, s, Far(a, ins), x);
      }
    }
    forall b | b in A && b !in todo - {a} && New(tmp0, tmp, okay, mark, Far(b, !ins)) ensures tmp[Far(b, ins)] != okay {
      if b != a {
        var x := Far(b, !ins);
        assert New(tmp0, was, okay, mark, x) || New(was, tmp, okay, mark, x);
      }
    }
  }

  /** Started without marks, what is marked is what s leads to. */
  lemma AllReached(A: set<Arc>, s: nat, mark: int, tmp0: map<nat, int>, tmp: map<nat, int>, x: nat)
    requires Marking(A, false, s, NULL, mark, tmp0, tmp, {}) && s in tmp && tmp[s] != NULL && mark != NULL
    requires (forall y :: y in tmp0 ==> tmp0[y] == NULL) && x in tmp
    ensures tmp[x] == (if Leads(A, false, s, x) then mark else NULL)
  {
    var T := iset y | New(tmp0, tmp, NULL, mark, y);
    assert ClosedUnder(A, false, T);
    assert s in T;
    if Leads(A, false, s, x) {
      assert x in T;
    } else {
      assert !New(tmp0, tmp, NULL, mark, x);
    }
  }

  /** What can reach the last state, of what has been reached from the first. */
  lemma AllReaching(A: set<Arc>, pre: nat, post: nat, tmp0: map<nat, int>, tmp: map<nat, int>, x: nat)
    requires forall y :: y in tmp0 ==> tmp0[y] == (if Leads(A, false, pre, y) then pre else NULL)
    requires Marking(A, true, post, pre, post, tmp0, tmp, {}) && post in tmp && tmp[post] != pre && pre != post && x in tmp
    ensures tmp[x] == post <==> Leads(A, false, pre, x) && Leads(A, true, post, x)
  {
    hide Leads;
    if Leads(A, false, pre, x) && Leads(A, true, post, x) {
      var T := iset y | y in tmp && tmp[y] != pre;
      forall a | a in A && a.to in T ensures a.from in T {
        if tmp0[a.to] == pre {
          assert New(tmp0, tmp, pre, post, a.to);
        } else if tmp0[a.from] == pre {
          LeadsOn(A, false, pre, a);
        }
      }
      assert ClosedUnder(A, true, T);
      InClosed(A, true, post, x, T);
    } else {
      assert !New(tmp0, tmp, pre, post, x);
    }
  }

  lemma InClosed(A: set<Arc>, ins: bool, x: nat, s: nat, T: iset<nat>)
    requires Leads(A, ins, x, s) && ClosedUnder(A, ins, T) && x in T
    ensures s in T
  {
  }

  // ---------------------------------------------------------------- dropping

  /** What is not dropped: the first and last states, and whatever lies between them. */
  ghost predicate Useful(A: set<Arc>, pre: nat, post: nat, s: nat) {
    s == pre || s == post || (Leads(A, false, pre, s) && Leads(A, true, post, s))
  }

  ghost function UsefulArcs(A: set<Arc>, pre: nat, post: nat): set<Arc> {
    set a | a in A && Useful(A, pre, post, a.from) && Useful(A, pre, post, a.to)
  }

  /** Walks to the last state use only useful states. */
  lemma UsefulSame(w: ArcWalks.Walker, post: nat, A: set<Arc>, i: nat)
    ensures w.Reached(A, post, i) <==> w.Reached(UsefulArcs(A, w.start, post), post, i)
  {
    hide Leads, ArcWalks.Walker.Reached;
    var B := UsefulArcs(A, w.start, post);
    if w.Reached(B, post, i) { ArcWalks.ReachedMore(w, B, A, post, i); }
    if w.Reached(A, post, i) {
      var P := iset p: (nat, nat) | Leads(A, false, w.start, p.0) && (w.Reached(B, p.0, p.1) || !Leads(A, true, post, p.0));
      forall a, k: nat, j: nat | a in A && (a.from, k) in P && w.takes(a, k, j) ensures (a.to, j) in P {
        LeadsOn(A, false, w.start, a);
        if Leads(A, true, post, a.to) {
          LeadsOn(A, true, post, a);
          assert a in B;
          ArcWalks.Forward(w, B, a, k, j);
        }
      }
      LeadsSelf(A, false, w.start);
      LeadsSelf(A, true, post);
      ArcWalks.Start(w, B);
      ArcWalks.IsClosed(w, A, P);
      ArcWalks.Least(w, A, P, post, i);
    }
  }

  lemma UsefulOnly(A: set<Arc>, pre: nat, post: nat)
    ensures UsefulArcs(A, pre, post) <= A
  {
  }

  lemma UsefulLanguage(g: Ends, A: set<Arc>)
    ensures SameLanguage(g, A, UsefulArcs(A, g.pre, g.post))
  {
    forall r: Reading | r.g == g ensures r.Accepts(A) <==> r.Accepts(UsefulArcs(A, g.pre, g.post)) {
      UsefulSame(r.Walks(), g.post, A, |r.w|);
    }
  }

  /** What is useful stays useful when only useful arcs are left. */
  lemma UsefulStays(A: set<Arc>, ins: bool, pre: nat, post: nat, x: nat)
    requires Useful(A, pre, post, x)
    requires x != pre && x != post
    ensures Leads(UsefulArcs(A, pre, post), ins, if ins then post else pre, x)
  {
    hide Leads;
    var B := UsefulArcs(A, pre, post);
    var p, q := if ins then post else pre, if ins then pre else post;
    forall U: iset<nat> | ClosedUnder(B, ins, U) && p in U ensures x in U {
      var T := iset y | Leads(A, ins, p, y) && (y in U || !Leads(A, !ins, q, y));
      forall a | a in A && Far(a, !ins) in T ensures Far(a, ins) in T {
        LeadsOn(A, ins, p, a);
        if Leads(A, !ins, q, Far(a, ins)) {
          LeadsOn(A, !ins, q, a);
          assert a in B;
        }
      }
      LeadsSelf(A, ins, p);
      assert ClosedUnder(A, ins, T);
      InClosed(A, ins, p, x, T);
    }
    LeadsIf(B, ins, p, x);
  }

  lemma LeadsIf(A: set<Arc>, ins: bool, x: nat, s: nat)
    requires forall T: iset<nat> {:trigger ClosedUnder(A, ins, T)} :: ClosedUnder(A, ins, T) && x in T ==> s in T
    ensures Leads(A, ins, x, s)
  {
  }

  lemma UsefulStill(A: set<Arc>, pre: nat, post: nat, x: nat)
    requires Useful(A, pre, post, x)
    ensures Useful(UsefulArcs(A, pre, post), pre, post, x)
  {
    hide Leads, UsefulArcs;
    if x != pre && x != post {
      UsefulStays(A, false, pre, post, x);
      UsefulStays(A, true, pre, post, x);
    }
  }

  /** Marks the states between the first and the last. */
  method MarkUseful(n: Nfa) returns (tmp: map<nat, int>)
    requires n.Valid()
    ensures forall s :: s in n.states ==> s in tmp && (tmp[s] == n.post || n.Flag(s) <==> Useful(n.arcs, n.pre, n.post, s))
  {
    hide Leads, Marking;
    var tmp0: map<nat, int> := map s | s in n.states :: NULL;
    var tmp1 := Mark(n.arcs, false, n.pre, NULL, n.pre, tmp0);
    MarkingKeys(n.arcs, false, n.pre, NULL, n.pre, tmp0, tmp1);
    forall x | x in tmp1 ensures tmp1[x] == (if Leads(n.arcs, false, n.pre, x) then n.pre else NULL) {
      AllReached(n.arcs, n.pre, n.pre, tmp0, tmp1, x);
    }
    tmp := Mark(n.arcs, true, n.post, n.pre, n.post, tmp1);
    MarkingKeys(n.arcs, true, n.post, n.pre, n.post, tmp1, tmp);
    forall x | x in tmp ensures tmp[x] == n.post <==> Leads(n.arcs, false, n.pre, x) && Leads(n.arcs, true, n.post, x) {
      AllReaching(n.arcs, n.pre, n.post, tmp1, tmp, x);
    }
  }

  lemma MarkingKeys(A: set<Arc>, ins: bool, s: nat, okay: int, mark: int, tmp0: map<nat, int>, tmp: map<nat, int>)
    requires Marking(A, ins, s, okay, mark, tmp0, tmp, {})
    ensures tmp.Keys == tmp0.Keys
  {
  }

  /** What is left when some of the states before position i have been dropped. */
  ghost predicate Dropping(A: set<Arc>, S: seq<nat>, useful: set<nat>, B: set<Arc>, states: seq<nat>, i: nat) {
    && i <= |states| && (forall s :: s in states ==> s in S) && (forall s :: s in useful ==> s in states)
    && (forall k :: 0 <= k < i ==> states[k] in useful)
    && (forall a :: a in B <==> a in A && a.from in states && a.to in states)
  }

  /** Drops the states that cannot be reached from the first or cannot reach the last. */
  method DropUnmarked(n: Nfa)
    requires n.Valid()
    modifies n`arcs, n`states
    ensures n.Valid() && n.arcs == UsefulArcs(old(n.arcs), n.pre, n.post)
    ensures forall s :: s in n.states <==> s in old(n.states) && Useful(old(n.arcs), n.pre, n.post, s)
  {
    hide Useful, Dropping;
    ghost var A, S := n.arcs, n.states;
    var tmp := MarkUseful(n);
    ghost var useful := set s | s in S && Useful(A, n.pre, n.post, s);
    var i := 0;
    DroppingStarts(A, S, useful);
    while i < |n.states|
      invariant n.Valid() && i <= |n.states| && Dropping(A, S, useful, n.arcs, n.states, i)
      decreases |n.states| - i
    {
      var s := n.states[i];
      DroppingState(A, S, useful, n.arcs, n.states, i);
      if tmp[s] != n.post && !n.Flag(s) {
        ghost var was, B := n.states, n.arcs;
        n.DropState(s);
        DroppedAt(was, n.states, i, s);
        DroppingMore(A, S, useful, B, was, n.arcs, n.states, i, s);
      } else {
        DroppingNext(A, S, useful, n.arcs, n.states, i);
        i := i + 1;
      }
    }
    AllDropped(A, S, useful, n.arcs, n.states, i);
  }

  lemma DroppingStarts(A: set<Arc>, S: seq<nat>, useful: set<nat>)
    requires (forall a :: a in A ==> a.from in S && a.to in S) && forall s :: s in useful ==> s in S
    ensures Dropping(A, S, useful, A, S, 0)
  {
  }

  lemma DroppingState(A: set<Arc>, S: seq<nat>, useful: set<nat>, B: set<Arc>, states: seq<nat>, i: nat)
    requires Dropping(A, S, useful, B, states, i) && i < |states|
    ensures states[i] in S
  {
  }

  lemma DroppingNext(A: set<Arc>, S: seq<nat>, useful: set<nat>, B: set<Arc>, states: seq<nat>, i: nat)
    requires Dropping(A, S, useful, B, states, i) && i < |states| && states[i] in useful
    ensures Dropping(A, S, useful, B, states, i + 1)
  {
  }

  lemma DroppingMore(A: set<Arc>, S: seq<nat>, useful: set<nat>, B: set<Arc>, was: seq<nat>, C: set<Arc>, states: seq<nat>, i: nat, s: nat)
    requires Dropping(A, S, useful, B, was, i) && i < |was| && was[i] == s && s !in useful
    requires C == B - Ins(B, s) - Outs(B, s) && states == was[..i] + was[i + 1..]
    requires forall x :: x in states <==> x in was && x != s
    ensures Dropping(A, S, useful, C, states, i)
  {
  }

  lemma AllDropped(A: set<Arc>, S: seq<nat>, useful: set<nat>, B: set<Arc>, states: seq<nat>, i: nat)
    requires Dropping(A, S, useful, B, states, i) && i == |states|
    ensures (forall s :: s in states <==> s in useful) && B == set a | a in A && a.from in useful && a.to in useful
  {
  }

  lemma DroppedAt(was: seq<nat>, states: seq<nat>, i: nat, s: nat)
    requires i < |was| && was[i] == s && (forall i, j :: 0 <= i < j < |was| ==> was[i] != was[j])
    requires exists i :: 0 <= i < |was| && was[i] == s && states == was[..i] + was[i + 1..]
    ensures states == was[..i] + was[i + 1..] && |states| == |was| - 1
    ensures forall k :: 0 <= k < i ==> states[k] == was[k]
  {
    var j :| 0 <= j < |was| && was[j] == s && states == was[..j] + was[j + 1..];
    assert i == j;
  }

  // ---------------------------------------------------------------- numbering

  ghost predicate OneToOne(no: map<nat, nat>) {
    forall x, y :: x in no && y in no && no[x] == no[y] ==> x == y
  }

  function Renamed(a: Arc, no: map<nat, nat>): Arc
    requires a.from in no && a.to in no
  {
    a.(from := no[a.from], to := no[a.to])
  }

  ghost function RenamedArcs(A: set<Arc>, no: map<nat, nat>): (B: set<Arc>)
    requires forall a :: a in A ==> a.from in no && a.to in no
  {
    set a | a in A :: Renamed(a, no)
  }

  function RenamedEnds(g: Ends, no: map<nat, nat>): Ends
    requires g.pre in no && g.post in no
  {
    g.(pre := no[g.pre], post := no[g.post])
  }

  lemma RenamedTakes(g: Ends, no: map<nat, nat>, w: seq<nat>, lacon: (nat, nat) -> bool, a: Arc, i: nat, j: nat)
    requires OneToOne(no) && g.pre in no && g.post in no && a.from in no && a.to in no
    ensures Reading(g, w, lacon).Takes(a, i, j) <==> Reading(RenamedEnds(g, no), w, lacon).Takes(Renamed(a, no), i, j)
  {
  }

  /** A word is read just as well when the states have other names. */
  lemma RenamedAccepts(g: Ends, A: set<Arc>, no: map<nat, nat>, w: seq<nat>, lacon: (nat, nat) -> bool)
    requires OneToOne(no) && g.pre in no && g.post in no && forall a :: a in A ==> a.from in no && a.to in no
    ensures Reading(g, w, lacon).Accepts(A) <==> Reading(RenamedEnds(g, no), w, lacon).Accepts(RenamedArcs(A, no))
  {
    hide Reading.Takes, Reading.Reached;
    var r, q, B := Reading(g, w, lacon), Reading(RenamedEnds(g, no), w, lacon), RenamedArcs(A, no);
    if q.Accepts(B) {
      var P := iset p: (nat, nat) | exists s :: s in no && no[s] == p.0 && r.Reached(A, s, p.1);
      forall b, i: nat, j: nat | b in B && (b.from, i) in P && q.Takes(b, i, j) ensures (b.to, j) in P {
        var a :| a in A && b == Renamed(a, no);
        var s :| s in no && no[s] == b.from && r.Reached(A, s, i);
        assert s == a.from;
        RenamedTakes(g, no, w, lacon, a, i, j);
        WordReading.Forward(r, A, a, i, j);
      }
      WordReading.Start(r, A);
      WordReading.IsClosed(q, B, P);
      WordReading.Least(q, B, P, q.g.post, |w|);
    }
    if r.Accepts(A) {
      var P := iset p: (nat, nat) | p.0 in no && q.Reached(B, no[p.0], p.1);
      forall a, i: nat, j: nat | a in A && (a.from, i) in P && r.Takes(a, i, j) ensures (a.to, j) in P {
        RenamedTakes(g, no, w, lacon, a, i, j);
        assert Renamed(a, no) in B;
        WordReading.Forward(q, B, Renamed(a, no), i, j);
      }
      WordReading.Start(q, B);
      WordReading.IsClosed(r, A, P);
      WordReading.Least(r, A, P, g.post, |w|);
    }
  }

  /** B with its ends h accepts the words that A with its ends g accepts. */
  ghost predicate SameWords(g: Ends, A: set<Arc>, h: Ends, B: set<Arc>) {
    && h == g.(pre := h.pre, post := h.post)
    && forall w, lacon {:trigger Reading(g, w, lacon)} {:trigger Reading(h, w, lacon)} ::
         Reading(g, w, lacon).Accepts(A) <==> Reading(h, w, lacon).Accepts(B)
  }

  lemma RenamedLeads(A: set<Arc>, ins: bool, no: map<nat, nat>, x: nat, s: nat)
    requires (forall a :: a in A ==> a.from in no && a.to in no) && x in no && s in no && Leads(A, ins, x, s)
    ensures Leads(RenamedArcs(A, no), ins, no[x], no[s])
  {
    forall U: iset<nat> | ClosedUnder(RenamedArcs(A, no), ins, U) && no[x] in U ensures no[s] in U {
      var T := iset y | y in no && no[y] in U;
      forall a | a in A && Far(a, !ins) in T ensures Far(a, ins) in T {
        assert Renamed(a, no) in RenamedArcs(A, no);
      }
      assert ClosedUnder(A, ins, T);
    }
  }

  lemma RenamedUseful(A: set<Arc>, no: map<nat, nat>, pre: nat, post: nat, s: nat)
    requires (forall a :: a in A ==> a.from in no && a.to in no) && pre in no && post in no && s in no && Useful(A, pre, post, s)
    ensures Useful(RenamedArcs(A, no), no[pre], no[post], no[s])
  {
    hide Leads;
    if s != pre && s != post {
      RenamedLeads(A, false, no, pre, s);
      RenamedLeads(A, true, no, post, s);
    }
  }

  /** Numbers in the order of the chain. */
  method Number(states: seq<nat>) returns (no: map<nat, nat>)
    requires forall i, j :: 0 <= i < j < |states| ==> states[i] != states[j]
    ensures no.Keys == (set s | s in states) && forall k :: 0 <= k < |states| ==> no[states[k]] == k
  {
    no := map[];
    var i := 0;
    while i < |states|
      invariant i <= |states| && no.Keys == (set s | s in states[..i])
      invariant forall k :: 0 <= k < i ==> states[k] in no && no[states[k]] == k
    {
      assert states[..i + 1] == states[..i] + [states[i]];
      no := no[states[i] := i];
      i := i + 1;
    }
    assert states[..i] == states;
  }

  /** The states of n, numbered in the order of their chain. A state's name is its number here, so this makes another NFA. */
  method Renumber(n: Nfa) returns (m: Nfa, no: map<nat, nat>)
    requires n.Valid()
    ensures fresh(m) && m.Valid() && (forall s: nat :: s < m.nstates ==> s in m.states)
    ensures no.Keys == (set s | s in n.states) && OneToOne(no) && m.pre == no[n.pre] && m.post == no[n.post]
    ensures m.arcs == RenamedArcs(n.arcs, no) && forall t :: t in m.states ==> t in no.Values
  {
    hide OneToOne;
    no := Number(n.states);
    NumbersOf(n.states, no);
    NamesDiffer(no, n.pre, n.post);
    m := new Nfa(|n.states|, no[n.pre], no[n.post], set a | a in n.arcs :: Renamed(a, no));
    forall s: nat | s < m.nstates ensures s in m.states && s in no.Values {
      assert m.states[s] == s && no[n.states[s]] == s;
    }
  }

  lemma NamesDiffer(no: map<nat, nat>, x: nat, y: nat)
    requires OneToOne(no) && x in no && y in no && x != y
    ensures no[x] != no[y]
  {
  }

  lemma NumbersOf(states: seq<nat>, no: map<nat, nat>)
    requires no.Keys == (set s | s in states) && forall k :: 0 <= k < |states| ==> no[states[k]] == k
    ensures OneToOne(no) && forall s :: s in no ==> no[s] < |states|
  {
    forall s | s in no ensures no[s] < |states| && states[no[s]] == s {
      var k :| 0 <= k < |states| && states[k] == s;
    }
  }

  /** Drops what is of no use and numbers the rest. */
  method CleanUp(n: Nfa, g: Ends) returns (m: Nfa, h: Ends)
    requires n.Valid() && n.pre == g.pre && n.post == g.post
    modifies n`arcs, n`states
    ensures fresh(m) && m.Valid() && m.pre == h.pre && m.post == h.post && (forall s: nat :: s < m.nstates ==> s in m.states)
    ensures SameWords(g, old(n.arcs), h, m.arcs)
    ensures forall b :: b in m.arcs ==> exists a :: a in old(n.arcs) && Alike(g, a, h, b)
    ensures forall s :: s in m.states ==> Useful(m.arcs, m.pre, m.post, s)
  {
    hide Useful, UsefulArcs, SameLanguage, RenamedArcs, SameWords, OneToOne;
    ghost var A := n.arcs;
    DropUnmarked(n);
    UsefulLanguage(g, A);
    UsefulOnly(A, g.pre, g.post);
    ghost var B := n.arcs;
    var no;
    m, no := Renumber(n);
    h := RenamedEnds(g, no);
    CleanedWords(g, A, B, no);
    CleanedAlike(g, A, B, no);
    forall t | t in m.states ensures Useful(m.arcs, m.pre, m.post, t) {
      var s :| s in no && no[s] == t;
      UsefulStill(A, g.pre, g.post, s);
      RenamedUseful(B, no, g.pre, g.post, s);
    }
  }

  /** The arc b is a with its ends named otherwise. */
  predicate Alike(g: Ends, a: Arc, h: Ends, b: Arc) {
    && b.ty == a.ty && b.co == a.co
    && (a.from == g.pre <==> b.from == h.pre) && (a.from == g.post <==> b.from == h.post)
    && (a.to == g.pre <==> b.to == h.pre) && (a.to == g.post <==> b.to == h.post)
  }

  lemma CleanedWords(g: Ends, A: set<Arc>, B: set<Arc>, no: map<nat, nat>)
    requires SameLanguage(g, A, B) && OneToOne(no) && g.pre in no && g.post in no
    requires forall a :: a in B ==> a.from in no && a.to in no
    ensures SameWords(g, A, RenamedEnds(g, no), RenamedArcs(B, no))
  {
    var h, C := RenamedEnds(g, no), RenamedArcs(B, no);
    forall w, lacon ensures Reading(g, w, lacon).Accepts(A) <==> Reading(h, w, lacon).Accepts(C) {
      assert Reading(g, w, lacon).Accepts(A) <==> Reading(g, w, lacon).Accepts(B);
      RenamedAccepts(g, B, no, w, lacon);
    }
  }

  lemma CleanedAlike(g: Ends, A: set<Arc>, B: set<Arc>, no: map<nat, nat>)
    requires B <= A && OneToOne(no) && g.pre in no && g.post in no
    requires forall a :: a in B ==> a.from in no && a.to in no
    ensures forall b :: b in RenamedArcs(B, no) ==> exists a :: a in A && Alike(g, a, RenamedEnds(g, no), b)
  {
    forall b | b in RenamedArcs(B, no) ensures exists a :: a in A && Alike(g, a, RenamedEnds(g, no), b) {
      var a :| a in B && b == Renamed(a, no);
      assert Alike(g, a, RenamedEnds(g, no), b);
    }
  }
}
