/** Turning an optimized NFA into the NFA of the preliminary search: an implicit
    .* in front, and a split of the first states into progress and no-progress
    copies so that the last no-progress position bounds the match start. */
module SearchConversion {
  import opened NfaGraph

  /** The state that x is a copy of. */
  ghost function Orig(orig: map<nat, nat>, x: nat): nat {
    if x in orig then orig[x] else x
  }

  /** A is A0 with the states in orig.Values split: orig maps each progress copy to the state it
      copies, arcs out of pre enter the old state and all other arcs enter the copy. */
  ghost predicate SplitOf(A0: set<Arc>, A: set<Arc>, orig: map<nat, nat>, pre: nat) {
    forall a: Arc {:trigger a in A} :: a in A <==>
      && a.(from := Orig(orig, a.from), to := Orig(orig, a.to)) in A0
      && (a.to in orig <==> a.from != pre && Orig(orig, a.to) in orig.Values)
  }

  lemma NewValue(m: map<nat, nat>, k: nat, v: nat)
    requires k !in m
    ensures m[k := v].Values == m.Values + {v}
  {
    var m' := m[k := v];
    forall x | x in m.Values ensures x in m'.Values {
      var j :| j in m && m[j] == x;
      assert m'[j] == x;
    }
    assert m'[k] == v;
  }

  /** Splitting one more state. */
  lemma SplitOne(A0: set<Arc>, A: set<Arc>, A1: set<Arc>, A2: set<Arc>, orig: map<nat, nat>, pre: nat, s: nat, c: nat)
    requires SplitOf(A0, A, orig, pre)
    requires s !in orig.Values && s !in orig && c !in orig && c != s && s != pre && c != pre && c !in orig.Values
    requires forall a :: a in A ==> a.from != c && a.to != c
    requires forall a :: a in A0 ==> a.from != c && a.to != c && a.from !in orig && a.to !in orig
    requires forall x :: x in orig ==> orig[x] !in orig && orig[x] != pre
    requires pre !in orig
    requires A1 == A + LeaveFrom(Outs(A, s), c)
    requires var M := set a | a in A1 && a.to == s && a.from != pre;
             A2 == A1 - M + Enter(M, c)
    ensures SplitOf(A0, A2, orig[c := s], pre)
  {
    var orig' := orig[c := s];
    var M := set a | a in A1 && a.to == s && a.from != pre;
    forall a: Arc ensures a in A1 <==> (if a.from == c then a.(from := s) in A else a in A) {
      if a.from == c && a.(from := s) in A { assert a.(from := s).(from := c) == a; assert a.(from := s) in Outs(A, s); }
    }
    forall a: Arc ensures a in A2 <==>
        if a.to == c then a.from != pre && a.(to := s) in A1 else a in A1 && !(a.to == s && a.from != pre)
    {
      if a.to == c && a.(to := s) in M { assert a.(to := s).(to := c) == a; }
    }
    NewValue(orig, c, s);
    forall a: Arc ensures a in A2 <==>
      && a.(from := Orig(orig', a.from), to := Orig(orig', a.to)) in A0
      && (a.to in orig' <==> a.from != pre && Orig(orig', a.to) in orig'.Values)
    {
      var f := if a.from == c then s else a.from;
      var t := if a.to == c then s else a.to;
      var b := a.(from := f, to := t);
      assert Orig(orig', a.from) == Orig(orig, f) && Orig(orig', a.to) == Orig(orig, t);
      assert b in A <==> b.(from := Orig(orig, f), to := Orig(orig, t)) in A0
                         && (t in orig <==> f != pre && Orig(orig, t) in orig.Values);
    }
  }

  /** Every match must start at the beginning of the string (or there is none). */
  predicate Anchored(A: set<Arc>, pre: nat, bos0: nat, bos1: nat) {
    forall a :: a in A && a.from == pre ==> a.co == bos0 || a.co == bos1
  }

  function Loops(pre: nat, colors: set<nat>): set<Arc> {
    set co | co in colors :: Arc(PLAIN, co, pre, pre)
  }

  /** The arcs with the implicit .* in front, if it is needed. */
  function WithLoops(A: set<Arc>, pre: nat, rainbow: set<nat>, bos0: nat, bos1: nat): set<Arc> {
    if Anchored(A, pre, bos0, bos1) then A else A + Loops(pre, rainbow + {bos0, bos1})
  }

  /** The first states that can also be entered later. */
  ghost predicate NeedsSplit(A: set<Arc>, pre: nat, s: nat) {
    (exists a :: a in A && a.from == pre && a.to == s) && (exists b :: b in A && b.from != pre && b.to == s)
  }

  /** Adds a loop at pre for each of the colours. */
  method AddLoops(n: Nfa, colors: set<nat>)
    requires n.Valid()
    modifies n`arcs
    ensures n.Valid() && n.arcs == old(n.arcs) + Loops(n.pre, colors)
  {
    var todo := colors;
    ghost var done: set<nat> := {};
    while todo != {}
      invariant n.Valid() && done + todo == colors && n.arcs == old(n.arcs) + Loops(n.pre, done)
      decreases todo
    {
      var co :| co in todo;
      n.NewArc(PLAIN, co, n.pre, n.pre);
      todo, done := todo - {co}, done + {co};
    }
  }

  /** Makes the list of the states to split. A state on the list is marked, so that it is listed once. */
  method ListStates(n: Nfa) returns (slist: seq<nat>)
    requires n.Valid()
    ensures forall s :: s in slist <==> NeedsSplit(n.arcs, n.pre, s)
    ensures forall i, j :: 0 <= i < j < |slist| ==> slist[i] != slist[j]
  {
    slist := [];
    var todo := Outs(n.arcs, n.pre);
    while todo != {}
      invariant todo <= Outs(n.arcs, n.pre)
      invariant forall s :: s in slist ==> NeedsSplit(n.arcs, n.pre, s)
      invariant forall a :: a in Outs(n.arcs, n.pre) - todo && NeedsSplit(n.arcs, n.pre, a.to) ==> a.to in slist
      invariant forall i, j :: 0 <= i < j < |slist| ==> slist[i] != slist[j]
      decreases todo
    {
      var a :| a in todo;
      var s := a.to;
      var others := set b | b in Ins(n.arcs, s) && b.from != n.pre;
      if others != {} && s !in slist {
        var b :| b in others;
        assert NeedsSplit(n.arcs, n.pre, s);
        slist := [s] + slist;
      }
      if NeedsSplit(n.arcs, n.pre, s) {
        ghost var b :| b in n.arcs && b.from != n.pre && b.to == s;
        assert b in others;
      }
      todo := todo - {a};
    }
  }

  /** Splits state s: a new state takes over the in-arcs that do not come from pre. */
  method SplitState(n: Nfa, s: nat) returns (s2: nat)
    requires n.Valid() && s in n.states && s != n.pre
    modifies n
    ensures n.Valid() && s2 == old(n.nstates) && n.nstates == s2 + 1 && n.states == old(n.states) + [s2]
    ensures var A1 := old(n.arcs) + LeaveFrom(Outs(old(n.arcs), s), s2);
            var M := set a | a in A1 && a.to == s && a.from != n.pre;
            n.arcs == A1 - M + Enter(M, s2)
  {
    s2 := n.NewState();
    n.CopyOuts(s, s2);
    TakeOver(n, s, s2);
  }

  /** Makes the in-arcs of s that do not come from pre enter s2 instead. */
  method TakeOver(n: Nfa, s: nat, s2: nat)
    requires n.Valid() && s in n.states && s2 in n.states && s != s2
    modifies n`arcs
    ensures n.Valid()
    ensures var M := set a | a in old(n.arcs) && a.to == s && a.from != n.pre;
            n.arcs == old(n.arcs) - M + Enter(M, s2)
  {
    ghost var A1 := n.arcs;
    var todo := set a | a in n.arcs && a.to == s && a.from != n.pre;
    ghost var M, done: set<Arc> := todo, {};
    while todo != {}
      invariant n.Valid() && done + todo == M && todo <= n.arcs
      invariant n.arcs == A1 - done + Enter(done, s2)
      decreases todo
    {
      var a :| a in todo;
      n.NewArc(a.ty, a.co, a.from, s2);
      n.FreeArc(a);
      todo, done := todo - {a}, done + {a};
    }
  }

  /** The first k states of slist have been split; copies are numbered from first on. */
  ghost predicate Splitting(A0: set<Arc>, A: set<Arc>, orig: map<nat, nat>, pre: nat, first: nat, next: nat, slist: seq<nat>, k: nat)
    requires k <= |slist|
  {
    && SplitOf(A0, A, orig, pre) && pre < first <= next
    && (forall a :: a in A0 ==> a.from < first && a.to < first)
    && (forall a :: a in A ==> a.from < next && a.to < next)
    && (forall c :: c in orig ==> first <= c < next)
    && (forall s :: s in orig.Values <==> s in slist[..k])
    && (forall i :: 0 <= i < |slist| ==> slist[i] < first && slist[i] != pre)
    && (forall i, j :: 0 <= i < j < |slist| ==> slist[i] != slist[j])
  }

  lemma SplitNext(A0: set<Arc>, A: set<Arc>, A2: set<Arc>, orig: map<nat, nat>, pre: nat, first: nat, next: nat, slist: seq<nat>, k: nat)
    requires k < |slist| && Splitting(A0, A, orig, pre, first, next, slist, k)
    requires var A1 := A + LeaveFrom(Outs(A, slist[k]), next);
             var M := set a | a in A1 && a.to == slist[k] && a.from != pre;
             A2 == A1 - M + Enter(M, next)
    ensures Splitting(A0, A2, orig[next := slist[k]], pre, first, next + 1, slist, k + 1)
  {
    var s := slist[k];
    assert slist[..k + 1] == slist[..k] + [s];
    assert s !in slist[..k];
    forall x | x in orig ensures orig[x] < first && orig[x] != pre {
      assert orig[x] in orig.Values;
      var i :| 0 <= i < k && slist[..k][i] == orig[x];
    }
    forall v | v in orig.Values ensures v < first {
      var x :| x in orig && orig[x] == v;
    }
    NewValue(orig, next, s);
    SplitOne(A0, A, A + LeaveFrom(Outs(A, s), next), A2, orig, pre, s, next);
  }

  lemma SplitNothing(A0: set<Arc>, pre: nat, first: nat, slist: seq<nat>)
    requires pre < first && forall a :: a in A0 ==> a.from < first && a.to < first && (a.to == pre ==> a.from == pre)
    requires forall s :: s in slist ==> NeedsSplit(A0, pre, s)
    requires forall i, j :: 0 <= i < j < |slist| ==> slist[i] != slist[j]
    ensures Splitting(A0, A0, map[], pre, first, first, slist, 0)
  {
    forall i | 0 <= i < |slist| ensures slist[i] < first && slist[i] != pre {
      assert slist[i] in slist;
      var b :| b in A0 && b.from != pre && b.to == slist[i];
    }
    assert forall a: Arc :: a.(from := a.from, to := a.to) == a;
  }

  lemma ListedState(A0: set<Arc>, pre: nat, slist: seq<nat>, i: nat)
    requires i < |slist| && forall s :: s in slist ==> NeedsSplit(A0, pre, s)
    ensures exists a :: a in A0 && a.to == slist[i]
    ensures (forall a :: a in A0 ==> a.to == pre ==> a.from == pre) ==> slist[i] != pre
  {
    assert slist[i] in slist;
  }

  lemma SplittingMeans(A0: set<Arc>, A: set<Arc>, orig: map<nat, nat>, pre: nat, first: nat, next: nat, slist: seq<nat>)
    requires Splitting(A0, A, orig, pre, first, next, slist, |slist|)
    ensures SplitOf(A0, A, orig, pre) && (forall c :: c in orig ==> first <= c < next)
    ensures forall s :: s in orig.Values <==> s in slist
  {
    assert slist[..|slist|] == slist;
  }

  /** Turns n into a search NFA. */
  method MakeSearch(n: Nfa, rainbow: set<nat>, bos0: nat, bos1: nat) returns (ghost orig: map<nat, nat>)
    requires n.Valid()
    requires forall a :: a in n.arcs ==> a.to != n.pre && a.from != n.post
    modifies n
    ensures n.Valid() && n.nstates >= old(n.nstates)
    ensures var A0 := WithLoops(old(n.arcs), n.pre, rainbow, bos0, bos1);
            && SplitOf(A0, n.arcs, orig, n.pre)
            && (forall s :: s in orig.Values <==> NeedsSplit(A0, n.pre, s))
    ensures forall c :: c in orig ==> c >= old(n.nstates) && c in n.states
    ensures forall s: nat :: s in old(n.states) || old(n.nstates) <= s < n.nstates ==> s in n.states
  {
    hide SplitOf, NeedsSplit, Splitting;
    if !Anchored(n.arcs, n.pre, bos0, bos1) {
      AddLoops(n, rainbow + {bos0, bos1});
    }
    ghost var A0, first := n.arcs, n.nstates;
    orig := map[];
    var slist := ListStates(n);
    SplitNothing(A0, n.pre, first, slist);
    for i := 0 to |slist|
      invariant n.Valid() && n.nstates >= first && Splitting(A0, n.arcs, orig, n.pre, first, n.nstates, slist, i)
      invariant forall c :: c in orig ==> c in n.states
      invariant forall s: nat :: s in old(n.states) || first <= s < n.nstates ==> s in n.states
    {
      ghost var A := n.arcs;
      var s := slist[i];
      ListedState(A0, n.pre, slist, i);
      assert s in n.states;
      var s2 := SplitState(n, s);
      SplitNext(A0, A, n.arcs, orig, n.pre, first, s2, slist, i);
      orig := orig[s2 := s];
    }
    SplittingMeans(A0, n.arcs, orig, n.pre, first, n.nstates, slist);
  }
}
