/** The rounds of pulling back and pushing forward, and what they leave. */
module ConstraintRemoval {
  import opened NfaGraph
  import opened ColorRuns
  import opened WordReading
  import opened PullStep
  import opened PullWeight
  import opened PullBack
  import opened ReadingBackward

  /** Back constraints leave s only if it is the first state. */
  ghost predicate Clean(g: Ends, A: set<Arc>, s: nat) {
    forall a :: a in A && a.from == s && IsBack(a.ty) ==> s == g.pre
  }

  lemma StillClean(g: Ends, A: set<Arc>, B: set<Arc>, s: nat)
    requires Clean(g, A, s) && B <= A
    ensures Clean(g, B, s)
  {
  }

  lemma FlaggedClean(n: Nfa, rev: bool, g: Ends, A: set<Arc>, s: nat)
    requires EndsFit(n, rev, g) && Regular(g, A) && forall a :: a in Outs(A, s) && IsBack(a.ty) ==> n.Flag(s)
    ensures Clean(g, A, s)
  {
    FlagMeans(n, rev, g, s);
    forall a | a in A && a.from == s && IsBack(a.ty) ensures s == g.pre {
      assert a in Outs(A, s);
    }
  }

  /** What every part of the elimination keeps. */
  ghost predicate Keeps(g: Ends, A: set<Arc>, B: set<Arc>) {
    SameLanguage(g, A, B) && Kinds(B) <= Kinds(A)
  }

  lemma KeepsTrans(g: Ends, A: set<Arc>, B: set<Arc>, C: set<Arc>)
    requires Keeps(g, A, B) && Keeps(g, B, C)
    ensures Keeps(g, A, C)
  {
    SameTrans(g, A, B, C);
  }

  lemma KeepsSelf(g: Ends, A: set<Arc>)
    ensures Keeps(g, A, A)
  {
  }

  lemma NoIntermediates(g: Ends, A: set<Arc>, f: nat, states: seq<nat>)
    ensures InterOk(g, A, f, map[]) && Listed(map[], states)
  {
  }

  /** Pulls every back constraint out of s, as long as there is space for more states. */
  method PullAllFrom(n: Nfa, rev: bool, g: Ends, limit: nat, s: nat, ghost rank0: map<nat, nat>, ghost kinds: set<(ArcType, nat)>)
    returns (progress: bool, ghost rank: map<nat, nat>)
    requires Fit(n, rev, g, rank0) && s in n.states && Kinds(Seen(n, rev)) <= kinds && n.nstates <= limit
    modifies n`arcs, n`states, n`nstates
    ensures Fit(n, rev, g, rank) && Keeps(g, old(Seen(n, rev)), Seen(n, rev))
    ensures old(n.states) <= n.states
    ensures !progress ==> Seen(n, rev) == old(Seen(n, rev)) && n.states == old(n.states) && Clean(g, Seen(n, rev), s)
    ensures !progress ==> n.nstates == old(n.nstates) && rank == rank0
    ensures progress ==> Toil(g, Seen(n, rev), rank, kinds, limit) < Toil(g, old(Seen(n, rev)), rank0, kinds, limit)
  {
    hide InterOk, Listed, Regular, Ranked, SameLanguage, Kinds, Seen, Clean, Toil;
    progress, rank := false, rank0;
    ghost var A := Seen(n, rev);
    KeepsSelf(g, A);
    NoIntermediates(g, A, s, n.states);
    var inter: Intermediates := map[];
    var todo := Outs(Seen(n, rev), s);
    while todo != {} && n.nstates <= limit
      invariant Fit(n, rev, g, rank) && Keeps(g, A, Seen(n, rev))
      invariant old(n.states) <= n.states
      invariant if progress then Toil(g, Seen(n, rev), rank, kinds, limit) < Toil(g, A, rank0, kinds, limit)
                else n.nstates == old(n.nstates) && rank == rank0
      invariant todo <= Outs(Seen(n, rev), s)
      invariant todo != {} ==> InterOk(g, Seen(n, rev), s, inter) && Listed(inter, n.states)
      invariant !progress ==> Seen(n, rev) == old(Seen(n, rev)) && n.states == old(n.states)
      invariant !progress ==> forall a :: a in Outs(Seen(n, rev), s) - todo && IsBack(a.ty) ==> n.Flag(s)
      decreases todo
    {
      var a :| a in todo;
      if IsBack(a.ty) {
        ghost var B := Seen(n, rev);
        var ok;
        ok, inter, rank := Pull(n, rev, g, a, inter, rank, kinds, limit);
        KeepsTrans(g, A, B, Seen(n, rev));
        progress := progress || ok;
      }
      todo := todo - {a};
    }
    if !progress {
      FlaggedClean(n, rev, g, Seen(n, rev), s);
    }
  }

  /** One turn of a round: pulls what leaves state number i, and drops the state if it has become useless. */
  method Visit(n: Nfa, rev: bool, g: Ends, limit: nat, i: nat, ghost rank0: map<nat, nat>, ghost kinds: set<(ArcType, nat)>)
    returns (progress: bool, dropped: bool, ghost states: seq<nat>, ghost rank: map<nat, nat>)
    requires Fit(n, rev, g, rank0) && i < |n.states| && Kinds(Seen(n, rev)) <= kinds && n.nstates <= limit
    modifies n`arcs, n`states, n`nstates
    ensures Fit(n, rev, g, rank) && Keeps(g, old(Seen(n, rev)), Seen(n, rev))
    ensures old(n.states) <= states && (!progress ==> states == old(n.states))
    ensures n.states == if dropped then states[..i] + states[i + 1..] else states
    ensures !progress ==> Seen(n, rev) <= old(Seen(n, rev)) && Clean(g, Seen(n, rev), old(n.states)[i])
    ensures !progress ==> n.nstates == old(n.nstates)
    ensures var was, now := Toil(g, old(Seen(n, rev)), rank0, kinds, limit), Toil(g, Seen(n, rev), rank, kinds, limit);
            now <= was && (progress ==> now < was)
  {
    hide Regular, Ranked, SameLanguage, Kinds, Keeps, Seen, Clean, Toil;
    var s := n.states[i];
    ghost var A := Seen(n, rev);
    progress, rank := PullAllFrom(n, rev, g, limit, s, rank0, kinds);
    states := n.states;
    dropped := (Ins(Seen(n, rev), s) == {} || Outs(Seen(n, rev), s) == {}) && !n.Flag(s);
    if dropped {
      ghost var B := Seen(n, rev);
      FlagMeans(n, rev, g, s);
      DropStateSeen(n, rev, s);
      DropKeeps(g, A, B, s, rank);
      DroppedToil(g, B, Seen(n, rev), rank, kinds, limit);
      if !progress {
        StillClean(g, B, Seen(n, rev), s);
      }
    }
  }

  lemma DropKeeps(g: Ends, A: set<Arc>, B: set<Arc>, s: nat, rank: map<nat, nat>)
    requires Regular(g, B) && Ranked(B, rank) && Keeps(g, A, B) && s != g.pre && s != g.post
    requires Ins(B, s) == {} || Outs(B, s) == {}
    ensures var C := B - Ins(B, s) - Outs(B, s); Regular(g, C) && Ranked(C, rank) && Keeps(g, A, C)
  {
    var C := B - Ins(B, s) - Outs(B, s);
    DropUseless(g, B, C);
    KindsMore(C, B);
    SameTrans(g, A, B, C);
  }

  // ---------------------------------------------------------------- rounds

  /** Back constraints are left only at the first state. */
  ghost predicate OnlyAtStart(g: Ends, A: set<Arc>) {
    forall a :: a in A && IsBack(a.ty) ==> a.from == g.pre
  }

  lemma AllClean(n: Nfa, rev: bool, g: Ends, rank: map<nat, nat>)
    requires Fit(n, rev, g, rank) && forall i :: 0 <= i < |n.states| ==> Clean(g, Seen(n, rev), n.states[i])
    ensures OnlyAtStart(g, Seen(n, rev))
  {
    SeenValid(n, rev);
    forall a | a in Seen(n, rev) && IsBack(a.ty) ensures a.from == g.pre {
      var i :| 0 <= i < |n.states| && n.states[i] == a.from;
      assert Clean(g, Seen(n, rev), n.states[i]);
    }
  }

  /** One round over the states. It ends early when there is no more space for states, as the source ends it with an
      error: then it is not done. */
  method Round(n: Nfa, rev: bool, g: Ends, limit: nat, ghost rank0: map<nat, nat>, ghost kinds: set<(ArcType, nat)>)
    returns (progress: bool, done: bool, ghost rank: map<nat, nat>)
    requires Fit(n, rev, g, rank0) && Kinds(Seen(n, rev)) <= kinds && n.nstates <= limit
    modifies n`arcs, n`states, n`nstates
    ensures Fit(n, rev, g, rank) && Keeps(g, old(Seen(n, rev)), Seen(n, rev))
    ensures !done ==> n.nstates > limit
    ensures done && !progress ==> OnlyAtStart(g, Seen(n, rev))
    ensures !progress ==> n.nstates == old(n.nstates)
    ensures var was, now := Toil(g, old(Seen(n, rev)), rank0, kinds, limit), Toil(g, Seen(n, rev), rank, kinds, limit);
            now <= was && (progress ==> now < was)
  {
    hide Regular, Ranked, SameLanguage, Kinds, Keeps, Seen, OnlyAtStart, Clean, Toil;
    progress, done, rank := false, false, rank0;
    ghost var A := Seen(n, rev);
    KeepsSelf(g, A);
    StatesSome(n, rev, g, rank);
    var i := 0;
    while !done && n.nstates <= limit
      invariant Fit(n, rev, g, rank) && Keeps(g, A, Seen(n, rev)) && Kinds(Seen(n, rev)) <= kinds
      invariant i <= |n.states| && (!done ==> i < |n.states|)
      invariant !progress ==> forall k :: 0 <= k < i ==> Clean(g, Seen(n, rev), n.states[k])
      invariant done && !progress ==> i == |n.states|
      invariant !progress ==> n.nstates == old(n.nstates)
      invariant var was, now := Toil(g, A, rank0, kinds, limit), Toil(g, Seen(n, rev), rank, kinds, limit);
                now <= was && (progress ==> now < was)
      decreases Toil(g, Seen(n, rev), rank, kinds, limit), |n.states| - i
    {
      var last := i + 1 == |n.states|;
      ghost var B, S := Seen(n, rev), n.states;
      ghost var states;
      var moved, dropped;
      moved, dropped, states, rank := Visit(n, rev, g, limit, i, rank, kinds);
      KeepsTrans(g, A, B, Seen(n, rev));
      KeepsKinds(g, B, Seen(n, rev));
      if !progress && !moved {
        forall k | 0 <= k < i ensures Clean(g, Seen(n, rev), n.states[k]) {
          assert n.states[k] == S[k];
          StillClean(g, B, Seen(n, rev), S[k]);
        }
      }
      progress, done := progress || moved, last;
      if !dropped {
        i := i + 1;
      }
    }
    if done && !progress {
      AllClean(n, rev, g, rank);
    }
  }

  lemma StatesSome(n: Nfa, rev: bool, g: Ends, rank: map<nat, nat>)
    requires Fit(n, rev, g, rank)
    ensures n.states != []
  {
  }

  lemma KeepsKinds(g: Ends, A: set<Arc>, B: set<Arc>)
    requires Keeps(g, A, B)
    ensures Kinds(B) <= Kinds(A)
  {
  }

  /** Rounds until nothing moves any more, or until there is no more space for states: then it is not done. One or the
      other comes about, as every round that moves something leaves less to be moved. */
  method PullUntilDone(n: Nfa, rev: bool, g: Ends, limit: nat, ghost rank0: map<nat, nat>) returns (done: bool, ghost rank: map<nat, nat>)
    requires Fit(n, rev, g, rank0)
    modifies n`arcs, n`states, n`nstates
    ensures Fit(n, rev, g, rank) && Keeps(g, old(Seen(n, rev)), Seen(n, rev))
    ensures done ==> OnlyAtStart(g, Seen(n, rev))
    ensures done <==> n.nstates <= limit
  {
    hide Regular, Ranked, SameLanguage, Kinds, Keeps, Seen, OnlyAtStart, Toil;
    ghost var A := Seen(n, rev);
    ghost var kinds := Kinds(A);
    KeepsSelf(g, A);
    var progress := true;
    rank := rank0;
    while progress && n.nstates <= limit
      invariant Fit(n, rev, g, rank) && Keeps(g, A, Seen(n, rev)) && Kinds(Seen(n, rev)) <= kinds
      invariant !progress && n.nstates <= limit ==> OnlyAtStart(g, Seen(n, rev))
      decreases Toil(g, Seen(n, rev), rank, kinds, limit), progress
    {
      ghost var B := Seen(n, rev);
      var ended;
      progress, ended, rank := Round(n, rev, g, limit, rank, kinds);
      KeepsTrans(g, A, B, Seen(n, rev));
      KeepsKinds(g, B, Seen(n, rev));
    }
    done := n.nstates <= limit;
  }

  // ---------------------------------------------------------------- markers

  /** The ^ arcs out of the first state. */
  function Markers(g: Ends, A: set<Arc>): set<Arc> {
    set a | a in A && a.from == g.pre && a.ty == BOL
  }

  /** The plain arc that consumes the end marker. */
  function Consuming(g: Ends, a: Arc): Arc {
    a.(ty := PLAIN, co := g.Bos(a.co))
  }

  lemma ConsumingTakes(r: Reading, a: Arc, i: nat, j: nat)
    requires a.ty == BOL && a.from == r.g.pre
    ensures r.Takes(a, i, j) <==> r.Takes(Consuming(r.g, a), i, j)
  {
  }

  lemma ClosedToo(r: Reading, A: set<Arc>, B: set<Arc>, P: iset<(nat, nat)>, a: Arc, b: Arc)
    requires r.Closed(A, P) && a in A && a.from == b.from && a.to == b.to && B <= A + {b}
    requires forall i: nat, j: nat :: r.Takes(a, i, j) <==> r.Takes(b, i, j)
    ensures r.Closed(B, P)
  {
    forall c, i: nat, j: nat | c in B && (c.from, i) in P && r.Takes(c, i, j) ensures (c.to, j) in P {
      ClosedTakes(r, A, P, if c == b then a else c, i, j);
    }
  }

  /** Exchanging an arc for one that takes the same steps. */
  lemma Exchange(g: Ends, A: set<Arc>, a: Arc, b: Arc)
    requires a in A && a != b && a.from == b.from && a.to == b.to
    requires forall r: Reading, i: nat, j: nat :: r.g == g ==> (r.Takes(a, i, j) <==> r.Takes(b, i, j))
    ensures SameLanguage(g, A, A + {b} - {a})
  {
    var B := A + {b} - {a};
    forall r: Reading | r.g == g ensures r.Accepts(A) <==> r.Accepts(B) {
      forall P ensures r.Closed(A, P) <==> r.Closed(B, P) {
        if r.Closed(A, P) { ClosedToo(r, A, B, P, a, b); }
        if r.Closed(B, P) { ClosedToo(r, B, A, P, b, a); }
      }
      ClosedAlike(r, A, B);
    }
  }

  function ConsumingAll(g: Ends, D: set<Arc>): set<Arc> {
    set a | a in D :: Consuming(g, a)
  }

  lemma SeenIs(n: Nfa, rev: bool)
    ensures Seen(n, rev) == if rev then Mirrored(n.arcs) else n.arcs
  {
  }

  /** The plain arcs that take the place of the ^ arcs out of the first state, or the $ arcs into the last. */
  lemma MarkersConverted(g: Ends, A: set<Arc>, B: set<Arc>, C: set<Arc>, D: set<Arc>)
    requires B == A - Markers(g, A) + ConsumingAll(g, Markers(g, A)) && A == Mirrored(C) && B == Mirrored(D)
    ensures forall a :: a in A && a.ty == BOL && a.from == g.pre ==>
              Arc(PLAIN, if a.co == 0 then g.bos0 else g.bos1, a.from, a.to) in B
    ensures forall a :: a in C && a.ty == EOL && a.to == g.pre ==>
              Arc(PLAIN, if a.co == 0 then g.bos0 else g.bos1, a.from, a.to) in D
  {
    forall a | a in A && a.ty == BOL && a.from == g.pre
      ensures Arc(PLAIN, if a.co == 0 then g.bos0 else g.bos1, a.from, a.to) in B
    {
      assert a in Markers(g, A) && Consuming(g, a) in ConsumingAll(g, Markers(g, A));
    }
    forall a | a in C && a.ty == EOL && a.to == g.pre
      ensures Arc(PLAIN, if a.co == 0 then g.bos0 else g.bos1, a.from, a.to) in D
    {
      assert Mirror(Mirror(a)) == a && Mirror(a) in A;
      var b := Consuming(g, Mirror(a));
      assert b in B && Mirror(b) in D;
    }
  }

  /** Replaces the ^ arcs out of the first state by plain arcs that consume the end markers (seen backward, the
      $ arcs into the last state): number 0 stands for the marker of a string whose end is not to match, and any
      other for the marker of a real end. */
  method ConvertMarkers(n: Nfa, rev: bool, g: Ends)
    requires n.Valid() && EndsFit(n, rev, g)
    modifies n`arcs
    ensures !rev ==> forall a :: a in old(n.arcs) && a.ty == BOL && a.from == g.pre ==>
              Arc(PLAIN, if a.co == 0 then g.bos0 else g.bos1, a.from, a.to) in n.arcs
    ensures rev ==> forall a :: a in old(n.arcs) && a.ty == EOL && a.to == g.pre ==>
              Arc(PLAIN, if a.co == 0 then g.bos0 else g.bos1, a.from, a.to) in n.arcs
    ensures n.Valid() && SameLanguage(g, old(Seen(n, rev)), Seen(n, rev))
    ensures Seen(n, rev) == old(Seen(n, rev)) - Markers(g, old(Seen(n, rev))) + ConsumingAll(g, Markers(g, old(Seen(n, rev))))
  {
    hide SameLanguage, Seen;
    ghost var A, C := Seen(n, rev), n.arcs;
    SeenIs(n, rev);
    var todo := Markers(g, Seen(n, rev));
    ghost var done: set<Arc> := {};
    SameSelf(g, A);
    while todo != {}
      invariant n.Valid() && done + todo == Markers(g, A) && todo <= Seen(n, rev) && done !! todo
      invariant Seen(n, rev) == A - done + ConsumingAll(g, done) && SameLanguage(g, A, Seen(n, rev))
      decreases todo
    {
      var a :| a in todo;
      ghost var B := Seen(n, rev);
      SeenValid(n, rev);
      ExchangeMarker(g, B, a);
      NewArcSeen(n, rev, Consuming(g, a));
      FreeArcSeen(n, rev, a);
      SameTrans(g, A, B, Seen(n, rev));
      ConsumingMore(g, done, a);
      todo, done := todo - {a}, done + {a};
    }
    SeenIs(n, rev);
    MirroredTwice(C);
    MirroredTwice(n.arcs);
    if rev {
      MarkersConverted(g, A, Seen(n, rev), C, n.arcs);
    } else {
      MarkersConverted(g, A, Seen(n, rev), Mirrored(C), Mirrored(n.arcs));
    }
  }

  lemma SameSelf(g: Ends, A: set<Arc>)
    ensures SameLanguage(g, A, A)
  {
  }

  lemma ConsumingMore(g: Ends, D: set<Arc>, a: Arc)
    ensures ConsumingAll(g, D + {a}) == ConsumingAll(g, D) + {Consuming(g, a)}
    ensures forall b :: b in ConsumingAll(g, D) ==> b.ty == PLAIN
  {
  }

  lemma ExchangeMarker(g: Ends, A: set<Arc>, a: Arc)
    requires a in A && a.ty == BOL && a.from == g.pre
    ensures SameLanguage(g, A, A + {Consuming(g, a)} - {a})
  {
    forall r: Reading, i: nat, j: nat | r.g == g ensures r.Takes(a, i, j) <==> r.Takes(Consuming(g, a), i, j) {
      ConsumingTakes(r, a, i, j);
    }
    Exchange(g, A, a, Consuming(g, a));
  }

  // ---------------------------------------------------------------- pullback and pushfwd

  /** The end markers of either side are four different colours, none of them a colour of the text. */
  ghost predicate MarksApart(g: Ends, A: set<Arc>) {
    && g.eos0 != g.eos1 && {g.bos0, g.bos1} !! {g.eos0, g.eos1}
    && forall a :: a in A && (a.ty == PLAIN || a.ty == AHEAD) ==> a.co != g.eos0 && a.co != g.eos1
  }

  /** There are no back constraints, and the NFA is regular when read backward. */
  ghost predicate PulledOut(g: Ends, A: set<Arc>) {
    (forall a :: a in A ==> !IsBack(a.ty)) && Regular(FlipEnds(g), Mirrored(A))
  }

  /** Only plain arcs and lookahead constraints are left, of kinds that were there or that consume an end
      marker, and none enters the first state or leaves the last. */
  ghost predicate Executable(g: Ends, A: set<Arc>, B: set<Arc>) {
    && (forall a :: a in B ==> (a.ty == PLAIN || a.ty == LACON) && a.to != g.pre && a.from != g.post)
    && NoNewKinds(g, A, B)
  }

  /** Every arc is of a kind that was there, or consumes an end marker. */
  ghost predicate NoNewKinds(g: Ends, A: set<Arc>, B: set<Arc>) {
    forall b :: b in B ==> (b.ty, b.co) in Kinds(A) || (b.ty == PLAIN && b.co in {g.bos0, g.bos1, g.eos0, g.eos1})
  }

  lemma NoNewKindsTrans(g: Ends, A: set<Arc>, B: set<Arc>, C: set<Arc>)
    requires NoNewKinds(g, A, B) && NoNewKinds(g, B, C)
    ensures NoNewKinds(g, A, C)
  {
    forall c | c in C ensures (c.ty, c.co) in Kinds(A) || (c.ty == PLAIN && c.co in {g.bos0, g.bos1, g.eos0, g.eos1}) {
      if (c.ty, c.co) in Kinds(B) {
        var b :| b in B && b.ty == c.ty && b.co == c.co;
      }
    }
  }

  lemma ConvertedOut(g: Ends, A0: set<Arc>, A: set<Arc>, B: set<Arc>)
    requires Regular(g, A) && OnlyAtStart(g, A) && MarksApart(g, A0) && Kinds(A) <= Kinds(A0)
    requires B == A - Markers(g, A) + ConsumingAll(g, Markers(g, A))
    ensures PulledOut(g, B) && NoNewKinds(g, A0, B)
  {
    forall b | b in B ensures !IsBack(b.ty) && b.ty != EMPTY && b.from != g.post && b.to != g.pre
        && (b.to == g.post ==> b.ty == PLAIN || b.ty == EOL) && (b.from == g.pre ==> b.ty == PLAIN)
        && (b.ty == PLAIN || b.ty == AHEAD ==> b.co != g.eos0 && b.co != g.eos1) && (b.ty == EOL ==> b.co < 2) {
      if b in A {
        assert (b.ty, b.co) in Kinds(A0);
      } else {
        var a :| a in Markers(g, A) && b == Consuming(g, a);
      }
    }
  }

  lemma ConvertedRank(g: Ends, A: set<Arc>, B: set<Arc>, rank: map<nat, nat>)
    requires Ranked(A, rank) && B == A - Markers(g, A) + ConsumingAll(g, Markers(g, A))
    ensures Ranked(B, rank)
  {
  }

  /** Pulls constraints backward until they are gone: ^ arcs end up as plain arcs out of pre. */
  method Pullback(n: Nfa, g: Ends, limit: nat, ghost rank0: map<nat, nat>) returns (done: bool, ghost rank: map<nat, nat>)
    requires n.Valid() && n.pre == g.pre && n.post == g.post
    requires Regular(g, n.arcs) && MarksApart(g, n.arcs) && Ranked(n.arcs, rank0)
    modifies n`arcs, n`states, n`nstates
    ensures n.Valid() && SameLanguage(g, old(n.arcs), n.arcs)
    ensures done ==> PulledOut(g, n.arcs) && Ranked(n.arcs, rank) && NoNewKinds(g, old(n.arcs), n.arcs)
    ensures done <==> n.nstates <= limit
  {
    hide Regular, Ranked, SameLanguage, Kinds, OnlyAtStart, MarksApart, PulledOut, NoNewKinds;
    ghost var A := n.arcs;
    done, rank := PullUntilDone(n, false, g, limit, rank0);
    if done {
      ghost var B := n.arcs;
      ConvertMarkers(n, false, g);
      SameTrans(g, A, B, n.arcs);
      ConvertedOut(g, A, B, n.arcs);
      ConvertedRank(g, B, n.arcs, rank);
    }
  }

  /** Pushes constraints forward until they are gone: $ arcs end up as plain arcs into post. */
  method Pushfwd(n: Nfa, g: Ends, limit: nat, ghost rank0: map<nat, nat>) returns (done: bool)
    requires n.Valid() && n.pre == g.pre && n.post == g.post
    requires PulledOut(g, n.arcs) && Ranked(n.arcs, rank0)
    modifies n`arcs, n`states, n`nstates
    ensures n.Valid() && SameLanguage(g, old(n.arcs), n.arcs)
    ensures done ==> Executable(g, old(n.arcs), n.arcs)
    ensures done <==> n.nstates <= limit
  {
    hide Regular, Ranked, SameLanguage, Kinds, OnlyAtStart, PulledOut, Executable;
    ghost var A := n.arcs;
    PulledOutRegular(g, A);
    ghost var rank := MirrorRank(A, rank0);
    ghost var f := FlipEnds(g);
    done, rank := PullUntilDone(n, true, FlipEnds(g), limit, rank);
    ghost var B := n.arcs;
    if done {
      ConvertMarkers(n, true, FlipEnds(g));
      SameTrans(f, Mirrored(A), Mirrored(B), Mirrored(n.arcs));
      NothingLeft(g, A, B, n.arcs);
    }
    SameBackward(g, A, n.arcs);
  }

  lemma PulledOutRegular(g: Ends, A: set<Arc>)
    requires PulledOut(g, A)
    ensures Regular(FlipEnds(g), Mirrored(A))
  {
  }

  /** Read backward, ranks count down. */
  lemma MirrorRank(A: set<Arc>, rank: map<nat, nat>) returns (down: map<nat, nat>)
    requires Ranked(A, rank)
    ensures Ranked(Mirrored(A), down)
  {
    var top := Bound(rank.Values);
    down := map s | s in rank :: if rank[s] <= top then top - rank[s] else 0;
    forall m | m in Mirrored(A) && IsConstraint(m.ty) ensures m.from in down && m.to in down && down[m.from] < down[m.to] {
      assert Mirror(m) in A;
      assert rank[m.from] in rank.Values && rank[m.to] in rank.Values;
    }
  }

  lemma {:induction false} Bound(S: set<nat>) returns (top: nat)
    ensures forall x :: x in S ==> x <= top
    decreases S
  {
    if S == {} {
      top := 0;
    } else {
      var x :| x in S;
      var t := Bound(S - {x});
      top := if t < x then x else t;
      assert forall y :: y in S ==> y == x || y in S - {x};
    }
  }

  lemma NothingLeft(g: Ends, A: set<Arc>, B: set<Arc>, C: set<Arc>)
    requires PulledOut(g, A) && OnlyAtStart(FlipEnds(g), Mirrored(B)) && Kinds(Mirrored(B)) <= Kinds(Mirrored(A)) && Regular(FlipEnds(g), Mirrored(B))
    requires var f := FlipEnds(g);
             Mirrored(C) == Mirrored(B) - Markers(f, Mirrored(B)) + ConsumingAll(f, Markers(f, Mirrored(B)))
    ensures Executable(g, A, C)
  {
    var f := FlipEnds(g);
    forall c | c in C
      ensures (c.ty == PLAIN || c.ty == LACON) && c.to != g.pre && c.from != g.post
      ensures (c.ty, c.co) in Kinds(A) || (c.ty == PLAIN && c.co in {g.bos0, g.bos1, g.eos0, g.eos1})
    {
      var m := Mirror(c);
      assert Mirror(m) == c && m in Mirrored(C);
      if m in Mirrored(B) - Markers(f, Mirrored(B)) {
        assert (m.ty, m.co) in Kinds(Mirrored(A));
        var a :| a in Mirrored(A) && a.ty == m.ty && a.co == m.co;
        assert Mirror(a) in A;
        assert (Mirror(a).ty, Mirror(a).co) in Kinds(A);
      } else {
        var a :| a in Markers(f, Mirrored(B)) && m == Consuming(f, a);
      }
    }
  }

  /** Both directions: what is left is what the executor can run, and it accepts the same words, unless there is no
      space for the states it takes: then there has been an error and nothing is compiled. */
  method RemoveConstraints(n: Nfa, g: Ends, limit: nat, ghost rank0: map<nat, nat>) returns (done: bool)
    requires n.Valid() && n.pre == g.pre && n.post == g.post
    requires Regular(g, n.arcs) && MarksApart(g, n.arcs) && Ranked(n.arcs, rank0)
    modifies n`arcs, n`states, n`nstates
    ensures n.Valid() && SameLanguage(g, old(n.arcs), n.arcs)
    ensures done ==> Executable(g, old(n.arcs), n.arcs)
    ensures done <==> n.nstates <= limit
  {
    hide Regular, Ranked, SameLanguage, MarksApart, PulledOut, Executable, NoNewKinds;
    ghost var A, rank := n.arcs, rank0;
    done, rank := Pullback(n, g, limit, rank);
    if done {
      ghost var B := n.arcs;
      done := Pushfwd(n, g, limit, rank);
      SameTrans(g, A, B, n.arcs);
      if done {
        ExecutableFrom(g, A, B, n.arcs);
      }
    }
  }

  lemma ExecutableFrom(g: Ends, A: set<Arc>, B: set<Arc>, C: set<Arc>)
    requires NoNewKinds(g, A, B) && Executable(g, B, C)
    ensures Executable(g, A, C)
  {
    NoNewKindsTrans(g, A, B, C);
  }
}
