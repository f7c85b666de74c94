/** Getting rid of EMPTY arcs. */
module FixEmpties {
  import opened NfaGraph
  import opened ArcWalks
  import opened PullStep
  import WordReading

  /** EMPTY arcs do nothing, and what another arc does depends on where it is hung up only if that is
      the first or the last state. */
  ghost predicate Indifferent(w: Walker, post: nat) {
    && (forall a: Arc, i: nat, j: nat :: a.ty == EMPTY ==> (w.takes(a, i, j) <==> i == j))
    && (forall a: Arc, b: Arc, i: nat, j: nat :: a.ty != EMPTY && b == a.(to := b.to) && a.to != post && b.to != post ==>
          (w.takes(b, i, j) <==> w.takes(a, i, j)))
    && (forall a: Arc, b: Arc, i: nat, j: nat :: a.ty != EMPTY && b == a.(from := b.from) && a.from != w.start && b.from != w.start ==>
          (w.takes(b, i, j) <==> w.takes(a, i, j)))
  }

  /** A and B lead to post in the same ways. */
  ghost predicate SameWalks(pre: nat, post: nat, A: set<Arc>, B: set<Arc>) {
    forall w: Walker, i: nat {:trigger w.Reached(A, post, i)} {:trigger w.Reached(B, post, i)} ::
      w.start == pre && Indifferent(w, post) ==> (w.Reached(A, post, i) <==> w.Reached(B, post, i))
  }

  lemma SameWalksTrans(pre: nat, post: nat, A: set<Arc>, B: set<Arc>, C: set<Arc>)
    requires SameWalks(pre, post, A, B) && SameWalks(pre, post, B, C)
    ensures SameWalks(pre, post, A, C)
  {
    forall w: Walker, i: nat | w.start == pre && Indifferent(w, post) ensures w.Reached(A, post, i) <==> w.Reached(C, post, i) {
      assert w.Reached(A, post, i) <==> w.Reached(B, post, i);
    }
  }

  /** What the parser makes: as Regular, but with EMPTY arcs that do not touch pre or post. */
  ghost predicate Parsed(g: WordReading.Ends, A: set<Arc>) {
    && g.pre != g.post && g.bos0 != g.bos1
    && (forall a :: a in A ==> a.from != g.post && a.to != g.pre)
    && (forall a :: a in A && a.from == g.pre ==> a.ty == PLAIN || a.ty == BOL)
    && (forall a :: a in A && a.to == g.post ==> a.ty == PLAIN || a.ty == EOL)
    && (forall a :: a in A && (a.ty == PLAIN || a.ty == BEHIND) ==> a.co != g.bos0 && a.co != g.bos1)
    && (forall a :: a in A && (a.ty == BOL || a.ty == EOL) ==> a.co < 2)
  }

  // ---------------------------------------------------------------- words and labels

  /** Reading a word of colours is indifferent. */
  lemma ReadingIndifferent(r: WordReading.Reading)
    ensures Indifferent(r.Walks(), r.g.post)
  {
  }

  lemma SameWords(g: WordReading.Ends, A: set<Arc>, B: set<Arc>)
    requires SameWalks(g.pre, g.post, A, B)
    ensures WordReading.SameLanguage(g, A, B)
  {
    forall r: WordReading.Reading | r.g == g ensures r.Accepts(A) <==> r.Accepts(B) {
      ReadingIndifferent(r);
      assert r.Walks().Reached(A, g.post, |r.w|) <==> r.Walks().Reached(B, g.post, |r.w|);
    }
  }

  /** Exactly the same label sequences lead from pre to post. */
  lemma SameLabels(pre: nat, post: nat, A: set<Arc>, B: set<Arc>, u: seq<(ArcType, nat)>)
    requires SameWalks(pre, post, A, B)
    ensures Speller(pre, 0, u).Reached(A, post, |u|) <==> Speller(pre, 0, u).Reached(B, post, |u|)
  {
    assert Indifferent(Speller(pre, 0, u), post);
  }

  // ---------------------------------------------------------------- aliases

  /** The state s has only an EMPTY arc to t; whatever enters s may enter t instead. */
  lemma AliasSame(g: WordReading.Ends, A: set<Arc>, B: set<Arc>, s: nat, e: Arc)
    requires Parsed(g, A) && Outs(A, s) == {e} && e.ty == EMPTY && e.to != s && s != g.pre && s != g.post
    requires B == A - Ins(A, s) - {e} + Enter(Ins(A, s), e.to)
    ensures SameWalks(g.pre, g.post, A, B) && Parsed(g, B)
  {
    forall w: Walker, i: nat | w.start == g.pre && Indifferent(w, g.post) ensures w.Reached(A, g.post, i) <==> w.Reached(B, g.post, i) {
      if w.Reached(A, g.post, i) { AliasThere(w, g, A, B, s, e, i); }
      if w.Reached(B, g.post, i) { AliasBack(w, g, A, B, s, e, i); }
    }
  }

  lemma AliasThere(w: Walker, g: WordReading.Ends, A: set<Arc>, B: set<Arc>, s: nat, e: Arc, i: nat)
    requires Parsed(g, A) && Outs(A, s) == {e} && e.ty == EMPTY && e.to != s && s != g.pre && s != g.post
    requires B == A - Ins(A, s) - {e} + Enter(Ins(A, s), e.to)
    requires w.start == g.pre && Indifferent(w, g.post) && w.Reached(A, g.post, i)
    ensures w.Reached(B, g.post, i)
  {
    hide Walker.Reached;
    var P := iset p: (nat, nat) | w.Reached(B, if p.0 == s then e.to else p.0, p.1);
    forall a, k: nat, j: nat | a in A && (a.from, k) in P && w.takes(a, k, j) ensures (a.to, j) in P {
      if a.from == s {
        assert a in Outs(A, s);
      } else if a.to == s {
        var b := a.(to := e.to);
        assert a in Ins(A, s) && b in Enter(Ins(A, s), e.to);
        assert w.takes(b, k, j);
        Forward(w, B, b, k, j);
      } else {
        Forward(w, B, a, k, j);
      }
    }
    Start(w, B);
    IsClosed(w, A, P);
    Least(w, A, P, g.post, i);
  }

  lemma AliasBack(w: Walker, g: WordReading.Ends, A: set<Arc>, B: set<Arc>, s: nat, e: Arc, i: nat)
    requires Parsed(g, A) && Outs(A, s) == {e} && e.ty == EMPTY && e.to != s && s != g.pre && s != g.post
    requires B == A - Ins(A, s) - {e} + Enter(Ins(A, s), e.to)
    requires w.start == g.pre && Indifferent(w, g.post) && w.Reached(B, g.post, i)
    ensures w.Reached(A, g.post, i)
  {
    hide Walker.Reached;
    var P := iset p: (nat, nat) | w.Reached(A, p.0, p.1);
    forall b, k: nat, j: nat | b in B && (b.from, k) in P && w.takes(b, k, j) ensures (b.to, j) in P {
      if b in A {
        Forward(w, A, b, k, j);
      } else {
        var a :| a in Ins(A, s) && b == a.(to := e.to);
        assert w.takes(a, k, j);
        Forward(w, A, a, k, j);
        assert e in Outs(A, s) && w.takes(e, j, j);
        Forward(w, A, e, j, j);
      }
    }
    Start(w, A);
    IsClosed(w, B, P);
    Least(w, B, P, g.post, i);
  }

  /** Only an EMPTY arc from f enters s; whatever leaves s may leave f instead. */
  lemma FoldSame(g: WordReading.Ends, A: set<Arc>, B: set<Arc>, s: nat, e: Arc)
    requires Parsed(g, A) && Ins(A, s) == {e} && e.ty == EMPTY && e.from != s && s != g.pre && s != g.post
    requires B == A - Outs(A, s) - {e} + LeaveFrom(Outs(A, s), e.from)
    ensures SameWalks(g.pre, g.post, A, B) && Parsed(g, B)
  {
    forall w: Walker, i: nat | w.start == g.pre && Indifferent(w, g.post) ensures w.Reached(A, g.post, i) <==> w.Reached(B, g.post, i) {
      if w.Reached(A, g.post, i) { FoldThere(w, g, A, B, s, e, i); }
      if w.Reached(B, g.post, i) { FoldBack(w, g, A, B, s, e, i); }
    }
  }

  lemma FoldThere(w: Walker, g: WordReading.Ends, A: set<Arc>, B: set<Arc>, s: nat, e: Arc, i: nat)
    requires Parsed(g, A) && Ins(A, s) == {e} && e.ty == EMPTY && e.from != s && s != g.pre && s != g.post
    requires B == A - Outs(A, s) - {e} + LeaveFrom(Outs(A, s), e.from)
    requires w.start == g.pre && Indifferent(w, g.post) && w.Reached(A, g.post, i)
    ensures w.Reached(B, g.post, i)
  {
    hide Walker.Reached;
    var P := iset p: (nat, nat) | w.Reached(B, if p.0 == s then e.from else p.0, p.1);
    forall a, k: nat, j: nat | a in A && (a.from, k) in P && w.takes(a, k, j) ensures (a.to, j) in P {
      if a.to == s {
        assert a in Ins(A, s);
      } else if a.from == s {
        var b := a.(from := e.from);
        assert a in Outs(A, s) && b in LeaveFrom(Outs(A, s), e.from);
        assert e in Ins(A, s);
        assert w.takes(b, k, j);
        Forward(w, B, b, k, j);
      } else {
        Forward(w, B, a, k, j);
      }
    }
    Start(w, B);
    IsClosed(w, A, P);
    Least(w, A, P, g.post, i);
  }

  lemma FoldBack(w: Walker, g: WordReading.Ends, A: set<Arc>, B: set<Arc>, s: nat, e: Arc, i: nat)
    requires Parsed(g, A) && Ins(A, s) == {e} && e.ty == EMPTY && e.from != s && s != g.pre && s != g.post
    requires B == A - Outs(A, s) - {e} + LeaveFrom(Outs(A, s), e.from)
    requires w.start == g.pre && Indifferent(w, g.post) && w.Reached(B, g.post, i)
    ensures w.Reached(A, g.post, i)
  {
    hide Walker.Reached;
    var P := iset p: (nat, nat) | w.Reached(A, p.0, p.1);
    forall b, k: nat, j: nat | b in B && (b.from, k) in P && w.takes(b, k, j) ensures (b.to, j) in P {
      if b in A {
        Forward(w, A, b, k, j);
      } else {
        var a :| a in Outs(A, s) && b == a.(from := e.from);
        assert e in Ins(A, s) && w.takes(e, k, k);
        Forward(w, A, e, k, k);
        assert w.takes(a, k, j);
        Forward(w, A, a, k, j);
      }
    }
    Start(w, A);
    IsClosed(w, B, P);
    Least(w, B, P, g.post, i);
  }

  /** A state whose outarcs all lead back to itself, or whose inarcs all come from itself, plays no part. */
  lemma TrapSame(g: WordReading.Ends, A: set<Arc>, s: nat)
    requires s != g.pre && s != g.post
    requires (forall a :: a in Outs(A, s) ==> a.to == s) || (forall a :: a in Ins(A, s) ==> a.from == s)
    ensures SameWalks(g.pre, g.post, A, A - Ins(A, s) - Outs(A, s))
    ensures Parsed(g, A) ==> Parsed(g, A - Ins(A, s) - Outs(A, s))
  {
    var B := A - Ins(A, s) - Outs(A, s);
    forall w: Walker, i: nat | w.start == g.pre && Indifferent(w, g.post) ensures w.Reached(A, g.post, i) <==> w.Reached(B, g.post, i) {
      if w.Reached(B, g.post, i) { ReachedMore(w, B, A, g.post, i); }
      if w.Reached(A, g.post, i) {
        TrapThere(w, g, A, s, i);
      }
    }
  }

  lemma TrapThere(w: Walker, g: WordReading.Ends, A: set<Arc>, s: nat, i: nat)
    requires s != g.pre && s != g.post && w.start == g.pre && w.Reached(A, g.post, i)
    requires (forall a :: a in Outs(A, s) ==> a.to == s) || (forall a :: a in Ins(A, s) ==> a.from == s)
    ensures w.Reached(A - Ins(A, s) - Outs(A, s), g.post, i)
  {
    hide Walker.Reached;
    var B := A - Ins(A, s) - Outs(A, s);
    var trap := forall a :: a in Outs(A, s) ==> a.to == s;
    var P := iset p: (nat, nat) | if p.0 == s then trap else w.Reached(B, p.0, p.1);
    forall a, k: nat, j: nat | a in A && (a.from, k) in P && w.takes(a, k, j) ensures (a.to, j) in P {
      if a.from == s {
        assert a in Outs(A, s);
      } else if a.to == s {
        assert a in Ins(A, s);
      } else {
        Forward(w, B, a, k, j);
      }
    }
    Start(w, B);
    IsClosed(w, A, P);
    Least(w, A, P, g.post, i);
  }

  // ---------------------------------------------------------------- pushing inarcs forward

  ghost predicate BackClosed(A: set<Arc>, T: iset<nat>) {
    forall a :: a in A && a.ty == EMPTY && a.to in T ==> a.from in T
  }

  /** A chain of EMPTY arcs leads from x to s. */
  ghost predicate Empties(A: set<Arc>, x: nat, s: nat) {
    forall T: iset<nat> {:trigger BackClosed(A, T)} :: BackClosed(A, T) && s in T ==> x in T
  }

  lemma EmptiesAfter(A: set<Arc>, x: nat, a: Arc)
    requires a in A && a.ty == EMPTY && Empties(A, x, a.from)
    ensures Empties(A, x, a.to)
  {
    forall T: iset<nat> | BackClosed(A, T) && a.to in T ensures x in T {
      assert a.from in T;
    }
  }

  /** The states that get inarcs: those with a non-EMPTY outarc, and the flagged ones. */
  ghost predicate Target(g: WordReading.Ends, A: set<Arc>, s: nat) {
    s == g.pre || s == g.post || exists a :: a in A && a.from == s && a.ty != EMPTY
  }

  /** b is an original arc pushed forward along EMPTY arcs. */
  ghost predicate IsPushed(g: WordReading.Ends, A: set<Arc>, b: Arc) {
    Target(g, A, b.to) && exists a :: a in A && a.ty != EMPTY && b == a.(to := b.to) && Empties(A, a.to, b.to)
  }

  /** B has, in place of the EMPTY arcs of A, the original arcs pushed forward. */
  ghost predicate Replaced(g: WordReading.Ends, A: set<Arc>, B: set<Arc>) {
    && (forall b :: b in B ==> b.ty != EMPTY && (b in A || IsPushed(g, A, b)))
    && (forall b :: b in A && b.ty != EMPTY ==> b in B)
    && (forall b :: IsPushed(g, A, b) ==> b in B)
  }

  lemma ReplacedSame(g: WordReading.Ends, A: set<Arc>, B: set<Arc>)
    requires Parsed(g, A) && Replaced(g, A, B)
    ensures SameWalks(g.pre, g.post, A, B)
  {
    forall w: Walker, i: nat | w.start == g.pre && Indifferent(w, g.post) ensures w.Reached(A, g.post, i) <==> w.Reached(B, g.post, i) {
      if w.Reached(A, g.post, i) { ReplacedThere(w, g, A, B, i); }
      if w.Reached(B, g.post, i) { ReplacedBack(w, g, A, B, i); }
    }
  }

  /** The last step of a walk in A that is not an EMPTY arc, and the EMPTY arcs after it. */
  ghost predicate Arrived(w: Walker, A: set<Arc>, B: set<Arc>, s: nat, i: nat) {
    || (s == w.start && i == w.at)
    || exists a, k: nat :: a in A && a.ty != EMPTY && w.Reached(B, a.from, k) && w.takes(a, k, i) && Empties(A, a.to, s)
  }

  lemma ReplacedThere(w: Walker, g: WordReading.Ends, A: set<Arc>, B: set<Arc>, i: nat)
    requires Parsed(g, A) && Replaced(g, A, B) && w.start == g.pre && Indifferent(w, g.post) && w.Reached(A, g.post, i)
    ensures w.Reached(B, g.post, i)
  {
    hide Walker.Reached, Empties;
    var P := iset p: (nat, nat) | Arrived(w, A, B, p.0, p.1);
    forall b, k: nat, j: nat | b in A && (b.from, k) in P && w.takes(b, k, j) ensures (b.to, j) in P {
      if b.ty == EMPTY {
        var a, m: nat :| a in A && a.ty != EMPTY && w.Reached(B, a.from, m) && w.takes(a, m, k) && Empties(A, a.to, b.from);
        EmptiesAfter(A, a.to, b);
      } else {
        assert Target(g, A, b.from);
        ArrivedIsReached(w, g, A, B, b.from, k);
        EmptiesSelf(A, b.to);
      }
    }
    assert (w.start, w.at) in P;
    IsClosed(w, A, P);
    Least(w, A, P, g.post, i);
    ArrivedIsReached(w, g, A, B, g.post, i);
  }

  lemma EmptiesSelf(A: set<Arc>, s: nat)
    ensures Empties(A, s, s)
  {
  }

  lemma ArrivedIsReached(w: Walker, g: WordReading.Ends, A: set<Arc>, B: set<Arc>, s: nat, i: nat)
    requires Parsed(g, A) && Replaced(g, A, B) && w.start == g.pre && Indifferent(w, g.post)
    requires Arrived(w, A, B, s, i) && Target(g, A, s)
    ensures w.Reached(B, s, i)
  {
    hide Walker.Reached, Empties;
    if s == w.start && i == w.at {
      Start(w, B);
    } else {
      var a, k: nat :| a in A && a.ty != EMPTY && w.Reached(B, a.from, k) && w.takes(a, k, i) && Empties(A, a.to, s);
      var b := a.(to := s);
      assert IsPushed(g, A, b);
      NotIntoPost(g, A, a, s);
      assert w.takes(b, k, i);
      Forward(w, B, b, k, i);
    }
  }

  /** No chain of EMPTY arcs ends in post, or starts there. */
  lemma NotIntoPost(g: WordReading.Ends, A: set<Arc>, a: Arc, s: nat)
    requires Parsed(g, A) && a in A && Empties(A, a.to, s)
    ensures a.to == s || (a.to != g.post && s != g.post)
  {
    assert BackClosed(A, iset{g.post});
    assert BackClosed(A, AllBut(g.post));
  }

  ghost function AllBut(s: nat): iset<nat> {
    iset x: nat | (x, s).0 != s
  }

  lemma ReplacedBack(w: Walker, g: WordReading.Ends, A: set<Arc>, B: set<Arc>, i: nat)
    requires Parsed(g, A) && Replaced(g, A, B) && w.start == g.pre && Indifferent(w, g.post) && w.Reached(B, g.post, i)
    ensures w.Reached(A, g.post, i)
  {
    hide Walker.Reached, Empties;
    var P := iset p: (nat, nat) | w.Reached(A, p.0, p.1);
    forall b, k: nat, j: nat | b in B && (b.from, k) in P && w.takes(b, k, j) ensures (b.to, j) in P {
      if b in A {
        Forward(w, A, b, k, j);
      } else {
        var a :| a in A && a.ty != EMPTY && b == a.(to := b.to) && Empties(A, a.to, b.to);
        NotIntoPost(g, A, a, b.to);
        assert w.takes(a, k, j);
        Forward(w, A, a, k, j);
        ChainReached(w, g, A, a.to, b.to, j);
      }
    }
    Start(w, A);
    IsClosed(w, B, P);
    Least(w, B, P, g.post, i);
  }

  lemma ChainReached(w: Walker, g: WordReading.Ends, A: set<Arc>, x: nat, s: nat, j: nat)
    requires w.Reached(A, x, j) && Empties(A, x, s) && Indifferent(w, g.post)
    ensures w.Reached(A, s, j)
  {
    hide Walker.Reached;
    var T := iset y: nat | w.Reached(A, y, j) ==> w.Reached(A, s, j);
    forall a | a in A && a.ty == EMPTY && a.to in T ensures a.from in T {
      if w.Reached(A, a.from, j) {
        assert w.takes(a, j, j);
        Forward(w, A, a, j, j);
      }
    }
    assert BackClosed(A, T);
  }

  // ---------------------------------------------------------------- the passes

  /** What the passes keep. */
  ghost predicate Good(n: Nfa, g: WordReading.Ends)
    reads n
  {
    n.Valid() && n.pre == g.pre && n.post == g.post && Parsed(g, n.arcs)
  }

  /** A state whose only outarc is EMPTY is dropped, and its inarcs go to its successor. */
  method DropAlias(n: Nfa, g: WordReading.Ends, s: nat) returns (dropped: bool)
    requires Good(n, g) && s in n.states
    modifies n`arcs, n`states
    ensures Good(n, g) && SameWalks(g.pre, g.post, old(n.arcs), n.arcs) && Kinds(n.arcs) <= Kinds(old(n.arcs))
    ensures !dropped ==> n.states == old(n.states)
    ensures dropped ==> |n.states| == |old(n.states)| - 1
  {
    hide SameWalks, Parsed, Kinds;
    ghost var A := n.arcs;
    SameWalksSelf(g, A);
    if n.Flag(s) || |Outs(n.arcs, s)| != 1 {
      return false;
    }
    var a :| a in Outs(n.arcs, s);
    SingleElement(Outs(n.arcs, s), a);
    if a.ty != EMPTY {
      return false;
    }
    if s != a.to {
      n.MoveIns(s, a.to);
      n.DropState(s);
      KindsMoved(A, n.arcs);
      AliasDropped(A, s, a);
      AliasSame(g, A, n.arcs, s, a);
    } else {
      n.DropState(s);
      KindsMoved(A, n.arcs);
      TrapSame(g, A, s);
    }
    dropped := true;
  }

  /** Arcs that have only been hung up elsewhere are of no new kind. */
  lemma KindsMoved(A: set<Arc>, B: set<Arc>)
    requires forall b :: b in B ==> exists a :: a in A && a.ty == b.ty && a.co == b.co
    ensures Kinds(B) <= Kinds(A)
  {
    forall b | b in B ensures (b.ty, b.co) in Kinds(A) {
      var a :| a in A && a.ty == b.ty && a.co == b.co;
    }
  }

  lemma SameWalksSelf(g: WordReading.Ends, A: set<Arc>)
    ensures SameWalks(g.pre, g.post, A, A)
  {
  }

  lemma AliasDropped(A: set<Arc>, s: nat, e: Arc)
    requires Outs(A, s) == {e} && e.to != s
    ensures var B := A - Ins(A, s) + Enter(Ins(A, s), e.to);
            B - Ins(B, s) - Outs(B, s) == A - Ins(A, s) - {e} + Enter(Ins(A, s), e.to)
  {
    forall a | a in A && a.from == s ensures a == e {
      assert a in Outs(A, s);
    }
    assert e in Outs(A, s);
    forall b | b in Enter(Ins(A, s), e.to) ensures b.from != s && b.to != s {
      var a :| a in Ins(A, s) && b == a.(to := e.to);
    }
  }

  lemma FoldDropped(A: set<Arc>, s: nat, e: Arc)
    requires Ins(A, s) == {e} && e.from != s
    ensures var B := A - Outs(A, s) + LeaveFrom(Outs(A, s), e.from);
            B - Ins(B, s) - Outs(B, s) == A - Outs(A, s) - {e} + LeaveFrom(Outs(A, s), e.from)
  {
    forall a | a in A && a.to == s ensures a == e {
      assert a in Ins(A, s);
    }
    assert e in Ins(A, s);
    forall b | b in LeaveFrom(Outs(A, s), e.from) ensures b.from != s && b.to != s {
      var a :| a in Outs(A, s) && b == a.(from := e.from);
    }
  }

  lemma SingleElement(S: set<Arc>, a: Arc)
    requires |S| == 1 && a in S
    ensures S == {a}
  {
    assert |S - {a}| == 0;
  }

  /** A state whose only inarc is EMPTY is dropped, and its outarcs go to its predecessor. */
  method FoldIntoPredecessor(n: Nfa, g: WordReading.Ends, s: nat) returns (dropped: bool)
    requires Good(n, g) && s in n.states
    modifies n`arcs, n`states
    ensures Good(n, g) && SameWalks(g.pre, g.post, old(n.arcs), n.arcs) && Kinds(n.arcs) <= Kinds(old(n.arcs))
    ensures !dropped ==> n.states == old(n.states)
    ensures dropped ==> |n.states| == |old(n.states)| - 1
  {
    hide SameWalks, Parsed, Kinds;
    ghost var A := n.arcs;
    SameWalksSelf(g, A);
    if n.Flag(s) || |Ins(n.arcs, s)| != 1 {
      return false;
    }
    var a :| a in Ins(n.arcs, s);
    SingleElement(Ins(n.arcs, s), a);
    if a.ty != EMPTY {
      return false;
    }
    if s != a.from {
      n.MoveOuts(s, a.from);
      n.DropState(s);
      KindsMoved(A, n.arcs);
      FoldDropped(A, s, a);
      FoldSame(g, A, n.arcs, s, a);
    } else {
      n.DropState(s);
      KindsMoved(A, n.arcs);
      TrapSame(g, A, s);
    }
    dropped := true;
  }

  /** The two preliminary passes. */
  method DropAliases(n: Nfa, g: WordReading.Ends)
    requires Good(n, g)
    modifies n`arcs, n`states
    ensures Good(n, g) && SameWalks(g.pre, g.post, old(n.arcs), n.arcs) && Kinds(n.arcs) <= Kinds(old(n.arcs))
  {
    hide SameWalks, Parsed, Kinds;
    ghost var A := n.arcs;
    SameWalksSelf(g, A);
    var i := 0;
    while i < |n.states|
      invariant Good(n, g) && SameWalks(g.pre, g.post, A, n.arcs) && Kinds(n.arcs) <= Kinds(A)
      decreases |n.states| - i
    {
      ghost var B := n.arcs;
      var dropped := DropAlias(n, g, n.states[i]);
      SameWalksTrans(g.pre, g.post, A, B, n.arcs);
      if !dropped { i := i + 1; }
    }
    i := 0;
    while i < |n.states|
      invariant Good(n, g) && SameWalks(g.pre, g.post, A, n.arcs) && Kinds(n.arcs) <= Kinds(A)
      decreases |n.states| - i
    {
      ghost var B := n.arcs;
      var dropped := FoldIntoPredecessor(n, g, n.states[i]);
      SameWalksTrans(g.pre, g.post, A, B, n.arcs);
      if !dropped { i := i + 1; }
    }
  }

  // ---------------------------------------------------------------- which states lead to s by EMPTY arcs

  /** The states in found, from position k on, have all their EMPTY predecessors in found. */
  ghost predicate Explored(A: set<Arc>, found: seq<nat>, k: nat) {
    forall i, a :: k <= i < |found| && a in A && a.ty == EMPTY && a.to == found[i] ==> a.from in found
  }

  ghost predicate AllReach(A: set<Arc>, found: seq<nat>, k: nat, s: nat) {
    forall i :: k <= i < |found| ==> Empties(A, found[i], s)
  }

  lemma MoreExplored(A: set<Arc>, f0: seq<nat>, f1: seq<nat>, k: nat)
    requires f0 <= f1 && k <= |f0| && Explored(A, f0, k) && Explored(A, f1, |f0|)
    ensures Explored(A, f1, k)
  {
    forall i, a | k <= i < |f1| && a in A && a.ty == EMPTY && a.to == f1[i] ensures a.from in f1 {
      if i < |f0| {
        assert f0[i] == f1[i];
        var j :| 0 <= j < |f0| && f0[j] == a.from;
        assert f1[j] == a.from;
      }
    }
  }

  lemma ReachThrough(A: set<Arc>, found: seq<nat>, k: nat, a: Arc, s: nat)
    requires a in A && a.ty == EMPTY && AllReach(A, found, k, a.from) && Empties(A, a.to, s)
    ensures AllReach(A, found, k, s)
  {
    forall i | k <= i < |found| ensures Empties(A, found[i], s) {
      forall T: iset<nat> | BackClosed(A, T) && s in T ensures found[i] in T {
        assert a.to in T;
        assert a.from in T;
      }
    }
  }

  /** Finds all states from which EMPTY arcs lead to s, except through those found before. */
  method EmptyReachable(A: set<Arc>, s: nat, found0: seq<nat>, ghost S: set<nat>) returns (found: seq<nat>)
    requires s in S && s !in found0 && (forall x :: x in found0 ==> x in S) && forall a :: a in A ==> a.from in S
    ensures found0 + [s] <= found && (forall x :: x in found ==> x in S)
    ensures AllReach(A, found, |found0|, s) && Explored(A, found, |found0|)
    decreases S - (set x | x in found0)
  {
    found := found0 + [s];
    EmptiesSelf(A, s);
    var todo := set a | a in A && a.to == s && a.ty == EMPTY;
    ghost var done: set<Arc> := {};
    assert s in S - (set x | x in found0);
    while todo != {}
      invariant found0 + [s] <= found && (forall x :: x in found ==> x in S)
      invariant done + todo == set a | a in A && a.to == s && a.ty == EMPTY
      invariant forall a :: a in done ==> a.from in found
      invariant AllReach(A, found, |found0|, s) && Explored(A, found, |found0| + 1)
      decreases todo
    {
      var a :| a in todo;
      if a.from !in found {
        ghost var before := found;
        FewerLeft(S, found0, before, s);
        found := EmptyReachable(A, a.from, found, S);
        assert found[|before|] == a.from;
        ReachThrough(A, found, |before|, a, s);
        ReachBoth(A, before, found, |found0|, s);
        MoreExplored(A, before, found, |found0| + 1);
        StillFound(before, found, done);
      }
      todo, done := todo - {a}, done + {a};
    }
    forall i, a | |found0| <= i < |found| && a in A && a.ty == EMPTY && a.to == found[i] ensures a.from in found {
      if i == |found0| {
        assert found[i] == s && a in done;
      }
    }
  }

  lemma FewerLeft(S: set<nat>, found0: seq<nat>, found: seq<nat>, s: nat)
    requires s in S && s !in found0 && found0 + [s] <= found
    ensures S - (set x | x in found) < S - (set x | x in found0)
  {
    assert found[|found0|] == s;
    forall x | x in found0 ensures x in found {
      var i :| 0 <= i < |found0| && found0[i] == x;
      assert found[i] == x;
    }
    assert s in S - (set x | x in found0);
  }

  lemma ReachBoth(A: set<Arc>, f0: seq<nat>, f1: seq<nat>, k: nat, s: nat)
    requires f0 <= f1 && AllReach(A, f0, k, s) && AllReach(A, f1, |f0|, s)
    ensures AllReach(A, f1, k, s)
  {
    forall i | k <= i < |f1| ensures Empties(A, f1[i], s) {
      if i < |f0| { assert f1[i] == f0[i]; }
    }
  }

  lemma StillFound(f0: seq<nat>, f1: seq<nat>, done: set<Arc>)
    requires f0 <= f1 && forall a :: a in done ==> a.from in f0
    ensures forall a :: a in done ==> a.from in f1
  {
    forall a | a in done ensures a.from in f1 {
      var i :| 0 <= i < |f0| && f0[i] == a.from;
      assert f1[i] == a.from;
    }
  }

  /** Started from nothing, the search finds exactly the states from which EMPTY arcs lead to s. */
  lemma FoundExactly(A: set<Arc>, found: seq<nat>, s: nat, x: nat)
    requires [s] <= found && AllReach(A, found, 0, s) && Explored(A, found, 0)
    ensures x in found <==> Empties(A, x, s)
  {
    var T := iset y: nat | y in found;
    assert BackClosed(A, T);
    assert found[0] == s;
  }

  // ---------------------------------------------------------------- the main pass

  predicate HasNonEmptyOut(A: set<Arc>, s: nat) {
    exists a :: a in A && a.from == s && a.ty != EMPTY
  }

  /** The original arcs of A have been pushed forward to the states before number i. */
  ghost predicate PushedTo(g: WordReading.Ends, A: set<Arc>, B: set<Arc>, states: seq<nat>, i: nat)
    requires i <= |states|
  {
    && A <= B
    && (forall b :: b in B ==> b in A || IsPushed(g, A, b))
    && (forall b: Arc, k :: 0 <= k < i && b.to == states[k] && IsPushed(g, A, b) ==> b in B)
  }

  /** Pushes the original inarcs of the states that EMPTY arcs lead from forward to s. */
  method PushTo(n: Nfa, g: WordReading.Ends, orig: set<Arc>, s: nat)
    requires n.Valid() && n.pre == g.pre && n.post == g.post && s in n.states
    requires orig <= n.arcs && forall b :: b in n.arcs ==> b in orig || IsPushed(g, orig, b)
    modifies n`arcs
    ensures n.Valid() && old(n.arcs) <= n.arcs
    ensures forall b :: b in n.arcs ==> b in old(n.arcs) || IsPushed(g, orig, b)
    ensures forall b: Arc :: b.to == s && IsPushed(g, orig, b) ==> b in n.arcs
  {
    hide Empties, Explored, AllReach, First;
    SameTarget(g, orig, n.arcs, s);
    if !n.Flag(s) && !HasNonEmptyOut(n.arcs, s) {
      return;
    }
    var found := EmptyReachable(orig, s, [], set x | x in n.states);
    assert [] + [s] == [s];
    forall x ensures x in found <==> Empties(orig, x, s) {
      FoundExactly(orig, found, s, x);
    }
    var pushed := set a | a in orig && a.to in found && a.to != s && a.ty != EMPTY;
    var arcarray := ListArcs(pushed);
    FirstAll(arcarray[..], pushed);
    n.MergeIns(s, arcarray);
    forall b | b in Enter(pushed, s) ensures IsPushed(g, orig, b) {
      var a :| a in pushed && b == a.(to := s);
    }
    forall b: Arc | b.to == s && IsPushed(g, orig, b) ensures b in n.arcs {
      var a :| a in orig && a.ty != EMPTY && b == a.(to := b.to) && Empties(orig, a.to, b.to);
      if a.to == s {
        assert a == b;
      } else {
        assert a in pushed && b in Enter(pushed, s);
      }
    }
  }

  /** New arcs have the sources of original ones, so they give no state its first non-EMPTY outarc. */
  lemma SameTarget(g: WordReading.Ends, A: set<Arc>, B: set<Arc>, s: nat)
    requires A <= B && forall b :: b in B ==> b in A || IsPushed(g, A, b)
    ensures Target(g, A, s) <==> s == g.pre || s == g.post || HasNonEmptyOut(B, s)
  {
    hide Empties;
    if b :| b in B && b.from == s && b.ty != EMPTY {
      if b !in A {
        var a :| a in A && a.ty != EMPTY && b == a.(to := b.to) && Empties(A, a.to, b.to);
        assert a.from == s;
      }
    }
  }

  /** Deletes the EMPTY arcs. */
  method FreeEmpties(n: Nfa)
    requires n.Valid()
    modifies n`arcs
    ensures n.Valid() && n.arcs == set a | a in old(n.arcs) && a.ty != EMPTY
  {
    var todo := set a | a in n.arcs && a.ty == EMPTY;
    ghost var A := n.arcs;
    while todo != {}
      invariant n.Valid() && todo == set a | a in n.arcs && a.ty == EMPTY
      invariant n.arcs <= A && forall a :: a in A && a.ty != EMPTY ==> a in n.arcs
      decreases todo
    {
      var a :| a in todo;
      n.FreeArc(a);
      todo := todo - {a};
    }
    assert forall a :: a in n.arcs && a.ty == EMPTY ==> a in todo;
  }

  /** Makes arcs that do without the EMPTY arcs, and deletes those. */
  method ReplaceEmpties(n: Nfa, g: WordReading.Ends)
    requires Good(n, g)
    modifies n`arcs
    ensures Good(n, g) && Replaced(g, old(n.arcs), n.arcs) && n.states == old(n.states)
  {
    hide IsPushed;
    var orig := n.arcs;
    var i := 0;
    while i < |n.states|
      invariant n.Valid() && i <= |n.states| && PushedTo(g, orig, n.arcs, n.states, i)
    {
      PushTo(n, g, orig, n.states[i]);
      i := i + 1;
    }
    ghost var B := n.arcs;
    FreeEmpties(n);
    PushedAll(g, orig, B, n.arcs, n.states);
  }

  lemma PushedAll(g: WordReading.Ends, A: set<Arc>, B: set<Arc>, C: set<Arc>, states: seq<nat>)
    requires Parsed(g, A) && PushedTo(g, A, B, states, |states|) && C == (set a | a in B && a.ty != EMPTY)
    requires g.pre in states && g.post in states && forall a :: a in A ==> a.from in states && a.to in states
    ensures Replaced(g, A, C) && Parsed(g, C)
  {
    forall b | IsPushed(g, A, b) ensures b in C && b.ty != EMPTY {
      assert b.to in states by {
        if b.to != g.pre && b.to != g.post {
          var o :| o in A && o.from == b.to && o.ty != EMPTY;
        }
      }
      var k :| 0 <= k < |states| && states[k] == b.to;
    }
    forall b | b in C ensures b in A || exists a :: a in A && a.ty == b.ty && a.co == b.co && a.from == b.from && b.to != g.post && b.to != g.pre {
      if b !in A {
        var a :| a in A && a.ty != EMPTY && b == a.(to := b.to) && Empties(A, a.to, b.to);
        NotIntoPost(g, A, a, b.to);
        NotFromPre(g, A, a, b.to);
      }
    }
  }

  /** No chain of EMPTY arcs starts or ends in pre. */
  lemma NotFromPre(g: WordReading.Ends, A: set<Arc>, a: Arc, s: nat)
    requires Parsed(g, A) && a in A && Empties(A, a.to, s)
    ensures s != g.pre
  {
    assert BackClosed(A, iset{g.pre});
  }

  // ---------------------------------------------------------------- all together

  /** Removes all EMPTY arcs; the NFA is regular afterwards, and leads to post in the same ways. */
  method FixEmptyArcs(n: Nfa, g: WordReading.Ends)
    requires Good(n, g)
    modifies n`arcs, n`states
    ensures n.Valid() && SameWalks(g.pre, g.post, old(n.arcs), n.arcs)
    ensures Regular(g, n.arcs) && Kinds(n.arcs) <= Kinds(old(n.arcs))
  {
    hide SameWalks, Parsed, Replaced, Kinds;
    ghost var A := n.arcs;
    DropAliases(n, g);
    ghost var B := n.arcs;
    ReplaceEmpties(n, g);
    ghost var C := n.arcs;
    ReplacedSame(g, B, C);
    SameWalksTrans(g.pre, g.post, A, B, C);
    ReplacedRegular(g, B, C);
    DropUselessStates(n, g);
    KindsMore(n.arcs, C);
    SameWalksTrans(g.pre, g.post, A, C, n.arcs);
  }

  lemma ReplacedRegular(g: WordReading.Ends, A: set<Arc>, B: set<Arc>)
    requires Replaced(g, A, B) && Parsed(g, B)
    ensures Regular(g, B) && Kinds(B) <= Kinds(A)
  {
    KindsMoved(A, B);
  }

  /** Drops the states that have become useless. */
  method DropUselessStates(n: Nfa, g: WordReading.Ends)
    requires n.Valid() && n.pre == g.pre && n.post == g.post
    modifies n`arcs, n`states
    ensures n.Valid() && n.arcs <= old(n.arcs) && SameWalks(g.pre, g.post, old(n.arcs), n.arcs)
  {
    hide SameWalks;
    ghost var A := n.arcs;
    SameWalksSelf(g, A);
    var i := 0;
    while i < |n.states|
      invariant n.Valid() && n.arcs <= A && SameWalks(g.pre, g.post, A, n.arcs)
      decreases |n.states| - i
    {
      var s := n.states[i];
      if (Ins(n.arcs, s) == {} || Outs(n.arcs, s) == {}) && !n.Flag(s) {
        ghost var B := n.arcs;
        n.DropState(s);
        TrapSame(g, B, s);
        SameWalksTrans(g.pre, g.post, A, B, n.arcs);
      } else {
        i := i + 1;
      }
    }
  }
}
