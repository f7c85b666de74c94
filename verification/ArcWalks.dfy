/** Moving through an NFA along its arcs while a position advances. What an arc
    does to the position is left open, so that the same facts serve words of
    colours and sequences of labels. */
module ArcWalks {
  import opened NfaGraph

  /** Where and at which position walks start, and from which position to which each arc leads. */
  datatype Walker = Walker(start: nat, at: nat, takes: (Arc, nat, nat) -> bool)
  {
    /** Being in state p.0 at position p.1 is preserved by every arc. */
    ghost predicate Closed(A: set<Arc>, P: iset<(nat, nat)>) {
      && (start, at) in P
      && forall a, i: nat, j: nat :: a in A && (a.from, i) in P && takes(a, i, j) ==> (a.to, j) in P
    }

    /** State s can be reached at position i. */
    ghost predicate Reached(A: set<Arc>, s: nat, i: nat) {
      forall P {:trigger Closed(A, P)} :: Closed(A, P) ==> (s, i) in P
    }
  }

  /** Spelling a sequence of labels: every arc but an EMPTY one contributes its type and colour. */
  ghost predicate Spells(u: seq<(ArcType, nat)>, a: Arc, i: nat, j: nat) {
    if a.ty == EMPTY then i == j else i < |u| && j == i + 1 && u[i] == (a.ty, a.co)
  }

  ghost function Speller(start: nat, at: nat, u: seq<(ArcType, nat)>): Walker {
    Walker(start, at, (a: Arc, i: nat, j: nat) => Spells(u, a, i, j))
  }

  lemma Start(w: Walker, A: set<Arc>)
    ensures w.Reached(A, w.start, w.at)
  {
  }

  lemma Forward(w: Walker, A: set<Arc>, a: Arc, i: nat, j: nat)
    requires a in A && w.Reached(A, a.from, i) && w.takes(a, i, j)
    ensures w.Reached(A, a.to, j)
  {
  }

  lemma Least(w: Walker, A: set<Arc>, P: iset<(nat, nat)>, s: nat, i: nat)
    requires w.Closed(A, P) && w.Reached(A, s, i)
    ensures (s, i) in P
  {
  }

  lemma IsClosed(w: Walker, A: set<Arc>, P: iset<(nat, nat)>)
    requires (w.start, w.at) in P
    requires forall a, i: nat, j: nat :: a in A && (a.from, i) in P && w.takes(a, i, j) ==> (a.to, j) in P
    ensures w.Closed(A, P)
  {
  }

  /** More arcs reach more. */
  lemma ReachedMore(w: Walker, A: set<Arc>, B: set<Arc>, s: nat, i: nat)
    requires A <= B && w.Reached(A, s, i)
    ensures w.Reached(B, s, i)
  {
    forall P | w.Closed(B, P) ensures (s, i) in P {
      assert w.Closed(A, P);
    }
  }

  lemma Unreachable(w: Walker, A: set<Arc>, s: nat, i: nat)
    requires Ins(A, s) == {} && s != w.start
    ensures !w.Reached(A, s, i)
  {
    var P := iset p: (nat, nat) | p.0 != s;
    forall a, k: nat, j: nat | a in A && (a.from, k) in P && w.takes(a, k, j) ensures (a.to, j) in P {
      assert a in Ins(A, a.to);
    }
    assert w.Closed(A, P);
  }

  /** An arc that leaves a state nothing enters, or enters a state nothing leaves. */
  ghost predicate Useless(pre: nat, post: nat, A: set<Arc>, a: Arc) {
    (Ins(A, a.from) == {} && a.from != pre) || (Outs(A, a.to) == {} && a.to != post)
  }

  lemma DropUseless(w: Walker, post: nat, A: set<Arc>, B: set<Arc>, i: nat)
    requires B <= A && forall a :: a in A - B ==> Useless(w.start, post, A, a)
    ensures w.Reached(A, post, i) <==> w.Reached(B, post, i)
  {
    if w.Reached(B, post, i) { ReachedMore(w, B, A, post, i); }
    if w.Reached(A, post, i) {
      var P := iset p: (nat, nat) | w.Reached(B, p.0, p.1) || (Outs(A, p.0) == {} && p.0 != post);
      forall a, k: nat, j: nat | a in A && (a.from, k) in P && w.takes(a, k, j) ensures (a.to, j) in P {
        assert a in Outs(A, a.from);
        assert a in B || a in A - B;
        if a in B {
          Forward(w, B, a, k, j);
        } else if Ins(A, a.from) == {} && a.from != w.start {
          assert Ins(B, a.from) == {};
          Unreachable(w, B, a.from, k);
        }
      }
      Start(w, B);
      assert w.Closed(A, P);
      Least(w, A, P, post, i);
    }
  }
}
