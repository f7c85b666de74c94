/** The meaning of an NFA with constraint and EMPTY arcs: which padded colour
    words it reads.

    A word is the lookbehind colour, the colours of the text, and the lookahead
    colour. A constraint arc tests the neighbouring colour without consuming it,
    except that ^ out of pre and $ into post stand for the end markers themselves
    and consume them. */
module WordReading {
  import opened NfaGraph
  import opened ColorRuns
  import ArcWalks

  /** The first and last states and the colours of the end markers. */
  datatype Ends = Ends(pre: nat, post: nat, bos0: nat, bos1: nat, eos0: nat, eos1: nat)
  {
    function Bos(co: nat): nat { if co == 0 then bos0 else bos1 }

    function Eos(co: nat): nat { if co == 0 then eos0 else eos1 }
  }

  /** A word to be read, and what each lookahead constraint answers. */
  datatype Reading = Reading(g: Ends, w: seq<nat>, lacon: (nat, nat) -> bool)
  {
    /** The colour before (after) position i is co. */
    predicate Before(co: nat, i: nat) { 0 < i <= |w| && w[i - 1] == co }

    predicate After(co: nat, i: nat) { i < |w| && w[i] == co }

    /** Arc a leads from position i to position j. */
    predicate Takes(a: Arc, i: nat, j: nat) {
      match a.ty
      case PLAIN => j == i + 1 && After(a.co, i)
      case EMPTY => j == i
      case BOL => if a.from == g.pre then j == i + 1 && After(g.Bos(a.co), i) else j == i && Before(g.Bos(a.co), i)
      case EOL => if a.to == g.post then j == i + 1 && After(g.Eos(a.co), i) else j == i && After(g.Eos(a.co), i)
      case AHEAD => j == i && After(a.co, i)
      case BEHIND => j == i && Before(a.co, i)
      case LACON => j == i && lacon(a.co, i)
    }

    /** The walks that read the word. */
    ghost function Walks(): ArcWalks.Walker {
      ArcWalks.Walker(g.pre, 0, (a: Arc, i: nat, j: nat) => Takes(a, i, j))
    }

    ghost predicate Closed(A: set<Arc>, P: iset<(nat, nat)>) {
      Walks().Closed(A, P)
    }

    /** State s can be reached at position i. */
    ghost predicate Reached(A: set<Arc>, s: nat, i: nat) {
      Walks().Reached(A, s, i)
    }

    ghost predicate Accepts(A: set<Arc>) {
      Reached(A, g.post, |w|)
    }
  }

  /** A and B accept the same words. */
  ghost predicate SameLanguage(g: Ends, A: set<Arc>, B: set<Arc>) {
    forall r: Reading {:trigger r.Accepts(A)} {:trigger r.Accepts(B)} :: r.g == g ==> (r.Accepts(A) <==> r.Accepts(B))
  }

  lemma IsClosed(r: Reading, A: set<Arc>, P: iset<(nat, nat)>)
    requires (r.g.pre, 0) in P
    requires forall a, i: nat, j: nat :: a in A && (a.from, i) in P && r.Takes(a, i, j) ==> (a.to, j) in P
    ensures r.Closed(A, P)
  {
  }

  lemma ClosedTakes(r: Reading, A: set<Arc>, P: iset<(nat, nat)>, a: Arc, i: nat, j: nat)
    requires r.Closed(A, P) && a in A && (a.from, i) in P && r.Takes(a, i, j)
    ensures (a.to, j) in P
  {
    assert r.Walks().takes(a, i, j);
  }

  /** NFAs that are closed alike accept alike. */
  lemma ClosedAlike(r: Reading, A: set<Arc>, B: set<Arc>)
    requires forall P :: r.Closed(A, P) <==> r.Closed(B, P)
    ensures r.Accepts(A) <==> r.Accepts(B)
  {
    var w := r.Walks();
    assert forall P {:trigger w.Closed(A, P)} {:trigger w.Closed(B, P)} :: w.Closed(A, P) <==> r.Closed(A, P);
    forall P ensures w.Closed(A, P) <==> w.Closed(B, P) {
      assert r.Closed(A, P) <==> r.Closed(B, P);
    }
  }

  lemma Start(r: Reading, A: set<Arc>)
    ensures r.Reached(A, r.g.pre, 0)
  {
  }

  lemma Forward(r: Reading, A: set<Arc>, a: Arc, i: nat, j: nat)
    requires a in A && r.Reached(A, a.from, i) && r.Takes(a, i, j)
    ensures r.Reached(A, a.to, j)
  {
    ArcWalks.Forward(r.Walks(), A, a, i, j);
  }

  lemma Least(r: Reading, A: set<Arc>, P: iset<(nat, nat)>, s: nat, i: nat)
    requires r.Closed(A, P) && r.Reached(A, s, i)
    ensures (s, i) in P
  {
  }

  lemma SameTrans(g: Ends, A: set<Arc>, B: set<Arc>, C: set<Arc>)
    requires SameLanguage(g, A, B) && SameLanguage(g, B, C)
    ensures SameLanguage(g, A, C)
  {
    forall r: Reading | r.g == g ensures r.Accepts(A) <==> r.Accepts(C) {
      assert r.Accepts(A) <==> r.Accepts(B);
    }
  }

  lemma DropUseless(g: Ends, A: set<Arc>, B: set<Arc>)
    requires B <= A && forall a :: a in A - B ==> ArcWalks.Useless(g.pre, g.post, A, a)
    ensures SameLanguage(g, A, B)
  {
    forall r: Reading | r.g == g ensures r.Accepts(A) <==> r.Accepts(B) {
      ArcWalks.DropUseless(r.Walks(), g.post, A, B, |r.w|);
    }
  }

  /** When only plain arcs are left, this is the meaning that the executor's simulation has. */
  lemma PlainAccepts(r: Reading, A: set<Arc>)
    requires forall a :: a in A ==> a.ty == PLAIN
    ensures r.Accepts(A) <==> Accepted(A, r.g.pre, r.g.post, r.w)
  {
    var P := iset p: (nat, nat) | p.1 <= |r.w| && p.0 in Run(A, {r.g.pre}, r.w[..p.1]);
    if r.Accepts(A) {
      assert r.Closed(A, P) by {
        assert r.w[..0] == [];
        forall a, i: nat, j: nat | a in A && (a.from, i) in P && r.Takes(a, i, j) ensures (a.to, j) in P {
          assert r.w[..j][..i] == r.w[..i] && r.w[..j][i] == a.co;
        }
      }
      Least(r, A, P, r.g.post, |r.w|);
      assert r.w[..|r.w|] == r.w;
      RunIsWalks(A, r.g.pre, r.w, r.g.post);
    }
    if Accepted(A, r.g.pre, r.g.post, r.w) {
      var p :| Walk(A, r.w, p) && p[0] == r.g.pre && p[|r.w|] == r.g.post;
      WalkReaches(r, A, p, |r.w|);
    }
  }

  lemma {:induction false} WalkReaches(r: Reading, A: set<Arc>, p: seq<nat>, k: nat)
    requires Walk(A, r.w, p) && p[0] == r.g.pre && k <= |r.w|
    ensures r.Reached(A, p[k], k)
  {
    if k > 0 {
      WalkReaches(r, A, p, k - 1);
      var a := Arc(PLAIN, r.w[k - 1], p[k - 1], p[k - 1 + 1]);
      assert a in A && r.Takes(a, k - 1, k);
      Forward(r, A, a, k - 1, k);
    }
  }
}
