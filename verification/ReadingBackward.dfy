/** Reading a word from its end: an NFA with all arcs turned around accepts the
    word turned around. */
module ReadingBackward {
  import opened NfaGraph
  import opened WordReading

  function FlipEnds(g: Ends): (f: Ends)
    ensures f.pre == g.post && f.post == g.pre
  {
    Ends(g.post, g.pre, g.eos0, g.eos1, g.bos0, g.bos1)
  }

  ghost function Reversed(w: seq<nat>): (r: seq<nat>)
    ensures |r| == |w| && forall i :: 0 <= i < |w| ==> r[i] == w[|w| - 1 - i]
  {
    seq(|w|, i requires 0 <= i < |w| => w[|w| - 1 - i])
  }

  ghost function Flip(r: Reading): (f: Reading)
    ensures f.g == FlipEnds(r.g) && f.w == Reversed(r.w)
  {
    Reading(FlipEnds(r.g), Reversed(r.w), (c: nat, i: nat) => if i <= |r.w| then r.lacon(c, |r.w| - i) else r.lacon(c, i))
  }

  /** An arc from one position to another, seen from the other side. */
  lemma TakesMirrored(r: Reading, a: Arc, i: nat, j: nat)
    requires i <= |r.w| && j <= |r.w|
    ensures r.Takes(a, i, j) <==> Flip(r).Takes(Mirror(a), |r.w| - j, |r.w| - i)
  {
  }

  lemma StepBack(r: Reading, A: set<Arc>, a: Arc, i: nat, j: nat)
    requires a in A && r.Takes(a, i, j) && j <= |r.w| && Flip(r).Reached(Mirrored(A), a.to, |r.w| - j)
    ensures i <= |r.w| && Flip(r).Reached(Mirrored(A), a.from, |r.w| - i)
  {
    TakesMirrored(r, a, i, j);
    assert Mirror(Mirror(a)) == a;
    assert Mirror(a) in Mirrored(A);
    Forward(Flip(r), Mirrored(A), Mirror(a), |r.w| - j, |r.w| - i);
  }

  /** State s at position i does not lie on a path that the mirrored NFA takes from its beginning,
      or the mirrored NFA accepts. */
  ghost predicate NotBack(f: Reading, M: set<Arc>, n: nat, s: nat, i: nat) {
    i > n || !f.Reached(M, s, n - i) || f.Accepts(M)
  }

  /** What the NFA accepts, the mirrored NFA accepts backward. */
  lemma AcceptsMirrored(r: Reading, A: set<Arc>)
    requires r.Accepts(A)
    ensures Flip(r).Accepts(Mirrored(A))
  {
    hide Reading.Reached, Flip, Mirrored;
    var f, M, n := Flip(r), Mirrored(A), |r.w|;
    var P := iset p: (nat, nat) | NotBack(f, M, n, p.0, p.1);
    forall a, i: nat, j: nat | a in A && (a.from, i) in P && r.Takes(a, i, j) ensures (a.to, j) in P {
      if j <= n && f.Reached(M, a.to, n - j) {
        StepBack(r, A, a, i, j);
      }
    }
    IsClosed(r, A, P);
    Least(r, A, P, r.g.post, n);
    Start(f, M);
  }

  lemma SameAccepts(r: Reading, f: Reading, A: set<Arc>)
    requires r.g == f.g && r.w == f.w && (forall c: nat, i: nat :: r.lacon(c, i) == f.lacon(c, i))
    requires r.Accepts(A)
    ensures f.Accepts(A)
  {
    forall P | f.Closed(A, P) ensures (f.g.post, |f.w|) in P {
      forall a, i: nat, j: nat | a in A && (a.from, i) in P && r.Takes(a, i, j) ensures (a.to, j) in P {
        ClosedTakes(f, A, P, a, i, j);
      }
      IsClosed(r, A, P);
    }
  }

  lemma FlipTwice(r: Reading)
    ensures var f := Flip(Flip(r)); f.g == r.g && f.w == r.w && forall c: nat, i: nat :: f.lacon(c, i) == r.lacon(c, i)
  {
    assert Flip(Flip(r)).w == r.w;
  }

  /** A word is accepted exactly if the mirrored NFA accepts it backward. */
  lemma BothWays(r: Reading, A: set<Arc>)
    ensures r.Accepts(A) <==> Flip(r).Accepts(Mirrored(A))
  {
    hide Reading.Accepts, Mirrored, Flip;
    MirroredTwice(A);
    FlipTwice(r);
    if r.Accepts(A) {
      AcceptsMirrored(r, A);
    }
    if Flip(r).Accepts(Mirrored(A)) {
      AcceptsMirrored(Flip(r), Mirrored(A));
      SameAccepts(Flip(Flip(r)), r, A);
    }
  }

  /** Two NFAs that accept the same words backward accept the same words. */
  lemma SameBackward(g: Ends, A: set<Arc>, B: set<Arc>)
    requires SameLanguage(FlipEnds(g), Mirrored(A), Mirrored(B))
    ensures SameLanguage(g, A, B)
  {
    hide Reading.Accepts, Mirrored, Flip;
    forall r: Reading | r.g == g ensures r.Accepts(A) <==> r.Accepts(B) {
      BothWays(r, A);
      BothWays(r, B);
      assert Flip(r).Accepts(Mirrored(A)) <==> Flip(r).Accepts(Mirrored(B));
    }
  }
}
