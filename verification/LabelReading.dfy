/** Reading a word by way of label sequences: which stretches of the padded text a sub-NFA leads through. */
module LabelReading {
  import opened NfaGraph
  import opened SubNfas
  import opened WordReading
  import ArcWalks

  // ---------------------------------------------------------------- label sequences in parts

  lemma LeadsMoves(A: set<Arc>, u: seq<Label>, x: nat, i: nat, y: nat, j: nat)
    requires Leads(A, u, x, i, y, j)
    ensures i <= j && (i <= |u| ==> j <= |u|)
  {
    var P := iset p: (nat, nat) | i <= p.1 && (i <= |u| ==> p.1 <= |u|);
    LeadsLeast(A, u, P, x, i, y, j);
  }

  /** What comes after position k does not matter up to there. */
  lemma LeadsPrefix(A: set<Arc>, u: seq<Label>, x: nat, i: nat, y: nat, k: nat)
    requires k <= |u| && Leads(A, u, x, i, y, k)
    ensures Leads(A, u[..k], x, i, y, k)
  {
    hide Leads;
    var P := iset p: (nat, nat) | p.1 <= k ==> Leads(A, u[..k], x, i, p.0, p.1);
    forall a, m: nat, n: nat | a in A && (a.from, m) in P && ArcWalks.Spells(u, a, m, n) ensures (a.to, n) in P {
      if n <= k {
        assert ArcWalks.Spells(u[..k], a, m, n);
        LeadsOn(A, u[..k], x, i, a, m, n);
      }
    }
    LeadsSelf(A, u[..k], x, i);
    LeadsLeast(A, u, P, x, i, y, k);
  }

  /** Nor what comes before position k from there on. */
  lemma LeadsSuffix(A: set<Arc>, u: seq<Label>, x: nat, k: nat, y: nat, j: nat)
    requires k <= |u| && Leads(A, u, x, k, y, j)
    ensures k <= j && Leads(A, u[k..], x, 0, y, j - k)
  {
    hide Leads;
    var P := iset p: (nat, nat) | k <= p.1 && Leads(A, u[k..], x, 0, p.0, p.1 - k);
    forall a, m: nat, n: nat | a in A && (a.from, m) in P && ArcWalks.Spells(u, a, m, n) ensures (a.to, n) in P {
      assert ArcWalks.Spells(u[k..], a, m - k, n - k);
      LeadsOn(A, u[k..], x, 0, a, m - k, n - k);
    }
    LeadsSelf(A, u[k..], x, 0);
    LeadsLeast(A, u, P, x, k, y, j);
  }

  lemma LeadsExtended(A: set<Arc>, u: seq<Label>, v: seq<Label>, x: nat, i: nat, y: nat, k: nat)
    requires Leads(A, u, x, i, y, k)
    ensures Leads(A, u + v, x, i, y, k)
  {
    hide Leads;
    var P := iset p: (nat, nat) | Leads(A, u + v, x, i, p.0, p.1);
    forall a, m: nat, n: nat | a in A && (a.from, m) in P && ArcWalks.Spells(u, a, m, n) ensures (a.to, n) in P {
      assert ArcWalks.Spells(u + v, a, m, n);
      LeadsOn(A, u + v, x, i, a, m, n);
    }
    LeadsSelf(A, u + v, x, i);
    LeadsLeast(A, u, P, x, i, y, k);
  }

  // ---------------------------------------------------------------- labels and words

  /** At position i of the word a label fits: its colour is there, or its constraint holds. */
  ghost predicate Fits(g: Ends, w: seq<nat>, l: Label, i: nat) {
    match l.0
    case PLAIN => i < |w| && w[i] == l.1
    case EMPTY => false
    case BOL => 0 < i <= |w| && w[i - 1] == g.Bos(l.1)
    case EOL => i < |w| && w[i] == g.Eos(l.1)
    case AHEAD => i < |w| && w[i] == l.1
    case BEHIND => 0 < i <= |w| && w[i - 1] == l.1
    case LACON => false
  }

  /** Where the position is after a label. */
  ghost function Past(l: Label, i: nat): nat {
    if l.0 == PLAIN then i + 1 else i
  }

  /** The labels take the word from position i to position j. */
  ghost predicate Spelled(g: Ends, w: seq<nat>, u: seq<Label>, i: nat, j: nat) {
    if u == [] then i == j else Fits(g, w, u[0], i) && Spelled(g, w, u[1..], Past(u[0], i), j)
  }

  lemma {:induction false} SpelledJoin(g: Ends, w: seq<nat>, u: seq<Label>, v: seq<Label>, i: nat, j: nat)
    ensures Spelled(g, w, u + v, i, j) <==> exists k :: Spelled(g, w, u, i, k) && Spelled(g, w, v, k, j)
    decreases |u|
  {
    hide Fits, Past;
    if u == [] {
      assert u + v == v;
      assert Spelled(g, w, u, i, i);
    } else {
      assert (u + v)[1..] == u[1..] + v;
      SpelledJoin(g, w, u[1..], v, Past(u[0], i), j);
    }
  }

  lemma {:induction false} SpelledMoves(g: Ends, w: seq<nat>, u: seq<Label>, i: nat, j: nat)
    requires Spelled(g, w, u, i, j)
    ensures i <= j
    decreases |u|
  {
    if u != [] {
      SpelledMoves(g, w, u[1..], Past(u[0], i), j);
    }
  }

  lemma SpelledOne(g: Ends, w: seq<nat>, l: Label, i: nat, j: nat)
    ensures Spelled(g, w, [l], i, j) <==> Fits(g, w, l, i) && j == Past(l, i)
  {
    assert [l][1..] == [];
  }

  /** The sub-NFA leads from position i of the word to position j. */
  ghost predicate Through(g: Ends, w: seq<nat>, sub: set<Arc>, lp: nat, rp: nat, i: nat, j: nat) {
    exists u :: Leads(sub, u, lp, 0, rp, |u|) && Spelled(g, w, u, i, j)
  }

  lemma ThroughBy(g: Ends, w: seq<nat>, sub: set<Arc>, lp: nat, rp: nat, i: nat, j: nat, u: seq<Label>)
    requires Leads(sub, u, lp, 0, rp, |u|) && Spelled(g, w, u, i, j)
    ensures Through(g, w, sub, lp, rp, i, j)
  {
  }
}
