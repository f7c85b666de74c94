/** The NFAs of the nodes of a tree agree, because each is made from the node's part of the parsed NFA. */
module Trees {
  import opened NfaGraph
  import opened CompactNfa
  import opened Divisions
  import opened SubNfas
  import opened Repetition
  import opened WordReading
  import opened LabelReading
  import opened NodeNfas
  import opened Subexpr
  import opened SmallNfas
  import Dissect
  import Execution
  import Groups
  import Preference
  import Search
  import SearchNfa

  /** A part of the parsed NFA, strung between two states. */
  datatype Place = Place(arcs: set<Arc>, lp: nat, rp: nat)

  /** Where the nodes of a tree are. */
  datatype Layout =
    | Leaf(at: Place)
    | One(at: Place, left: Layout)
    | Two(at: Place, left: Layout, right: Layout)
    | Many(at: Place, alts: Layouts)

  datatype Layouts = NoLayouts | MoreLayouts(left: Layout, rest: Layouts)

  ghost predicate Passes(p: Place, u: seq<Label>, i: nat, j: nat) {
    Leads(p.arcs, u, p.lp, i, p.rp, j)
  }

  /** p leads through what q and then r lead through. */
  ghost predicate InTurn(p: Place, q: Place, r: Place) {
    forall u: seq<Label>, i: nat, j: nat {:trigger Passes(p, u, i, j)} ::
      Passes(p, u, i, j) <==> exists k: nat :: Passes(q, u, i, k) && Passes(r, u, k, j)
  }

  ghost predicate SomePasses(alts: Layouts, u: seq<Label>, i: nat, j: nat) {
    alts.MoreLayouts? && (Passes(alts.left.at, u, i, j) || SomePasses(alts.rest, u, i, j))
  }

  /** p leads through what one of the alternatives leads through. */
  ghost predicate Either(p: Place, alts: Layouts) {
    forall u: seq<Label>, i: nat, j: nat {:trigger Passes(p, u, i, j)} :: Passes(p, u, i, j) <==> SomePasses(alts, u, i, j)
  }

  /** The parser's way to put the parts of a tree together: a group is its contents, a concatenation one part after
      the other, an alternation its branches side by side, an iteration the repetitions of its atom. */
  ghost predicate LaidOut(t: Subre, l: Layout) {
    match t
    case Plain(_, _) => l.Leaf?
    case Backref(_, _, _, _, _) => l.Leaf?
    case Capture(_, _, _, s) =>
      l.One? && LaidOut(s, l.left) && SameThrough(l.at.arcs, l.at.lp, l.at.rp, l.left.at.arcs, l.left.at.lp, l.left.at.rp)
    case Concat(_, _, s, r) => l.Two? && LaidOut(s, l.left) && LaidOut(r, l.right) && InTurn(l.at, l.left.at, l.right.at)
    case Alt(_, _, alts) => l.Many? && AllLaidOut(alts, l.alts) && Either(l.at, l.alts)
    case Iter(_, _, s, min, max) =>
      l.One? && LaidOut(s, l.left)
      && Repetition.StandsFor(l.at.arcs, l.at.lp, l.at.rp, l.left.at.arcs, l.left.at.lp, l.left.at.rp, min, max)
  }

  ghost predicate AllLaidOut(alts: Alternatives, ls: Layouts) {
    match alts
    case NoMore => ls.NoLayouts?
    case More(s, rest) => ls.MoreLayouts? && LaidOut(s, ls.left) && AllLaidOut(rest, ls.rest)
  }

  /** Every node has the compact NFA of its part. */
  ghost predicate NodesCompiled(g: Ends, rainbow: set<nat>, t: Subre, l: Layout)
    requires LaidOut(t, l)
  {
    && Compiled(t.cnfa, g, rainbow, l.at.arcs, l.at.lp, l.at.rp)
    && match t
       case Plain(_, _) => true
       case Backref(_, _, _, _, _) => true
       case Capture(_, _, _, s) => NodesCompiled(g, rainbow, s, l.left)
       case Concat(_, _, s, r) => NodesCompiled(g, rainbow, s, l.left) && NodesCompiled(g, rainbow, r, l.right)
       case Alt(_, _, alts) => AllCompiled(g, rainbow, alts, l.alts)
       case Iter(_, _, s, _, _) => NodesCompiled(g, rainbow, s, l.left)
  }

  ghost predicate AllCompiled(g: Ends, rainbow: set<nat>, alts: Alternatives, ls: Layouts)
    requires AllLaidOut(alts, ls)
  {
    alts.More? ==> NodesCompiled(g, rainbow, alts.left, ls.left) && AllCompiled(g, rainbow, alts.rest, ls.rest)
  }

  /** A copy that leads through the same may stand in for the part it was made from. */
  lemma CopyCompiled(c: Cnfa, g: Ends, rainbow: set<nat>, D: set<Arc>, init: nat, final: nat, p: Place)
    requires Compiled(c, g, rainbow, D, init, final) && SameThrough(D, init, final, p.arcs, p.lp, p.rp)
    ensures Compiled(c, g, rainbow, p.arcs, p.lp, p.rp)
  {
    hide Leads, PaddedText, Target.Accepts, Spelled;
    forall w: seq<nat>, i: nat, j: nat ensures Through(g, w, D, init, final, i, j) <==> Through(g, w, p.arcs, p.lp, p.rp, i, j) {
      SameReads(g, w, D, init, final, p, i, j);
    }
  }

  lemma SameReads(g: Ends, w: seq<nat>, D: set<Arc>, init: nat, final: nat, p: Place, i: nat, j: nat)
    requires SameThrough(D, init, final, p.arcs, p.lp, p.rp)
    ensures Through(g, w, D, init, final, i, j) <==> Through(g, w, p.arcs, p.lp, p.rp, i, j)
  {
    hide Leads, Spelled;
    if u :| Leads(D, u, init, 0, final, |u|) && Spelled(g, w, u, i, j) {
      assert Leads(p.arcs, u, p.lp, 0, p.rp, |u|);
    }
    if u :| Leads(p.arcs, u, p.lp, 0, p.rp, |u|) && Spelled(g, w, u, i, j) {
      assert Leads(D, u, init, 0, final, |u|);
    }
  }

  // ---------------------------------------------------------------- words through the parts

  /** The part leads from position b of the text to position e. */
  ghost predicate Goes(g: Ends, v: Subject, p: Place, b: nat, e: nat) {
    Through(g, [v.bos] + v.text + [v.eos], p.arcs, p.lp, p.rp, b + 1, e + 1)
  }

  lemma AccIsGoes(g: Ends, rainbow: set<nat>, v: Subject, t: Subre, l: Layout, b: nat, e: nat)
    requires LaidOut(t, l) && NodesCompiled(g, rainbow, t, l) && PaddedText(g, rainbow, [v.bos] + v.text + [v.eos])
    ensures b <= e <= |v.text| ==> (Acc(v, t, b, e) <==> Goes(g, v, l.at, b, e))
    ensures v.For(t.cnfa).Valid() && t.cnfa.NoShortcut() && NoReturn(t.cnfa)
  {
    hide PaddedText, Through, Target.Accepts, LaidOut;
    assert v.For(t.cnfa) == Target(t.cnfa, v.text, v.bos, v.eos, v.lacon);
  }

  /** Two parts in turn meet somewhere in between. */
  lemma GoesInTurn(g: Ends, v: Subject, p: Place, q: Place, r: Place, b: nat, e: nat) returns (m: nat)
    requires InTurn(p, q, r) && Goes(g, v, p, b, e)
    ensures b <= m <= e && Goes(g, v, q, b, m) && Goes(g, v, r, m, e)
  {
    hide Leads, Spelled;
    var w := [v.bos] + v.text + [v.eos];
    var u :| Leads(p.arcs, u, p.lp, 0, p.rp, |u|) && Spelled(g, w, u, b + 1, e + 1);
    assert Passes(p, u, 0, |u|);
    var k: nat :| Passes(q, u, 0, k) && Passes(r, u, k, |u|);
    assert u[..|u|] == u;
    var x := CutAt(g, w, u, q, r, 0, k, |u|, b + 1, e + 1);
    m := x - 1;
  }

  /** Labels that lead through q up to position k and through r from there to position j. */
  lemma CutAt(g: Ends, w: seq<nat>, u: seq<Label>, q: Place, r: Place, i: nat, k: nat, j: nat, b: nat, e: nat) returns (m: nat)
    requires i == 0 && j <= |u| && Passes(q, u, i, k) && Passes(r, u, k, j) && Spelled(g, w, u[..j], b, e)
    ensures k <= j && b <= m <= e && Spelled(g, w, u[..k], b, m)
    ensures Through(g, w, q.arcs, q.lp, q.rp, b, m) && Through(g, w, r.arcs, r.lp, r.rp, m, e)
  {
    hide Leads, Spelled;
    m := CutLater(g, w, u, r, k, j, b, e);
    LeadsPrefix(q.arcs, u, q.lp, 0, q.rp, k);
    ThroughBy(g, w, q.arcs, q.lp, q.rp, b, m, u[..k]);
  }

  /** The last part of the labels takes the last part of the word. */
  lemma CutLater(g: Ends, w: seq<nat>, u: seq<Label>, r: Place, k: nat, j: nat, b: nat, e: nat) returns (m: nat)
    requires j <= |u| && Passes(r, u, k, j) && Spelled(g, w, u[..j], b, e)
    ensures k <= j && b <= m <= e && Spelled(g, w, u[..k], b, m) && Through(g, w, r.arcs, r.lp, r.rp, m, e)
  {
    hide Leads, Spelled;
    LeadsMoves(r.arcs, u, r.lp, k, r.rp, j);
    assert u[..j] == u[..k] + u[k..j];
    SpelledJoin(g, w, u[..k], u[k..j], b, e);
    m :| Spelled(g, w, u[..k], b, m) && Spelled(g, w, u[k..j], m, e);
    SpelledMoves(g, w, u[..k], b, m);
    SpelledMoves(g, w, u[k..j], m, e);
    LeadsPrefix(r.arcs, u, r.lp, k, r.rp, j);
    LeadsSuffix(r.arcs, u[..j], r.lp, k, r.rp, j);
    assert u[..j][k..] == u[k..j];
    ThroughBy(g, w, r.arcs, r.lp, r.rp, m, e, u[k..j]);
  }

  /** Passes one after the other divide the stretch. */
  lemma {:induction false} GoesTimes(g: Ends, v: Subject, p: Place, u: seq<Label>, c: nat, j: nat, b: nat, e: nat) returns (d: seq<nat>)
    requires j <= |u| && Times(p.arcs, u, p.lp, p.rp, c, 0, j) && Spelled(g, [v.bos] + v.text + [v.eos], u[..j], b + 1, e + 1)
    ensures |d| == c + 1 && d[0] == b && d[c] == e
    ensures forall i :: 0 <= i < c ==> d[i] <= d[i + 1] && Goes(g, v, p, d[i], d[i + 1])
    decreases c
  {
    hide Leads, Through;
    var w := [v.bos] + v.text + [v.eos];
    if c == 0 {
      assert u[..j] == [];
      return [b];
    }
    var k: nat :| Times(p.arcs, u, p.lp, p.rp, c - 1, 0, k) && Leads(p.arcs, u, p.lp, k, p.rp, j);
    var x := CutLater(g, w, u, p, k, j, b + 1, e + 1);
    d := GoesTimes(g, v, p, u, c - 1, k, b, x - 1);
    d := d + [e];
  }

  lemma {:induction false} Rising(d: seq<nat>, i: nat, j: nat)
    requires i <= j < |d| && forall i :: 0 <= i < |d| - 1 ==> d[i] <= d[i + 1]
    ensures d[i] <= d[j]
    decreases j
  {
    if i < j {
      Rising(d, i, j - 1);
    }
  }

  /** What stands for repetitions divides into a number of pieces that is allowed. */
  lemma GoesRepeated(g: Ends, v: Subject, p: Place, q: Place, min: nat, max: Max, b: nat, e: nat) returns (d: seq<nat>)
    requires Repetition.StandsFor(p.arcs, p.lp, p.rp, q.arcs, q.lp, q.rp, min, max) && Goes(g, v, p, b, e)
    requires !(b == e && min == 0)
    ensures Division(d, b, e) && Within(|d| - 1, min, max) && forall i :: 1 <= i < |d| ==> Goes(g, v, q, d[i - 1], d[i])
  {
    hide Leads, Spelled, Goes, Times, Within;
    var w := [v.bos] + v.text + [v.eos];
    var u := GoesBy(g, v, p, b, e);
    assert Repeated(q.arcs, u, q.lp, q.rp, min, max, 0, |u|);
    var c: nat :| Within(c, min, max) && Times(q.arcs, u, q.lp, q.rp, c, 0, |u|);
    assert u[..|u|] == u;
    d := GoesTimes(g, v, q, u, c, |u|, b, e);
    if c == 0 {
      NoneWithin(min, max);
    }
    forall i | 0 <= i < |d| ensures b <= d[i] <= e {
      Rising(d, 0, i);
      Rising(d, i, c);
    }
  }

  lemma NoneWithin(min: nat, max: Max)
    requires Within(0, min, max)
    ensures min == 0
  {
  }

  lemma GoesBy(g: Ends, v: Subject, p: Place, b: nat, e: nat) returns (u: seq<Label>)
    requires Goes(g, v, p, b, e)
    ensures Leads(p.arcs, u, p.lp, 0, p.rp, |u|) && Spelled(g, [v.bos] + v.text + [v.eos], u, b + 1, e + 1)
  {
    hide Leads, Spelled;
    u :| Leads(p.arcs, u, p.lp, 0, p.rp, |u|) && Spelled(g, [v.bos] + v.text + [v.eos], u, b + 1, e + 1);
  }

  // ---------------------------------------------------------------- the tree

  /** The NFA of every node accepts no more than its children make up, and the executor can run it. */
  lemma {:induction false} TreeConsistent(g: Ends, rainbow: set<nat>, v: Subject, t: Subre, l: Layout)
    requires LaidOut(t, l) && NodesCompiled(g, rainbow, t, l) && PaddedText(g, rainbow, [v.bos] + v.text + [v.eos])
    ensures Consistent(v, t) && Dissect.Runnable(v, t)
    decreases t
  {
    hide PaddedText, Acc, Goes, Target.Accepts, Compiled;
    AccIsGoes(g, rainbow, v, t, l, 0, 0);
    match t
    case Plain(_, _) =>
    case Backref(_, _, _, _, _) =>
    case Capture(_, _, _, s) =>
      TreeConsistent(g, rainbow, v, s, l.left);
      forall b, e | Acc(v, t, b, e) ensures Acc(v, s, b, e) {
        AccWithin(v, t, b, e);
        AccIsGoes(g, rainbow, v, t, l, b, e);
        AccIsGoes(g, rainbow, v, s, l.left, b, e);
        GoesSame(g, v, l.at, l.left.at, b, e);
      }
    case Concat(_, _, s, r) =>
      TreeConsistent(g, rainbow, v, s, l.left);
      TreeConsistent(g, rainbow, v, r, l.right);
      forall b, e | Acc(v, t, b, e) ensures exists m :: SplitAt(v, t, b, m, e) {
        AccWithin(v, t, b, e);
        AccIsGoes(g, rainbow, v, t, l, b, e);
        var m := GoesInTurn(g, v, l.at, l.left.at, l.right.at, b, e);
        AccIsGoes(g, rainbow, v, s, l.left, b, m);
        AccIsGoes(g, rainbow, v, r, l.right, m, e);
        assert SplitAt(v, t, b, m, e);
      }
    case Alt(_, _, alts) =>
      BranchesConsistent(g, rainbow, v, alts, l.alts);
      forall b, e | Acc(v, t, b, e) ensures AccAny(v, alts, b, e) {
        AccWithin(v, t, b, e);
        AccIsGoes(g, rainbow, v, t, l, b, e);
        GoesEither(g, rainbow, v, l.at, alts, l.alts, b, e);
      }
    case Iter(_, _, s, min, max) =>
      TreeConsistent(g, rainbow, v, s, l.left);
      forall b, e | Acc(v, t, b, e) && !(b == e && min == 0) ensures exists d :: Subexpr.Repetition(v, t, d, b, e) {
        AccWithin(v, t, b, e);
        AccIsGoes(g, rainbow, v, t, l, b, e);
        var d := GoesRepeated(g, v, l.at, l.left.at, min, max, b, e);
        forall i | 1 <= i < |d| ensures Acc(v, s, d[i - 1], d[i]) {
          AccIsGoes(g, rainbow, v, s, l.left, d[i - 1], d[i]);
        }
        assert Subexpr.Repetition(v, t, d, b, e);
      }
  }

  lemma AccWithin(v: Subject, t: Subre, b: nat, e: nat)
    requires Acc(v, t, b, e)
    ensures b <= e <= |v.text|
  {
  }

  lemma GoesSame(g: Ends, v: Subject, p: Place, q: Place, b: nat, e: nat)
    requires SameThrough(p.arcs, p.lp, p.rp, q.arcs, q.lp, q.rp) && Goes(g, v, p, b, e)
    ensures Goes(g, v, q, b, e)
  {
    SameReads(g, [v.bos] + v.text + [v.eos], p.arcs, p.lp, p.rp, q, b + 1, e + 1);
  }

  lemma {:induction false} BranchesConsistent(g: Ends, rainbow: set<nat>, v: Subject, alts: Alternatives, ls: Layouts)
    requires AllLaidOut(alts, ls) && AllCompiled(g, rainbow, alts, ls) && PaddedText(g, rainbow, [v.bos] + v.text + [v.eos])
    ensures ConsistentAll(v, alts) && Dissect.RunnableAll(v, alts)
    decreases alts
  {
    hide PaddedText, Acc, Goes, Compiled;
    if alts.More? {
      TreeConsistent(g, rainbow, v, alts.left, ls.left);
      BranchesConsistent(g, rainbow, v, alts.rest, ls.rest);
    }
  }

  lemma GoesEither(g: Ends, rainbow: set<nat>, v: Subject, p: Place, alts: Alternatives, ls: Layouts, b: nat, e: nat)
    requires AllLaidOut(alts, ls) && AllCompiled(g, rainbow, alts, ls) && PaddedText(g, rainbow, [v.bos] + v.text + [v.eos])
    requires Either(p, ls) && Goes(g, v, p, b, e) && b <= e <= |v.text|
    ensures AccAny(v, alts, b, e)
  {
    hide PaddedText, Acc, Goes, Leads, Compiled, AllCompiled;
    var u := GoesBy(g, v, p, b, e);
    assert Passes(p, u, 0, |u|);
    BranchGoes(g, rainbow, v, alts, ls, u, b, e);
  }

  lemma {:induction false} BranchGoes(g: Ends, rainbow: set<nat>, v: Subject, alts: Alternatives, ls: Layouts, u: seq<Label>, b: nat, e: nat)
    requires AllLaidOut(alts, ls) && AllCompiled(g, rainbow, alts, ls) && PaddedText(g, rainbow, [v.bos] + v.text + [v.eos])
    requires SomePasses(ls, u, 0, |u|) && Spelled(g, [v.bos] + v.text + [v.eos], u, b + 1, e + 1) && b <= e <= |v.text|
    ensures AccAny(v, alts, b, e)
    decreases alts
  {
    hide PaddedText, Acc, Leads, Spelled, Compiled;
    if Passes(ls.left.at, u, 0, |u|) {
      ThroughBy(g, [v.bos] + v.text + [v.eos], ls.left.at.arcs, ls.left.at.lp, ls.left.at.rp, b + 1, e + 1, u);
      AccIsGoes(g, rainbow, v, alts.left, ls.left, b, e);
    } else {
      BranchGoes(g, rainbow, v, alts.rest, ls.rest, u, b, e);
    }
  }

  /** The parts that the parser makes for a prefix and its atom are laid out in turn. */
  lemma SeriesInTurn(B: set<Arc>, T: set<Arc>, s: nat, begin: nat, end: nat)
    requires Series(B, T, s, begin, end)
    ensures InTurn(Place(B + T, s, end), Place(B, s, begin), Place(T, begin, end))
  {
    hide Leads, Series;
    forall u: seq<Label>, i: nat, j: nat
      ensures Passes(Place(B + T, s, end), u, i, j) <==>
              exists k: nat :: Passes(Place(B, s, begin), u, i, k) && Passes(Place(T, begin, end), u, k, j)
    {
      SeriesLeads(B, T, u, s, begin, end, i, j);
      forall k: nat ensures Passes(Place(B, s, begin), u, i, k) <==> Leads(B, u, s, i, begin, k) {
      }
      forall k: nat ensures Passes(Place(T, begin, end), u, k, j) <==> Leads(T, u, begin, k, end, j) {
      }
    }
  }

  /** Finds the leftmost match of a tree whose nodes were compiled from their parts, and its submatches. */
  method FindInTree(m: Dissect.Matcher, t: Subre, s: Target, small: bool, ghost q: SearchNfa.Pairing,
                    ghost g: Ends, ghost rainbow: set<nat>, ghost l: Layout)
    returns (st: Search.Status)
    requires m.Valid() && q.Ok() && q.m == m.v.For(t.cnfa) && q.s == s && s.cnfa.NoShortcut()
    requires LaidOut(t, l) && NodesCompiled(g, rainbow, t, l) && PaddedText(g, rainbow, [m.v.bos] + m.v.text + [m.v.eos])
    requires NoBackref(t) && Dissect.Proper(t, m.pmatch.Length) && 0 !in Caps(t)
    modifies m.pmatch
    ensures st == Search.Okay <==> exists b, e :: 0 <= b <= e <= |m.v.text| && Goes(g, m.v, l.at, b, e)
    ensures st == Search.Okay && m.pmatch.Length > 0 ==>
              exists so: nat, eo: nat :: Search.Leftmost(q.m, t.shorter, so, eo) && m.pmatch[0] == Span(so, eo)
                && (m.pmatch.Length > 1 ==>
                      Preference.Preferred(m.v, t, so, eo, Execution.Whole(m.pmatch.Length, so, eo), m.pmatch[..]))
                && forall n: nat :: 0 < n < m.pmatch.Length ==> Groups.Reported(m.v, t, so, eo, m.pmatch[..], n)
  {
    hide Groups.Reported, LaidOut, NodesCompiled, PaddedText, Goes, NoBackref, Dissect.Proper, Consistent, Dissect.Runnable, Search.Leftmost, Preference.Preferred;
    TreeConsistent(g, rainbow, m.v, t, l);
    st := Execution.FindAndDissect(m, t, s, small, q);
    forall b: nat, e: nat | b <= e <= |m.v.text| ensures q.m.Valid() && (q.m.Accepts(b, e) <==> Goes(g, m.v, l.at, b, e)) {
      AccIsGoes(g, rainbow, m.v, t, l, b, e);
    }
  }
}
