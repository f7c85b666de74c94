/** From the parsed NFA to the match: all the stages of the optimizer, and the search with what they leave. */
module Optimizer {
  import opened NfaGraph
  import opened ColorRuns
  import opened WordReading
  import opened Cleanup
  import opened PullStep
  import FixEmpties
  import ConstraintLoops
  import ConstraintRemoval
  import Anchors
  import Search

  // ---------------------------------------------------------------- what the parser makes

  /** A parsed NFA. Its first state leads to its last only by way of another. */
  ghost predicate ParsedOk(g: Ends, A: set<Arc>) {
    FixEmpties.Parsed(g, A) && ConstraintRemoval.MarksApart(g, A) && forall a :: a in A && a.from == g.pre ==> a.to != g.post
  }

  /** Every word has the lookbehind and the lookahead colour. */
  lemma LongWords(r: Reading, A: set<Arc>)
    requires ParsedOk(r.g, A) && r.Accepts(A)
    ensures |r.w| >= 2
  {
    var P := iset p: (nat, nat) | if p.0 == r.g.pre then p.1 == 0 else if p.0 == r.g.post then p.1 >= 2 else p.1 >= 1;
    IsClosed(r, A, P);
    Least(r, A, P, r.g.post, |r.w|);
  }

  lemma SameWordsTrans(g: Ends, A: set<Arc>, h: Ends, B: set<Arc>, k: Ends, C: set<Arc>)
    requires SameWords(g, A, h, B) && SameWords(h, B, k, C)
    ensures SameWords(g, A, k, C)
  {
    forall w, lacon ensures Reading(g, w, lacon).Accepts(A) <==> Reading(k, w, lacon).Accepts(C) {
      assert Reading(g, w, lacon).Accepts(A) <==> Reading(h, w, lacon).Accepts(B);
    }
  }

  lemma SameWordsThen(g: Ends, A: set<Arc>, h: Ends, B: set<Arc>, C: set<Arc>)
    requires SameWords(g, A, h, B) && SameLanguage(h, B, C)
    ensures SameWords(g, A, h, C)
  {
    forall w, lacon ensures Reading(g, w, lacon).Accepts(A) <==> Reading(h, w, lacon).Accepts(C) {
      assert Reading(g, w, lacon).Accepts(A) <==> Reading(h, w, lacon).Accepts(B);
      assert Reading(h, w, lacon).Accepts(B) <==> Reading(h, w, lacon).Accepts(C);
    }
  }

  /** A cleaned-up NFA is parsed as before. */
  lemma CleanedParsed(g: Ends, A: set<Arc>, h: Ends, B: set<Arc>)
    requires ParsedOk(g, A) && h == g.(pre := h.pre, post := h.post) && h.pre != h.post
    requires forall b :: b in B ==> exists a :: a in A && Alike(g, a, h, b)
    ensures ParsedOk(h, B) && Kinds(B) <= Kinds(A)
  {
    forall b | b in B
      ensures b.from != h.post && b.to != h.pre && (b.from == h.pre ==> (b.ty == PLAIN || b.ty == BOL) && b.to != h.post)
      ensures (b.to == h.post ==> b.ty == PLAIN || b.ty == EOL) && (b.ty, b.co) in Kinds(A)
      ensures exists a :: a in A && a.ty == b.ty && a.co == b.co
    {
      var a :| a in A && Alike(g, a, h, b);
    }
  }

  lemma FewerKinds(g: Ends, A: set<Arc>, B: set<Arc>)
    requires ConstraintRemoval.MarksApart(g, A) && Kinds(B) <= Kinds(A)
    ensures ConstraintRemoval.MarksApart(g, B)
  {
    forall b | b in B ensures exists a :: a in A && a.ty == b.ty && a.co == b.co {
      assert (b.ty, b.co) in Kinds(A);
    }
  }

  // ---------------------------------------------------------------- optimizing

  /** What the executor can run: numbered states, plain arcs and lookahead constraints, of the kinds that were
      there or that consume an end marker, and no arc into the first state, out of the last, or from one to the other. */
  ghost predicate Runnable(g: Ends, A: set<Arc>, m: Nfa, h: Ends)
    reads m
  {
    && m.Valid() && m.pre == h.pre && m.post == h.post && (forall s: nat :: s < m.nstates ==> s in m.states)
    && ConstraintRemoval.Executable(h, A, m.arcs)
    && (forall a :: a in m.arcs && a.from == m.pre ==> a.to != m.post)
    && (forall s :: s in m.states ==> Useful(m.arcs, m.pre, m.post, s))
  }

  /** All the stages in their order. It is not done if constraints make a loop (breaking one is not part of
      this), so that those of an NFA for the same words cannot be ranked, or if there is no space for the states. */
  method Optimize(n: Nfa, g: Ends, limit: nat) returns (done: bool, looped: bool, m: Nfa, h: Ends)
    requires n.Valid() && n.pre == g.pre && n.post == g.post && ParsedOk(g, n.arcs)
    modifies n
    ensures fresh(m) && SameWords(g, old(n.arcs), h, m.arcs) && (done ==> Runnable(g, old(n.arcs), m, h))
    ensures !done && !looped ==> m.nstates > limit
    ensures looped ==> !done && forall any: map<nat, nat> :: !Ranked(m.arcs, any)
  {
    hide SameLanguage, SameWords, ParsedOk, FixEmpties.Parsed, PullStep.Regular, ConstraintRemoval.MarksApart, ConstraintRemoval.Executable, FixEmpties.SameWalks, Kinds, Useful, Ranked;
    ghost var A := n.arcs;
    m, h := CleanUp(n, g);
    CleanedEnds(g, A, h, m.arcs);
    CleanedParsed(g, A, h, m.arcs);
    ghost var f, B := h, m.arcs;
    done, looped := Reduce(m, h, limit);
    ghost var C := m.arcs;
    SameWordsThen(g, A, f, B, C);
    if done {
      var l, k := CleanUp(m, h);
      SameWordsTrans(g, A, f, C, k, l.arcs);
      CleanedEnds(f, C, k, l.arcs);
      CleanedExecutable(g, A, f, B, C, k, l.arcs);
      ExecutableKinds(k, A, l.arcs);
      NoShortWord(g, A, k, l.arcs);
      m, h := l, k;
    }
  }

  lemma CleanedEnds(g: Ends, A: set<Arc>, h: Ends, B: set<Arc>)
    requires SameWords(g, A, h, B)
    ensures h == g.(pre := h.pre, post := h.post)
  {
  }

  /** The stages between the two clean-ups: EMPTY arcs go, loops of constraints are looked for, constraints go. */
  method Reduce(m: Nfa, h: Ends, limit: nat) returns (done: bool, looped: bool)
    requires m.Valid() && m.pre == h.pre && m.post == h.post && ParsedOk(h, m.arcs)
    modifies m
    ensures m.Valid() && SameLanguage(h, old(m.arcs), m.arcs)
    ensures done ==> ConstraintRemoval.Executable(h, old(m.arcs), m.arcs)
    ensures looped ==> !done && forall any: map<nat, nat> :: !Ranked(m.arcs, any)
    ensures !looped ==> (done <==> m.nstates <= limit)
  {
    hide SameLanguage, FixEmpties.Parsed, PullStep.Regular, ConstraintRemoval.MarksApart, ConstraintRemoval.Executable, FixEmpties.SameWalks, Kinds, Ranked;
    ghost var A := m.arcs;
    FixEmpties.FixEmptyArcs(m, h);
    ghost var B := m.arcs;
    FixEmpties.SameWords(h, A, B);
    var loop; ghost var rank;
    loop, rank := ConstraintLoops.FixConstraintLoops(m, h);
    ghost var C := m.arcs;
    SameTrans(h, A, B, C);
    looped := loop != -1;
    if looped {
      return false, true;
    }
    KindsMore(C, B);
    FewerKinds(h, A, C);
    done := ConstraintRemoval.RemoveConstraints(m, h, limit, rank);
    SameTrans(h, A, C, m.arcs);
    if done {
      ExecutableBefore(h, A, C, m.arcs);
    }
  }

  lemma ExecutableBefore(g: Ends, A: set<Arc>, B: set<Arc>, C: set<Arc>)
    requires Kinds(B) <= Kinds(A) && ConstraintRemoval.Executable(g, B, C)
    ensures ConstraintRemoval.Executable(g, A, C)
  {
  }

  lemma CleanedExecutable(g: Ends, A: set<Arc>, h: Ends, B: set<Arc>, C: set<Arc>, k: Ends, D: set<Arc>)
    requires h == g.(pre := h.pre, post := h.post) && k == h.(pre := k.pre, post := k.post)
    requires Kinds(B) <= Kinds(A) && ConstraintRemoval.Executable(h, B, C)
    requires forall d :: d in D ==> exists c :: c in C && Alike(h, c, k, d)
    ensures ConstraintRemoval.Executable(k, A, D)
  {
    hide Kinds;
    forall d | d in D
      ensures (d.ty == PLAIN || d.ty == LACON) && d.to != k.pre && d.from != k.post
      ensures (d.ty, d.co) in Kinds(A) || (d.ty == PLAIN && d.co in {k.bos0, k.bos1, k.eos0, k.eos1})
    {
      var c :| c in C && Alike(h, c, k, d);
    }
  }

  lemma ExecutableKinds(g: Ends, A: set<Arc>, B: set<Arc>)
    requires ConstraintRemoval.Executable(g, A, B)
    ensures forall b :: b in B ==> b.ty == PLAIN || b.ty == LACON
  {
  }

  /** An arc from the first state to the last would read a word that is too short. */
  lemma NoShortWord(g: Ends, A: set<Arc>, h: Ends, B: set<Arc>)
    requires ParsedOk(g, A) && SameWords(g, A, h, B)
    requires forall b :: b in B ==> b.ty == PLAIN || b.ty == LACON
    ensures forall b :: b in B && b.from == h.pre ==> b.to != h.post
  {
    hide ParsedOk, Reading.Reached;
    if b :| b in B && b.from == h.pre && b.to == h.post {
      var w: seq<nat>, lacon: (nat, nat) -> bool := if b.ty == PLAIN then [b.co] else [], (c, i) => true;
      var r := Reading(h, w, lacon);
      Start(r, B);
      Forward(r, B, b, 0, |w|);
      assert Reading(g, w, lacon).Accepts(A);
      LongWords(Reading(g, w, lacon), A);
    }
  }

  // ---------------------------------------------------------------- analysis

  datatype Info = Nothing | Impossible | EmptyMatch

  /** Whether there is no match at all, or a match of the empty string. */
  method Analyze(m: Nfa) returns (info: Info)
    ensures info == Impossible <==> Outs(m.arcs, m.pre) == {}
    ensures info == EmptyMatch <==> exists a, b :: a in Outs(m.arcs, m.pre) && b in Outs(m.arcs, a.to) && b.to == m.post
  {
    var outs := Outs(m.arcs, m.pre);
    if outs == {} {
      return Impossible;
    }
    while outs != {}
      invariant outs <= Outs(m.arcs, m.pre)
      invariant forall a, b :: a in Outs(m.arcs, m.pre) - outs && b in Outs(m.arcs, a.to) ==> b.to != m.post
      decreases outs
    {
      var a :| a in outs;
      var nexts := Outs(m.arcs, a.to);
      while nexts != {}
        invariant nexts <= Outs(m.arcs, a.to)
        invariant forall b :: b in Outs(m.arcs, a.to) - nexts ==> b.to != m.post
        decreases nexts
      {
        var b :| b in nexts;
        if b.to == m.post {
          return EmptyMatch;
        }
        nexts := nexts - {b};
      }
      outs := outs - {a};
    }
    info := Nothing;
  }

  /** Some word leads from the first state to s. */
  ghost predicate SomeWord(A: set<Arc>, pre: nat, s: nat) {
    exists w :: s in Run(A, {pre}, w)
  }

  /** Without lookahead constraints, nothing leaves the first state exactly if no word is accepted. */
  lemma ImpossibleMeans(A: set<Arc>, pre: nat, post: nat)
    requires pre != post && (forall a :: a in A ==> a.ty == PLAIN)
    requires forall a :: a in A ==> Useful(A, pre, post, a.to) && a.to != pre
    ensures Outs(A, pre) == {} <==> forall w :: !Accepted(A, pre, post, w)
  {
    hide Useful, Leads;
    forall w | Accepted(A, pre, post, w) ensures Outs(A, pre) != {} {
      AcceptedStarts(A, pre, post, w);
    }
    if Outs(A, pre) != {} {
      var a :| a in Outs(A, pre);
      UsefulLeads(A, pre, post, a.to);
      var T := iset s: nat | SomeWord(A, pre, s);
      forall b | b in A && b.from in T ensures b.to in T {
        var w :| b.from in Run(A, {pre}, w);
        var v := w + [b.co];
        assert v[..|v| - 1] == w;
        assert b.to in Run(A, {pre}, v);
      }
      assert pre in Run(A, {pre}, []);
      assert ClosedUnder(A, false, T);
      assert a.to in T;
      var w := LeadsToWord(A, pre, post, a.to, T);
    }
  }

  lemma AcceptedStarts(A: set<Arc>, pre: nat, post: nat, w: seq<nat>)
    requires Accepted(A, pre, post, w) && pre != post
    ensures Outs(A, pre) != {}
  {
    var p :| Walk(A, w, p) && p[0] == pre && p[|w|] == post;
    assert Arc(PLAIN, w[0], p[0], p[0 + 1]) in Outs(A, pre);
  }

  lemma UsefulLeads(A: set<Arc>, pre: nat, post: nat, s: nat)
    requires Useful(A, pre, post, s) && s != pre
    ensures Leads(A, true, post, s)
  {
  }

  /** Where the last state can be reached backward from s, it can be reached forward. */
  lemma BackAndForth(A: set<Arc>, x: nat, s: nat, T: iset<nat>)
    requires Leads(A, true, x, s) && ClosedUnder(A, false, T) && s in T
    ensures x in T
  {
    var U := iset y: nat | y in T ==> x in T;
    assert ClosedUnder(A, true, U);
    assert x in U;
  }

  lemma LeadsToWord(A: set<Arc>, pre: nat, post: nat, s: nat, T: iset<nat>) returns (w: seq<nat>)
    requires Leads(A, true, post, s) && ClosedUnder(A, false, T) && s in T
    requires forall t :: t in T ==> SomeWord(A, pre, t)
    ensures Accepted(A, pre, post, w)
  {
    BackAndForth(A, post, s, T);
    w :| post in Run(A, {pre}, w);
    RunIsWalks(A, pre, w, post);
  }

  /** Two arcs in a row lead from the first state to the last exactly if a word of only the context is accepted. */
  lemma EmptyMatchMeans(A: set<Arc>, pre: nat, post: nat)
    requires forall a :: a in A ==> a.ty == PLAIN
    ensures (exists a, b :: a in Outs(A, pre) && b in Outs(A, a.to) && b.to == post) <==>
            exists w :: |w| == 2 && Accepted(A, pre, post, w)
  {
    if a, b :| a in Outs(A, pre) && b in Outs(A, a.to) && b.to == post {
      var w, p := [a.co, b.co], [pre, a.to, post];
      assert Walk(A, w, p);
      assert |w| == 2 && Accepted(A, pre, post, w);
    }
    if w :| |w| == 2 && Accepted(A, pre, post, w) {
      var p :| Walk(A, w, p) && p[0] == pre && p[|w|] == post;
      var a, b := Arc(PLAIN, w[0], p[0], p[0 + 1]), Arc(PLAIN, w[1], p[1], p[1 + 1]);
      assert a in Outs(A, pre) && b in Outs(A, a.to) && b.to == post;
    }
  }

  // ---------------------------------------------------------------- from the parsed NFA to the match

  /** There are no lookahead constraints to ask. */
  ghost function NoLacons(): (nat, nat) -> bool {
    (c, i) => false
  }

  /** The text with the markers that stand before and after it: the second ones, or the first if the beginning
      (the end) of the text is not to match as such. */
  ghost function Marked(g: Ends, text: seq<nat>, notbol: bool, noteol: bool): (w: seq<nat>)
    ensures |w| == |text| + 2 && w[1..|w| - 1] == text
    ensures w[0] == (if notbol then g.bos0 else g.bos1) && w[|text| + 1] == if noteol then g.eos0 else g.eos1
  {
    [if notbol then g.bos0 else g.bos1] + text + [if noteol then g.eos0 else g.eos1]
  }

  /** The parsed NFA with arcs A reads text[b..e] and a colour of context on each side. */
  ghost predicate ReadsText(g: Ends, A: set<Arc>, text: seq<nat>, notbol: bool, noteol: bool, b: nat, e: nat)
    requires b <= e <= |text|
  {
    Reading(g, Marked(g, text, notbol, noteol)[b..e + 2], NoLacons()).Accepts(A)
  }

  /** The colours of the text are not those of the markers. */
  ghost predicate OrdinaryText(g: Ends, text: seq<nat>) {
    forall i :: 0 <= i < |text| ==> text[i] !in {g.bos0, g.bos1, g.eos0, g.eos1}
  }

  /** An expression that begins with ^ reads a piece of the text exactly if that is at the beginning, the beginning is
      to match, and the piece would be read without the ^. With number 0 it is the other way about: \A has both. */
  lemma StartOfText(g: Ends, A: set<Arc>, init: nat, co: nat, text: seq<nat>, notbol: bool, noteol: bool, b: nat, e: nat)
    requires Anchors.Ended(g, A) && Anchors.StartTested(g, A, init, co) && OrdinaryText(g, text) && g.bos0 != g.bos1 && b <= e <= |text|
    ensures ReadsText(g, A, text, notbol, noteol, b, e) <==>
            b == 0 && (notbol <==> co == 0) && ReadsText(g, Anchors.WithoutStart(A, init), text, notbol, noteol, b, e)
  {
    hide Reading.Reached, Anchors.WithoutStart;
    var all := Marked(g, text, notbol, noteol);
    Anchors.StartMeans(Reading(g, all[b..e + 2], NoLacons()), A, init, co);
    assert all[b..e + 2][0] == all[b] && (b > 0 ==> all[b] == all[1..|all| - 1][b - 1]);
  }

  /** An expression that ends with $ reads a piece of the text exactly if that is at the end, the end is to match, and
      the piece would be read without the $. With number 0 it is the other way about. */
  lemma EndOfText(g: Ends, A: set<Arc>, final: nat, co: nat, text: seq<nat>, notbol: bool, noteol: bool, b: nat, e: nat)
    requires Anchors.Ended(g, A) && Anchors.EndTested(g, A, final, co) && OrdinaryText(g, text) && g.eos0 != g.eos1 && b <= e <= |text|
    ensures ReadsText(g, A, text, notbol, noteol, b, e) <==>
            e == |text| && (noteol <==> co == 0) && ReadsText(g, Anchors.WithoutEnd(A, final), text, notbol, noteol, b, e)
  {
    hide Reading.Reached, Anchors.WithoutEnd;
    var all := Marked(g, text, notbol, noteol);
    Anchors.EndMeans(Reading(g, all[b..e + 2], NoLacons()), A, final, co);
    assert all[b..e + 2][e + 1 - b] == all[e + 1] && (e < |text| ==> all[e + 1] == all[1..|all| - 1][e]);
  }

  lemma MatchesIsReads(g: Ends, A: set<Arc>, h: Ends, B: set<Arc>, text: seq<nat>, notbol: bool, noteol: bool, b: nat, e: nat)
    requires SameWords(g, A, h, B) && (forall a :: a in B ==> a.ty == PLAIN) && b <= e <= |text|
    ensures var bos, eos := if notbol then g.bos0 else g.bos1, if noteol then g.eos0 else g.eos1;
            Search.Matches(B, h.pre, h.post, text, bos, eos, b, e) <==> ReadsText(g, A, text, notbol, noteol, b, e)
  {
    var w := Marked(g, text, notbol, noteol)[b..e + 2];
    PlainAccepts(Reading(h, w, NoLacons()), B);
    assert Reading(g, w, NoLacons()).Accepts(A) <==> Reading(h, w, NoLacons()).Accepts(B);
  }

  lemma RunnableIsOptimized(g: Ends, A: set<Arc>, m: Nfa, h: Ends, ncolors: nat)
    requires Runnable(g, A, m, h) && h == g.(pre := h.pre, post := h.post)
    requires forall a :: a in A ==> a.ty != LACON && (a.ty == PLAIN ==> a.co < ncolors)
    requires g.bos0 < ncolors && g.bos1 < ncolors && g.eos0 < ncolors && g.eos1 < ncolors
    ensures Search.Optimized(m, ncolors)
  {
    hide Useful;
    forall b | b in m.arcs ensures b.ty == PLAIN && b.co < ncolors {
      if (b.ty, b.co) in Kinds(A) {
        var a :| a in A && a.ty == b.ty && a.co == b.co;
      }
    }
  }

  /** What the analysis finds is what holds of the parsed NFA, if it has no lookahead constraints. */
  lemma AnalysisMeans(g: Ends, A: set<Arc>, m: Nfa, h: Ends)
    requires Runnable(g, A, m, h) && SameWords(g, A, h, m.arcs) && forall a :: a in A ==> a.ty != LACON
    ensures Outs(m.arcs, m.pre) == {} <==> forall w :: !Reading(g, w, NoLacons()).Accepts(A)
    ensures (exists a, b :: a in Outs(m.arcs, m.pre) && b in Outs(m.arcs, a.to) && b.to == m.post) <==>
            exists w :: |w| == 2 && Reading(g, w, NoLacons()).Accepts(A)
  {
    hide Reading.Accepts, Accepted, Useful;
    var B := m.arcs;
    forall b | b in B ensures b.ty == PLAIN && b.to != m.pre {
      if (b.ty, b.co) in Kinds(A) {
        var a :| a in A && a.ty == b.ty && a.co == b.co;
      }
    }
    forall w ensures Reading(g, w, NoLacons()).Accepts(A) <==> Accepted(B, m.pre, m.post, w) {
      PlainAccepts(Reading(h, w, NoLacons()), B);
      assert Reading(g, w, NoLacons()).Accepts(A) <==> Reading(h, w, NoLacons()).Accepts(B);
    }
    ImpossibleMeans(B, m.pre, m.post);
    EmptyMatchMeans(B, m.pre, m.post);
  }

  /** Optimizes the parsed NFA and searches with it: what is found is the leftmost text that the parsed NFA reads,
      and of those that start there the longest, or the shortest if shorter. What begins with ^ is found at the
      beginning only, and not if that is not to match; what ends with $ at the end. */
  method OptimizeAndFind(n: Nfa, g: Ends, limit: nat, ncolors: nat, rainbow: set<nat>,
                         text: seq<nat>, notbol: bool, noteol: bool, shorter: bool, small: bool)
    returns (done: bool, looped: bool, st: Search.Status, so: nat, eo: nat, ghost m: Nfa, ghost h: Ends)
    requires n.Valid() && n.pre == g.pre && n.post == g.post && ParsedOk(g, n.arcs)
    requires forall a :: a in n.arcs ==> a.ty != LACON && (a.ty == PLAIN ==> a.co < ncolors)
    requires (forall c :: c in rainbow ==> c < ncolors && c !in {g.bos0, g.bos1, g.eos0, g.eos1})
    requires g.bos0 < ncolors && g.bos1 < ncolors && g.eos0 < ncolors && g.eos1 < ncolors
    requires forall i :: 0 <= i < |text| ==> text[i] in rainbow
    modifies n
    ensures !done ==> SameWords(g, old(n.arcs), h, m.arcs)
    ensures !done && !looped ==> m.nstates > limit
    ensures looped ==> !done && forall any: map<nat, nat> :: !Ranked(m.arcs, any)
    ensures done ==> (st == Search.Okay <==>
              exists b, e :: 0 <= b <= e <= |text| && ReadsText(g, old(n.arcs), text, notbol, noteol, b, e))
    ensures done && st == Search.Okay ==> so <= eo <= |text| && ReadsText(g, old(n.arcs), text, notbol, noteol, so, eo)
    ensures done && st == Search.Okay ==>
              forall b, e :: 0 <= b < so && b <= e <= |text| ==> !ReadsText(g, old(n.arcs), text, notbol, noteol, b, e)
    ensures done && st == Search.Okay ==>
              forall e :: so <= e <= |text| && ReadsText(g, old(n.arcs), text, notbol, noteol, so, e) ==>
                if shorter then eo <= e else e <= eo
    ensures done && st == Search.Okay ==>
              forall init :: Anchors.StartTested(g, old(n.arcs), init, 1) ==> so == 0 && !notbol
    ensures done && st == Search.Okay ==>
              forall final :: Anchors.EndTested(g, old(n.arcs), final, 1) ==> eo == |text| && !noteol
  {
    hide ReadsText, Search.Matches, Runnable, SameWords, Search.Optimized, FixEmpties.Parsed, Ranked, Anchors.StartTested, Anchors.EndTested;
    ghost var A := n.arcs;
    st, so, eo := Search.NoMatch, 0, 0;
    var o, k;
    done, looped, o, k := Optimize(n, g, limit);
    m, h := o, k;
    if done {
      CleanedEnds(g, A, h, m.arcs);
      RunnableIsOptimized(g, A, m, h, ncolors);
      OptimizedArcs(m, ncolors);
      RunnableEnds(g, A, m, h);
      ghost var B := m.arcs;
      var bos, eos := if notbol then g.bos0 else g.bos1, if noteol then g.eos0 else g.eos1;
      st, so, eo := Search.Find(o, ncolors, rainbow, g.bos0, g.bos1, text, bos, eos, shorter, small);
      forall b, e | 0 <= b <= e <= |text|
        ensures Search.Matches(B, h.pre, h.post, text, bos, eos, b, e) <==> ReadsText(g, A, text, notbol, noteol, b, e)
      {
        MatchesIsReads(g, A, h, B, text, notbol, noteol, b, e);
      }
      if st == Search.Okay {
        FoundAnchored(g, A, text, notbol, noteol, so, eo);
      }
    }
  }

  lemma FoundAnchored(g: Ends, A: set<Arc>, text: seq<nat>, notbol: bool, noteol: bool, so: nat, eo: nat)
    requires ParsedOk(g, A) && OrdinaryText(g, text) && so <= eo <= |text| && ReadsText(g, A, text, notbol, noteol, so, eo)
    ensures forall init :: Anchors.StartTested(g, A, init, 1) ==> so == 0 && !notbol
    ensures forall final :: Anchors.EndTested(g, A, final, 1) ==> eo == |text| && !noteol
  {
    hide Anchors.StartTested, Anchors.EndTested;
    assert Anchors.Ended(g, A);
    forall init | Anchors.StartTested(g, A, init, 1) ensures so == 0 && !notbol {
      StartOfText(g, A, init, 1, text, notbol, noteol, so, eo);
    }
    forall final | Anchors.EndTested(g, A, final, 1) ensures eo == |text| && !noteol {
      EndOfText(g, A, final, 1, text, notbol, noteol, so, eo);
    }
  }

  lemma OptimizedArcs(m: Nfa, ncolors: nat)
    requires Search.Optimized(m, ncolors)
    ensures forall a :: a in m.arcs ==> a.ty == PLAIN
  {
  }

  lemma RunnableEnds(g: Ends, A: set<Arc>, m: Nfa, h: Ends)
    requires Runnable(g, A, m, h)
    ensures m.pre == h.pre && m.post == h.post
  {
  }
}
