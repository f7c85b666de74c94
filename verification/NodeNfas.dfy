/** The NFA of a tree node: a copy of the node's part of the parsed NFA in a frame that reads the colours before and after it. */
module NodeNfas {
  import opened NfaGraph
  import opened ColorRuns
  import opened CompactNfa
  import opened SubNfas
  import opened WordReading
  import opened LabelReading
  import opened SearchNfa
  import opened SmallNfas
  import ArcWalks
  import Cleanup
  import ConstraintRemoval
  import FixEmpties
  import Optimizer
  import PullStep
  import Search

  /** The arcs a new NFA begins with: any colour, or an end marker, before and after what comes between init and final. */
  ghost function Frame(g: Ends, init: nat, final: nat, rainbow: set<nat>): set<Arc> {
    (set c | c in rainbow :: Arc(PLAIN, c, g.pre, init)) + {Arc(BOL, 0, g.pre, init), Arc(BOL, 1, g.pre, init)}
    + (set c | c in rainbow :: Arc(PLAIN, c, final, g.post)) + {Arc(EOL, 0, final, g.post), Arc(EOL, 1, final, g.post)}
  }

  /** D is strung between init and final and keeps away from the first and the last state. */
  ghost predicate Framed(g: Ends, D: set<Arc>, init: nat, final: nat) {
    && Strung(D, init, final) && g.pre != g.post && g.pre != init && g.pre != final && g.post != init && g.post != final
    && (forall a :: a in D ==> a.from != g.pre && a.from != g.post && a.to != g.pre && a.to != g.post)
    && (forall a :: a in D ==> a.ty != LACON)
  }

  /** A padded text. */
  ghost predicate PaddedText(g: Ends, rainbow: set<nat>, w: seq<nat>) {
    && |w| >= 2 && w[0] in {g.bos0, g.bos1} && w[|w| - 1] in {g.eos0, g.eos1}
    && forall i :: 0 < i < |w| - 1 ==> w[i] in rainbow
  }

  // ---------------------------------------------------------------- reading within the frame

  /** What an arc between init and final does in a piece of the text is what its label does in the text. */
  lemma TakesFits(g: Ends, w: seq<nat>, b: nat, len: nat, a: Arc, i: nat, j: nat)
    requires b + len <= |w| && a.from != g.pre && a.to != g.post && a.ty != EMPTY && a.ty != LACON && 0 < i
    ensures Reading(g, w[b..b + len], Optimizer.NoLacons()).Takes(a, i, j) ==>
              Fits(g, w, (a.ty, a.co), b + i) && b + j == Past((a.ty, a.co), b + i)
    ensures i < len && Fits(g, w, (a.ty, a.co), b + i) && b + j == Past((a.ty, a.co), b + i) ==>
              Reading(g, w[b..b + len], Optimizer.NoLacons()).Takes(a, i, j)
  {
    var v := w[b..b + len];
    assert i < len ==> v[i] == w[b + i];
    assert i <= len ==> v[i - 1] == w[b + i - 1];
  }

  /** At state s, having come from init by labels that take the text from b + 1 to b + i. */
  ghost predicate Inside(g: Ends, w: seq<nat>, D: set<Arc>, init: nat, b: nat, s: nat, i: nat) {
    exists u :: Leads(D, u, init, 0, s, |u|) && Spelled(g, w, u, b + 1, b + i)
  }

  /** One more arc of D. */
  lemma InsideOn(g: Ends, w: seq<nat>, D: set<Arc>, init: nat, b: nat, a: Arc, i: nat, j: nat)
    requires Inside(g, w, D, init, b, a.from, i) && a in D
    requires if a.ty == EMPTY then j == i else Fits(g, w, (a.ty, a.co), b + i) && b + j == Past((a.ty, a.co), b + i)
    ensures Inside(g, w, D, init, b, a.to, j)
  {
    hide Leads, Spelled, Fits, Past;
    var u :| Leads(D, u, init, 0, a.from, |u|) && Spelled(g, w, u, b + 1, b + i);
    if a.ty == EMPTY {
      LeadsOn(D, u, init, 0, a, |u|, |u|);
    } else {
      var l := (a.ty, a.co);
      LeadsExtended(D, u, [l], init, 0, a.from, |u|);
      LeadsOn(D, u + [l], init, 0, a, |u|, |u| + 1);
      SpelledOne(g, w, l, b + i, b + j);
      SpelledJoin(g, w, u, [l], b + 1, b + j);
    }
  }

  /** The frame's arcs into init read the colour before the text, those out of final the colour after it, and no others
      touch pre or post. */
  lemma FrameArcs(g: Ends, init: nat, final: nat, rainbow: set<nat>, a: Arc)
    requires a in Frame(g, init, final, rainbow)
    ensures (a.from == g.pre && a.to == init && (a.ty == PLAIN || a.ty == BOL)) || (a.from == final && a.to == g.post && (a.ty == PLAIN || a.ty == EOL))
    ensures a.ty == PLAIN ==> a.co in rainbow
    ensures a.ty != PLAIN ==> a.co < 2
  {
  }

  /** A colour that precedes a stretch of the text, or follows it, is read by an arc of the frame. */
  lemma FrameReads(g: Ends, init: nat, final: nat, rainbow: set<nat>, w: seq<nat>, b: nat, len: nat)
    requires PaddedText(g, rainbow, w) && b + len <= |w| && len >= 2
    ensures exists a :: a in Frame(g, init, final, rainbow) && a.from == g.pre && a.to == init
                        && Reading(g, w[b..b + len], Optimizer.NoLacons()).Takes(a, 0, 1)
    ensures final != g.pre ==>
              exists a :: a in Frame(g, init, final, rainbow) && a.from == final && a.to == g.post
                          && Reading(g, w[b..b + len], Optimizer.NoLacons()).Takes(a, len - 1, len)
  {
    var r := Reading(g, w[b..b + len], Optimizer.NoLacons());
    assert r.w[0] == w[b] && r.w[len - 1] == w[b + len - 1];
    var c, d := w[b], w[b + len - 1];
    var a := if b > 0 then Arc(PLAIN, c, g.pre, init) else Arc(BOL, if c == g.bos0 then 0 else 1, g.pre, init);
    assert a in Frame(g, init, final, rainbow) && r.Takes(a, 0, 1);
    if final != g.pre {
      var z := if b + len < |w| then Arc(PLAIN, d, final, g.post) else Arc(EOL, if d == g.eos0 then 0 else 1, final, g.post);
      assert z in Frame(g, init, final, rainbow) && r.Takes(z, len - 1, len);
    }
  }

  /** What leads through D takes the reading from init to the state. */
  lemma ReadInside(g: Ends, w: seq<nat>, D: set<Arc>, init: nat, final: nat, rainbow: set<nat>, b: nat, len: nat, u: seq<Label>)
    requires Framed(g, D, init, final) && PaddedText(g, rainbow, w) && b + len <= |w| && len >= 2
    requires Leads(D, u, init, 0, final, |u|) && Spelled(g, w, u, b + 1, b + len - 1)
    ensures Reading(g, w[b..b + len], Optimizer.NoLacons()).Reached(Frame(g, init, final, rainbow) + D, final, len - 1)
  {
    hide Leads, Fits, Past, Reading.Reached, Reading.Takes, Frame, PaddedText;
    var r, A := Reading(g, w[b..b + len], Optimizer.NoLacons()), Frame(g, init, final, rainbow) + D;
    FrameReads(g, init, final, rainbow, w, b, len);
    var a0 :| a0 in Frame(g, init, final, rainbow) && a0.from == g.pre && a0.to == init && r.Takes(a0, 0, 1);
    Start(r, A);
    Forward(r, A, a0, 0, 1);
    var P := iset p: (nat, nat) | p.1 <= |u| && forall i: nat :: 0 < i < len && Spelled(g, w, u[..p.1], b + 1, b + i) ==> r.Reached(A, p.0, i);
    forall a, k: nat, l: nat | a in D && (a.from, k) in P && ArcWalks.Spells(u, a, k, l) ensures (a.to, l) in P {
      forall j: nat | 0 < j < len && Spelled(g, w, u[..l], b + 1, b + j) ensures r.Reached(A, a.to, j) {
        StepInside(g, w, D, A, r, u, b, len, a, k, l, j);
      }
    }
    forall i: nat | 0 < i < len && Spelled(g, w, u[..0], b + 1, b + i) ensures r.Reached(A, init, i) {
      assert u[..0] == [];
    }
    LeadsLeast(D, u, P, init, 0, final, |u|);
    assert u[..|u|] == u;
    assert Spelled(g, w, u[..|u|], b + 1, b + (len - 1));
  }

  lemma StepInside(g: Ends, w: seq<nat>, D: set<Arc>, A: set<Arc>, r: Reading, u: seq<Label>, b: nat, len: nat, a: Arc, k: nat, l: nat, j: nat)
    requires D <= A && a in D && a.from != g.pre && a.to != g.post && a.ty != LACON && b + len <= |w|
    requires r == Reading(g, w[b..b + len], Optimizer.NoLacons()) && k <= |u| && ArcWalks.Spells(u, a, k, l)
    requires forall i: nat :: 0 < i < len && Spelled(g, w, u[..k], b + 1, b + i) ==> r.Reached(A, a.from, i)
    requires 0 < j < len && l <= |u| && Spelled(g, w, u[..l], b + 1, b + j)
    ensures r.Reached(A, a.to, j)
  {
    hide Fits, Past, Reading.Reached, Reading.Takes;
    if a.ty == EMPTY {
      EmptyTakes(r, a, j);
      Forward(r, A, a, j, j);
    } else {
      assert u[..l] == u[..k] + [u[k]];
      SpelledJoin(g, w, u[..k], [u[k]], b + 1, b + j);
      var q: nat :| Spelled(g, w, u[..k], b + 1, q) && Spelled(g, w, [u[k]], q, b + j);
      SpelledMoves(g, w, u[..k], b + 1, q);
      SpelledMoves(g, w, [u[k]], q, b + j);
      var i: nat := q - b;
      SpelledOne(g, w, u[k], q, b + j);
      TakesFits(g, w, b, len, a, i, j);
      Forward(r, A, a, i, j);
    }
  }

  lemma EmptyTakes(r: Reading, a: Arc, i: nat)
    requires a.ty == EMPTY
    ensures forall j :: r.Takes(a, i, j) <==> j == i
  {
  }

  /** Where a reading can be: at pre in the beginning, inside, or at post having led through. */
  ghost predicate Somewhere(g: Ends, w: seq<nat>, D: set<Arc>, init: nat, final: nat, b: nat, s: nat, i: nat) {
    if s == g.pre then i == 0
    else if s == g.post then i > 0 && Inside(g, w, D, init, b, final, i - 1) && i > 1
    else i > 0 && Inside(g, w, D, init, b, s, i)
  }

  /** A reading that reaches post has led through D. */
  lemma ReadThrough(g: Ends, w: seq<nat>, D: set<Arc>, init: nat, final: nat, rainbow: set<nat>, b: nat, len: nat)
    requires Framed(g, D, init, final) && b + len <= |w| && len >= 2
    requires Reading(g, w[b..b + len], Optimizer.NoLacons()).Accepts(Frame(g, init, final, rainbow) + D)
    ensures Inside(g, w, D, init, b, final, len - 1)
  {
    hide Leads, Fits, Past, Inside, Reading.Takes, Frame;
    var r, A := Reading(g, w[b..b + len], Optimizer.NoLacons()), Frame(g, init, final, rainbow) + D;
    var P := iset p: (nat, nat) | Somewhere(g, w, D, init, final, b, p.0, p.1);
    forall a, i: nat, j: nat | a in A && (a.from, i) in P && r.Takes(a, i, j) ensures (a.to, j) in P {
      if a in D {
        if a.ty == EMPTY {
          EmptyTakes(r, a, i);
        } else {
          TakesFits(g, w, b, len, a, i, j);
        }
        InsideOn(g, w, D, init, b, a, i, j);
        MovesOn(g, w, a, b, i, j);
      } else {
        FrameArcs(g, init, final, rainbow, a);
        FrameTakes(r, a, i, j);
        if a.from == g.pre {
          InsideStart(g, w, D, init, b);
        }
      }
    }
    assert (g.pre, 0) in P;
    IsClosed(r, A, P);
    Least(r, A, P, g.post, len);
  }

  lemma InsideStart(g: Ends, w: seq<nat>, D: set<Arc>, init: nat, b: nat)
    ensures Inside(g, w, D, init, b, init, 1)
  {
    LeadsSelf(D, [], init, 0);
    assert Spelled(g, w, [], b + 1, b + 1);
  }

  lemma MovesOn(g: Ends, w: seq<nat>, a: Arc, b: nat, i: nat, j: nat)
    requires if a.ty == EMPTY then j == i else b + j == Past((a.ty, a.co), b + i)
    ensures j >= i
  {
  }

  lemma FrameTakes(r: Reading, a: Arc, i: nat, j: nat)
    requires r.Takes(a, i, j) && (a.ty == PLAIN || (a.ty == BOL && a.from == r.g.pre) || (a.ty == EOL && a.to == r.g.post))
    ensures j == i + 1
  {
  }

  /** A stretch of the text is accepted, with its context, exactly if D leads through it. */
  lemma FrameAccepts(g: Ends, w: seq<nat>, D: set<Arc>, init: nat, final: nat, rainbow: set<nat>, b: nat, e: nat)
    requires Framed(g, D, init, final) && PaddedText(g, rainbow, w) && b <= e && e + 2 <= |w|
    ensures Reading(g, w[b..e + 2], Optimizer.NoLacons()).Accepts(Frame(g, init, final, rainbow) + D) <==>
            Through(g, w, D, init, final, b + 1, e + 1)
  {
    hide Leads, Spelled, Reading.Reached, Reading.Takes, Frame, PaddedText;
    var len := e + 2 - b;
    var r, A := Reading(g, w[b..b + len], Optimizer.NoLacons()), Frame(g, init, final, rainbow) + D;
    if r.Accepts(A) {
      ReadThrough(g, w, D, init, final, rainbow, b, len);
    }
    if Through(g, w, D, init, final, b + 1, e + 1) {
      var u :| Leads(D, u, init, 0, final, |u|) && Spelled(g, w, u, b + 1, e + 1);
      ReadInside(g, w, D, init, final, rainbow, b, len, u);
      FrameReads(g, init, final, rainbow, w, b, len);
      var z :| z in Frame(g, init, final, rainbow) && z.from == final && z.to == g.post && r.Takes(z, len - 1, len);
      Forward(r, A, z, len - 1, len);
    }
  }

  // ---------------------------------------------------------------- the compact NFA of a node

  /** Colours of the text and the end markers' colours are all different, and the arcs use them as the parser does. */
  ghost predicate ColorsFit(g: Ends, rainbow: set<nat>, D: set<Arc>, ncolors: nat) {
    && g.bos0 != g.bos1 && g.eos0 != g.eos1 && {g.bos0, g.bos1} !! {g.eos0, g.eos1}
    && rainbow !! {g.bos0, g.bos1, g.eos0, g.eos1} && (forall c :: c in rainbow ==> c < ncolors)
    && g.bos0 < ncolors && g.bos1 < ncolors && g.eos0 < ncolors && g.eos1 < ncolors
    && (forall a :: a in D && (a.ty == PLAIN || a.ty == AHEAD || a.ty == BEHIND) ==> a.co in rainbow)
    && (forall a :: a in D && (a.ty == BOL || a.ty == EOL) ==> a.co < 2)
  }

  /** For every text the compact NFA accepts exactly the stretches that the sub-NFA leads through. */
  ghost predicate Compiled(c: Cnfa, g: Ends, rainbow: set<nat>, sub: set<Arc>, lp: nat, rp: nat) {
    && c.WellFormed() && c.NoShortcut() && NoReturn(c)
    && forall text, bos, eos, lacon {:trigger Target(c, text, bos, eos, lacon)} ::
         PaddedText(g, rainbow, [bos] + text + [eos]) ==>
           Target(c, text, bos, eos, lacon).Valid()
           && forall b: nat, e: nat :: b <= e <= |text| ==>
                (Target(c, text, bos, eos, lacon).Accepts(b, e) <==> Through(g, [bos] + text + [eos], sub, lp, rp, b + 1, e + 1))
  }

  lemma FrameParsed(g: Ends, init: nat, final: nat, rainbow: set<nat>, D: set<Arc>, ncolors: nat)
    requires Framed(g, D, init, final) && ColorsFit(g, rainbow, D, ncolors)
    ensures Optimizer.ParsedOk(g, Frame(g, init, final, rainbow) + D)
    ensures forall a :: a in Frame(g, init, final, rainbow) + D ==> a.ty != LACON && (a.ty == PLAIN ==> a.co < ncolors)
  {
    hide Frame;
    forall a | a in Frame(g, init, final, rainbow)
      ensures (a.from == g.pre && a.to == init && (a.ty == PLAIN || a.ty == BOL)) || (a.from == final && a.to == g.post && (a.ty == PLAIN || a.ty == EOL))
      ensures if a.ty == PLAIN then a.co in rainbow else a.co < 2
    {
      FrameArcs(g, init, final, rainbow, a);
    }
  }

  /** Optimizes the NFA of a node, made of the frame and a copy of the node's part, and compacts it. */
  method NodeCnfa(n: Nfa, g: Ends, limit: nat, ncolors: nat, ghost init: nat, ghost final: nat, ghost rainbow: set<nat>, ghost D: set<Arc>)
    returns (done: bool, looped: bool, c: Cnfa, ghost m: Nfa, ghost h: Ends)
    requires n.Valid() && n.pre == g.pre && n.post == g.post && n.arcs == Frame(g, init, final, rainbow) + D
    requires Framed(g, D, init, final) && ColorsFit(g, rainbow, D, ncolors)
    modifies n
    ensures done ==> Compiled(c, g, rainbow, D, init, final)
    ensures Cleanup.SameWords(g, old(n.arcs), h, m.arcs)
    ensures !done && !looped ==> m.nstates > limit
    ensures looped ==> !done && forall any: map<nat, nat> :: !PullStep.Ranked(m.arcs, any)
  {
    hide Frame, ColorsFit, Framed, Compiled, Optimizer.ParsedOk, Optimizer.Runnable, Cleanup.SameWords, Search.Optimized, PullStep.Ranked;
    ghost var A := n.arcs;
    FrameParsed(g, init, final, rainbow, D, ncolors);
    var o, k;
    done, looped, o, k := Optimizer.Optimize(n, g, limit);
    m, h := o, k;
    if !done {
      c := Cnfa(0, 0, 0, 0, false, [], []);
      return;
    }
    FitColors(g, rainbow, D, ncolors);
    Optimizer.CleanedEnds(g, A, h, m.arcs);
    Optimizer.RunnableIsOptimized(g, A, m, h, ncolors);
    Optimizer.RunnableEnds(g, A, m, h);
    Compactable(m, ncolors);
    c := Compact(o, ncolors);
    NodeCompiled(c, g, rainbow, D, init, final, A, m.arcs, h, ncolors);
  }

  lemma FitColors(g: Ends, rainbow: set<nat>, D: set<Arc>, ncolors: nat)
    requires ColorsFit(g, rainbow, D, ncolors)
    ensures g.bos0 < ncolors && g.bos1 < ncolors && g.eos0 < ncolors && g.eos1 < ncolors
  {
  }

  lemma Compactable(m: Nfa, ncolors: nat)
    requires Search.Optimized(m, ncolors)
    ensures m.Valid() && forall s: nat :: s < m.nstates ==> s in m.states
    ensures forall a :: a in m.arcs ==> a.ty == PLAIN && a.co < ncolors && a.to != m.pre && a.from != m.post
    ensures forall a :: a in m.arcs && a.from == m.pre ==> a.to != m.post
  {
  }

  lemma NodeCompiled(c: Cnfa, g: Ends, rainbow: set<nat>, D: set<Arc>, init: nat, final: nat, A: set<Arc>, B: set<Arc>, h: Ends, ncolors: nat)
    requires Framed(g, D, init, final) && ColorsFit(g, rainbow, D, ncolors) && A == Frame(g, init, final, rainbow) + D
    requires Cleanup.SameWords(g, A, h, B) && Compacts(B, h.pre, h.post, c) && c.ncolors == ncolors
    requires forall a :: a in B ==> a.ty == PLAIN && a.to != h.pre && (a.from == h.pre ==> a.to != h.post)
    ensures Compiled(c, g, rainbow, D, init, final)
  {
    hide Frame, Framed, Compacts, Cleanup.SameWords, Target.Accepts, Through;
    CompactEnds(B, h.pre, h.post, c);
    Search.PlainNoReturn(B, c);
    Search.PlainNoShortcut(B, c);
    forall text, bos, eos, lacon | PaddedText(g, rainbow, [bos] + text + [eos])
      ensures Target(c, text, bos, eos, lacon).Valid()
      ensures forall b: nat, e: nat :: b <= e <= |text| ==>
                (Target(c, text, bos, eos, lacon).Accepts(b, e) <==> Through(g, [bos] + text + [eos], D, init, final, b + 1, e + 1))
    {
      var t := Target(c, text, bos, eos, lacon);
      TextColors(g, rainbow, D, ncolors, text, bos, eos);
      forall b: nat, e: nat | b <= e <= |text|
        ensures t.Accepts(b, e) <==> Through(g, [bos] + text + [eos], D, init, final, b + 1, e + 1)
      {
        var w := ([bos] + text + [eos])[b..e + 2];
        AcceptsIsAccepted(t, B, b, e);
        PlainAccepts(Reading(h, w, Optimizer.NoLacons()), B);
        WordsSame(g, A, h, B, w);
        FrameAccepts(g, [bos] + text + [eos], D, init, final, rainbow, b, e);
      }
    }
  }

  lemma WordsSame(g: Ends, A: set<Arc>, h: Ends, B: set<Arc>, w: seq<nat>)
    requires Cleanup.SameWords(g, A, h, B)
    ensures Reading(g, w, Optimizer.NoLacons()).Accepts(A) <==> Reading(h, w, Optimizer.NoLacons()).Accepts(B)
  {
  }

  lemma CompactEnds(B: set<Arc>, pre: nat, post: nat, c: Cnfa)
    requires Compacts(B, pre, post, c)
    ensures c.WellFormed() && c.pre == pre && c.post == post
  {
  }

  lemma TextColors(g: Ends, rainbow: set<nat>, D: set<Arc>, ncolors: nat, text: seq<nat>, bos: nat, eos: nat)
    requires ColorsFit(g, rainbow, D, ncolors) && PaddedText(g, rainbow, [bos] + text + [eos])
    ensures bos < ncolors && eos < ncolors && forall i :: 0 <= i < |text| ==> text[i] < ncolors
  {
    FitColors(g, rainbow, D, ncolors);
    var w := [bos] + text + [eos];
    assert w[0] == bos && w[|w| - 1] == eos;
    forall i | 0 <= i < |text| ensures text[i] in rainbow {
      assert w[i + 1] == text[i];
    }
  }
}
