/** Finding the leftmost match: the search NFA bounds where the match can
    start, and the main NFA then pins it down. */
module Search {
  import opened NfaGraph
  import opened CompactNfa
  import opened StateSetCache
  import opened LazyDfa
  import opened ColorRuns
  import opened SearchConversion
  import opened SearchNfa
  import opened CacheTracking
  import opened SmallNfas

  datatype Status = Okay | NoMatch

  /** so..eo is the match that starts first and, among those, ends last (or first, if shorter). */
  ghost predicate Leftmost(m: Target, shorter: bool, so: nat, eo: nat)
    requires m.Valid()
  {
    && so <= eo <= |m.text| && m.Accepts(so, eo)
    && (forall b, e :: 0 <= b < so && b <= e <= |m.text| ==> !m.Accepts(b, e))
    && (forall e :: so <= e <= |m.text| && m.Accepts(so, e) ==> if shorter then eo <= e else e <= eo)
  }

  ghost predicate SomeMatch(m: Target)
    requires m.Valid()
  {
    exists b, e :: 0 <= b <= e <= |m.text| && m.Accepts(b, e)
  }

  /** The search run ends a match at e exactly when some match ends there. */
  lemma SearchFinds(q: Pairing, e: nat)
    requires q.Ok() && q.m.cnfa.NoShortcut() && e <= |q.m.text|
    ensures q.s.Accepts(0, e) <==> exists b :: 0 <= b <= e && q.m.Accepts(b, e)
  {
    hide *;
    var i := e + 1;
    SearchEnds(q, i);
    PairShape(q);
    NoMatchAtStart(q.m, i);
    AcceptsMeans(q.s, 0, e);
    forall b | 0 <= b <= e ensures q.m.Accepts(b, e) <==> q.m.cnfa.post in q.m.After(b, i) {
      AcceptsMeans(q.m, b, e);
    }
    if q.s.Accepts(0, e) {
      var b :| 0 <= b <= i && q.m.cnfa.post in q.m.After(b, i);
      assert b != i;
      assert 0 <= b <= e && q.m.Accepts(b, e);
    }
    if exists b :: 0 <= b <= e && q.m.Accepts(b, e) {
      var b :| 0 <= b <= e && q.m.Accepts(b, e);
      EndHere(q, b, i);
    }
  }

  lemma EndHere(q: Pairing, b: nat, i: nat)
    requires q.Ok() && b <= i <= |q.m.text| + 1 && q.m.cnfa.post in q.m.After(b, i)
    ensures q.m.cnfa.post in q.s.After(0, i)
  {
    hide Target.After, Pairing.Ok, Target.Valid;
    SearchEnds(q, i);
  }

  lemma PairShape(q: Pairing)
    requires q.Ok()
    ensures q.m.Valid() && q.s.Valid() && q.m.text == q.s.text && q.m.cnfa.post == q.s.cnfa.post
  {
  }

  lemma AcceptsMeans(t: Target, b: nat, e: nat)
    requires t.Valid() && b <= e <= |t.text|
    ensures t.Accepts(b, e) <==> t.cnfa.post in t.After(b, e + 1)
  {
  }

  /** Every match starts at or after the cold position. */
  lemma ColdIsSafe(q: Pairing, cold: nat, cur: nat, b: nat, e: nat)
    requires q.Ok() && b <= e <= |q.m.text| && q.m.Accepts(b, e)
    requires cold <= cur <= e + 1 && (cold == 0 || q.s.NoProgressSet(q.s.After(0, cold)))
    ensures cold <= b
  {
    if b < cold {
      ColdBound(q, b, e, cold);
    }
  }

  lemma PlainNoReturn(A: set<Arc>, c: Cnfa)
    requires Compacts(A, c.pre, c.post, c) && PlainOnly(A) && forall a :: a in A ==> a.to != c.pre
    ensures NoReturn(c)
  {
    forall s, k | 0 <= s < c.nstates && 0 <= k < |c.states[s]| ensures c.states[s][k].to != c.pre {
      var ca := c.states[s][k];
      assert !c.haslacons && ca == Carc(ca.co, ca.to) && Carc(ca.co, ca.to) in c.states[s];
      assert Arc(PLAIN, ca.co, s, ca.to) in A;
    }
  }

  /** The caches of both DFAs are large enough. */
  lemma SearchHasRoom(q: Pairing, small: bool)
    requires q.Ok()
    ensures Roomy(q.m, CacheSize(q.m.cnfa, small)) && Roomy(q.s, CacheSize(q.s.cnfa, small))
  {
    PlainNoReturn(q.A, q.m.cnfa);
    RoomForAny(q.m, small);
    if Anchored(q.A, q.Pre(), q.bos0, q.bos1) {
      forall a | a in q.AS ensures a.to != q.Pre() {
        assert a.(from := Orig(q.orig, a.from), to := Orig(q.orig, a.to)) in q.A0();
      }
      PlainNoReturn(q.AS, q.s.cnfa);
    } else {
      SearchAlwaysPre(q);
    }
    RoomForAny(q.s, small);
  }

  lemma SearchAlwaysPre(q: Pairing)
    requires q.Ok() && !Anchored(q.A, q.Pre(), q.bos0, q.bos1)
    ensures AlwaysPre(q.s)
  {
    forall start: nat, i: nat | start <= i <= |q.s.text| ensures q.s.cnfa.pre in q.s.After(start, i) {
      PreAfter(q, start, i);
    }
  }

  lemma {:induction false} PreAfter(q: Pairing, start: nat, i: nat)
    requires q.Ok() && !Anchored(q.A, q.Pre(), q.bos0, q.bos1) && start <= i <= |q.s.text|
    ensures q.s.cnfa.pre in q.s.After(start, i)
    decreases i
  {
    hide *;
    PairColors(q, i);
    if start < i {
      PreAfter(q, start, i - 1);
    }
    AfterStep(q.s, start, i);
    LoopArc(q, q.s.Padded(i));
    StepReaches(q.s, if i == start then {q.s.cnfa.pre} else q.s.After(start, i - 1), q.s.cnfa.pre, q.s.Padded(i), q.s.Where(i), q.s.cnfa.pre);
  }

  lemma PairColors(q: Pairing, i: nat)
    requires q.Ok() && i <= |q.s.text|
    ensures q.s.Valid() && q.s.cnfa.pre == q.Pre()
    ensures q.s.Padded(i) in q.rainbow + {q.bos0, q.bos1} && q.s.Padded(i) < q.s.cnfa.ncolors
  {
    LoopColors(q.m, q.rainbow, q.bos0, q.bos1, i);
  }

  lemma StepReaches(t: Target, S: set<nat>, s: nat, co: nat, pos: nat, x: nat)
    requires t.Valid() && s in S && s < t.cnfa.nstates && Carc(co, x) in t.cnfa.states[s] && x < t.cnfa.nstates
    ensures x in t.Step(S, co, pos)
  {
    assert HasArc(t.cnfa, S, co, x);
    assert x in Move(t.cnfa, S, co);
  }

  lemma LoopArc(q: Pairing, co: nat)
    requires q.Ok() && !Anchored(q.A, q.Pre(), q.bos0, q.bos1) && co in q.rainbow + {q.bos0, q.bos1} && co < q.s.cnfa.ncolors
    ensures q.Pre() < q.s.cnfa.nstates == |q.s.cnfa.states| && Carc(co, q.Pre()) in q.s.cnfa.states[q.Pre()]
  {
    var a := Arc(PLAIN, co, q.Pre(), q.Pre());
    assert a in q.A0();
    assert a == a.(from := Orig(q.orig, a.from), to := Orig(q.orig, a.to));
    assert a in q.AS;
  }

  /** First a shot with the search NFA, then the main NFA from every start it leaves open. */
  method SimpleFind(m: Target, s: Target, shorter: bool, nmatch: nat, small: bool, ghost q: Pairing)
    returns (st: Status, so: nat, eo: nat)
    requires q.Ok() && q.m == m && q.s == s
    requires m.cnfa.NoShortcut() && s.cnfa.NoShortcut()
    ensures st == Okay <==> SomeMatch(m)
    ensures st == Okay && nmatch > 0 ==> Leftmost(m, shorter, so, eo)
  {
    hide Dfa.Valid, Target.Accepts, Target.After, Pairing.Ok, Target.NoProgressSet, Cnfa.NoShortcut, Target.Valid, Leftmost;
    PairShape(q);
    SearchHasRoom(q, small);
    so, eo := 0, 0;
    var sd := new Dfa(s, CacheSize(s.cnfa, small));
    var close, cold, _ := sd.Shortest(0, 0, |m.text|);
    ghost var cur := if close != NIL && close < |m.text| then close + 1 else |m.text|;
    SearchBounds(q, close, cold, cur);
    if close == NIL {
      return NoMatch, so, eo;
    }
    if nmatch == 0 {
      return Okay, so, eo;
    }
    var d := new Dfa(m, CacheSize(m.cnfa, small));
    var begin := cold;
    while begin <= close
      invariant cold <= begin <= close + 1 && d.Valid() && d.t == m && fresh(d) && fresh(d.ssets)
      invariant forall b, e :: 0 <= b < begin && b <= e <= |m.text| ==> !m.Accepts(b, e)
    {
      var end := TryAt(d, begin, shorter);
      if end != NIL {
        LeftmostFound(m, shorter, begin, end);
        return Okay, begin, end;
      }
      begin := begin + 1;
    }
    assert false;
  }

  /** The preferred match that starts at begin, or NIL. */
  method TryAt(d: Dfa, begin: nat, shorter: bool) returns (end: int)
    requires d.Valid() && begin <= |d.t.text|
    modifies d, d.ssets
    ensures d.Valid()
    ensures end == NIL <==> forall e :: begin <= e <= |d.t.text| ==> !d.t.Accepts(begin, e)
    ensures end != NIL ==> begin <= end <= |d.t.text| && d.t.Accepts(begin, end)
    ensures end != NIL ==> forall e :: begin <= e <= |d.t.text| && d.t.Accepts(begin, e) ==> if shorter then end <= e else e <= end
  {
    hide Dfa.Valid, Target.Accepts, Target.After;
    var cold, hitend;
    if shorter {
      end, cold, hitend := d.Shortest(begin, begin, |d.t.text|);
    } else {
      end, hitend := d.Longest(begin, |d.t.text|);
    }
  }

  /** What the preliminary search says about all matches. */
  lemma SearchBounds(q: Pairing, close: int, cold: int, cur: nat)
    requires q.Ok() && q.m.cnfa.NoShortcut()
    requires cur == if close != NIL && close < |q.m.text| then close + 1 else |q.m.text|
    requires close != NIL ==> 0 <= close <= |q.m.text| && q.s.Accepts(0, close)
    requires forall e :: 0 <= e <= |q.m.text| && q.s.Accepts(0, e) ==> close != NIL && close <= e
    requires close != NIL ==> 0 <= cold <= cur && (cold == 0 || q.s.NoProgressSet(q.s.After(0, cold)))
    ensures close == NIL <==> !SomeMatch(q.m)
    ensures close != NIL ==> cold <= close + 1 && exists b :: cold <= b <= close && q.m.Accepts(b, close)
    ensures close != NIL ==> forall b, e :: 0 <= b < cold && b <= e <= |q.m.text| ==> !q.m.Accepts(b, e)
  {
    hide Target.Accepts, Target.After, Pairing.Ok, Target.NoProgressSet, Cnfa.NoShortcut, Target.Valid;
    PairShape(q);
    forall b, e | 0 <= b <= e <= |q.m.text| && q.m.Accepts(b, e) ensures close != NIL && cold <= b && close <= e {
      SearchFinds(q, e);
      ColdIsSafe(q, cold, cur, b, e);
    }
    if close != NIL {
      SearchFinds(q, close);
      var b :| 0 <= b <= close && q.m.Accepts(b, close);
      assert cold <= b;
    }
  }

  lemma LeftmostFound(m: Target, shorter: bool, so: nat, eo: nat)
    requires m.Valid() && so <= eo <= |m.text| && m.Accepts(so, eo)
    requires forall b, e :: 0 <= b < so && b <= e <= |m.text| ==> !m.Accepts(b, e)
    requires forall e :: so <= e <= |m.text| && m.Accepts(so, e) ==> if shorter then eo <= e else e <= eo
    ensures Leftmost(m, shorter, so, eo) && SomeMatch(m)
  {
  }

  // ---------------------------------------------------------------- from the optimized NFA to the match

  /** What the optimizer leaves: plain arcs, pre without in-arcs, post without out-arcs, no arc from
      one to the other, states numbered without gaps. */
  ghost predicate Optimized(n: Nfa, ncolors: nat)
    reads n
  {
    && n.Valid() && (forall s: nat :: s < n.nstates ==> s in n.states)
    && (forall a :: a in n.arcs ==> a.ty == PLAIN && a.co < ncolors && a.to != n.pre && a.from != n.post
                                    && !(a.from == n.pre && a.to == n.post))
  }

  /** The NFA with arcs A accepts text[b..e], read with a colour of context on each side. */
  ghost predicate Matches(A: set<Arc>, pre: nat, post: nat, text: seq<nat>, bos: nat, eos: nat, b: nat, e: nat)
    requires b <= e <= |text|
  {
    Accepted(A, pre, post, ([bos] + text + [eos])[b..e + 2])
  }

  /** Compacts the NFA, makes the search NFA out of it, compacts that, and searches. */
  method Find(n: Nfa, ncolors: nat, rainbow: set<nat>, bos0: nat, bos1: nat,
              text: seq<nat>, bos: nat, eos: nat, shorter: bool, small: bool)
    returns (st: Status, so: nat, eo: nat)
    requires Optimized(n, ncolors)
    requires (forall c :: c in rainbow ==> c < ncolors) && bos0 < ncolors && bos1 < ncolors && eos < ncolors
    requires bos0 !in rainbow && bos1 !in rainbow && eos !in rainbow && eos != bos0 && eos != bos1
    requires (bos == bos0 || bos == bos1) && forall i :: 0 <= i < |text| ==> text[i] in rainbow
    modifies n
    ensures st == Okay <==> exists b, e :: 0 <= b <= e <= |text| && Matches(old(n.arcs), n.pre, n.post, text, bos, eos, b, e)
    ensures st == Okay ==> so <= eo <= |text| && Matches(old(n.arcs), n.pre, n.post, text, bos, eos, so, eo)
    ensures st == Okay ==> forall b, e :: 0 <= b < so && b <= e <= |text| ==> !Matches(old(n.arcs), n.pre, n.post, text, bos, eos, b, e)
    ensures st == Okay ==> forall e :: so <= e <= |text| && Matches(old(n.arcs), n.pre, n.post, text, bos, eos, so, e) ==>
              if shorter then eo <= e else e <= eo
  {
    hide Matches, SplitOf, Compacts, Pairing.Ok, Leftmost, NeedsSplit, Accepted, Target.After, Target.Accepts;
    ghost var A := n.arcs;
    var main := Compact(n, ncolors);
    ghost var nst := n.nstates;
    ghost var orig := MakeSearch(n, rainbow, bos0, bos1);
    SplitIsPlain(A, n.arcs, orig, n.pre, rainbow, bos0, bos1, ncolors);
    var search := Compact(n, ncolors);
    var noLacons := (i: nat, p: nat) => false;
    var m, s := Target(main, text, bos, eos, noLacons), Target(search, text, bos, eos, noLacons);
    ghost var q := Pairing(m, s, A, n.arcs, orig, rainbow, bos0, bos1);
    PairingOk(q, ncolors, nst);
    st, so, eo := SimpleFind(m, s, shorter, 1, small, q);
    forall b, e | 0 <= b <= e <= |text| ensures m.Accepts(b, e) <==> Matches(A, n.pre, n.post, text, bos, eos, b, e) {
      MatchesIsAccepts(q, b, e);
    }
    if st == Okay {
      LeftmostMeans(m, shorter, so, eo);
    }
  }

  /** The search NFA has plain arcs only, too. */
  lemma SplitIsPlain(A: set<Arc>, AS: set<Arc>, orig: map<nat, nat>, pre: nat, rainbow: set<nat>, bos0: nat, bos1: nat, ncolors: nat)
    requires forall a :: a in A ==> a.ty == PLAIN && a.co < ncolors
    requires (forall c :: c in rainbow ==> c < ncolors) && bos0 < ncolors && bos1 < ncolors
    requires SplitOf(WithLoops(A, pre, rainbow, bos0, bos1), AS, orig, pre)
    ensures forall a :: a in AS ==> a.ty == PLAIN && a.co < ncolors
  {
    forall a | a in AS ensures a.ty == PLAIN && a.co < ncolors {
      assert a.(from := Orig(orig, a.from), to := Orig(orig, a.to)) in WithLoops(A, pre, rainbow, bos0, bos1);
    }
  }

  lemma PairingOk(q: Pairing, ncolors: nat, nst: nat)
    requires q.m.text == q.s.text && q.m.bos == q.s.bos && q.m.eos == q.s.eos && q.m.cnfa.ncolors == q.s.cnfa.ncolors == ncolors
    requires q.m.cnfa.pre == q.s.cnfa.pre && q.m.cnfa.post == q.s.cnfa.post
    requires forall a :: a in q.A ==> a.ty == PLAIN && a.to != q.Pre() && a.from != q.m.cnfa.post
                                      && !(a.from == q.Pre() && a.to == q.m.cnfa.post)
    requires PlainOnly(q.AS)
    requires ColorsOk(q.m, q.rainbow, q.bos0, q.bos1)
    requires (forall c :: c in q.rainbow ==> c < ncolors) && q.m.bos < ncolors && q.m.eos < ncolors
    requires Compacts(q.A, q.Pre(), q.m.cnfa.post, q.m.cnfa) && Compacts(q.AS, q.Pre(), q.m.cnfa.post, q.s.cnfa)
    requires q.m.cnfa.nstates == nst
    requires SplitOf(q.A0(), q.AS, q.orig, q.Pre())
    requires forall s :: s in q.orig.Values <==> NeedsSplit(q.A0(), q.Pre(), s)
    requires forall c :: c in q.orig ==> c >= nst
    ensures q.Ok() && q.m.cnfa.NoShortcut() && q.s.cnfa.NoShortcut()
  {
    assert q.m.cnfa.post !in q.orig.Values by {
      assert !NeedsSplit(q.A0(), q.Pre(), q.m.cnfa.post);
    }
    PlainNoShortcut(q.A, q.m.cnfa);
    forall a | a in q.AS && a.from == q.Pre() ensures a.to != q.m.cnfa.post {
      assert a.(from := Orig(q.orig, a.from), to := Orig(q.orig, a.to)) in q.A0();
    }
    PlainNoShortcut(q.AS, q.s.cnfa);
  }

  lemma PlainNoShortcut(A: set<Arc>, c: Cnfa)
    requires Compacts(A, c.pre, c.post, c) && PlainOnly(A)
    requires forall a :: a in A && a.from == c.pre ==> a.to != c.post
    ensures c.NoShortcut()
  {
    forall k | 0 <= k < |c.states[c.pre]| && c.states[c.pre][k].co < c.ncolors ensures c.states[c.pre][k].to != c.post {
      var ca := c.states[c.pre][k];
      assert Carc(ca.co, ca.to) in c.states[c.pre];
      assert Arc(PLAIN, ca.co, c.pre, ca.to) in A;
    }
    forall s, k | 0 <= s < c.nstates && 0 <= k < |c.states[s]| ensures c.states[s][k].co < c.ncolors {
      assert !c.haslacons;
    }
  }

  lemma MatchesIsAccepts(q: Pairing, b: nat, e: nat)
    requires q.Ok() && b <= e <= |q.m.text|
    ensures q.m.Accepts(b, e) <==> Matches(q.A, q.m.cnfa.pre, q.m.cnfa.post, q.m.text, q.m.bos, q.m.eos, b, e)
  {
    AcceptsIsAccepted(q.m, q.A, b, e);
  }

  lemma LeftmostMeans(m: Target, shorter: bool, so: nat, eo: nat)
    requires m.Valid() && Leftmost(m, shorter, so, eo)
    ensures so <= eo <= |m.text| && m.Accepts(so, eo)
    ensures forall b, e :: 0 <= b < so && b <= e <= |m.text| ==> !m.Accepts(b, e)
    ensures forall e :: so <= e <= |m.text| && m.Accepts(so, e) ==> if shorter then eo <= e else e <= eo
  {
  }
}
