/** What the search NFA is for: where it finds that a match ends, and why no
    match starts before its last no-progress position. */
module SearchNfa {
  import opened NfaGraph
  import opened CompactNfa
  import opened ColorRuns
  import opened SearchConversion

  /** The padded colours i..j-1 of the string. */
  ghost function Word(t: Target, i: nat, j: nat): seq<nat>
    requires i <= j <= |t.text| + 2
  {
    ([t.bos] + t.text + [t.eos])[i..j]
  }

  ghost predicate PlainOnly(A: set<Arc>) {
    forall a :: a in A ==> a.ty == PLAIN
  }

  lemma MoveIsReads(c: Cnfa, A: set<Arc>, S: set<nat>, co: nat)
    requires Compacts(A, c.pre, c.post, c) && co < c.ncolors && S <= Below(c.nstates)
    ensures Move(c, S, co) == Reads(A, S, co)
  {
    forall t: nat ensures t in Move(c, S, co) <==> t in Reads(A, S, co) {
      if t in Move(c, S, co) {
        var s :| s in S && s < c.nstates && Carc(co, t) in c.states[s];
        assert Arc(PLAIN, co, s, t) in A;
      }
      if t in Reads(A, S, co) {
        var a :| a in A && a.ty == PLAIN && a.co == co && a.from in S && a.to == t;
        assert a == Arc(PLAIN, co, a.from, t);
        assert Carc(co, t) in c.states[a.from];
        assert HasArc(c, S, co, t);
      }
    }
  }

  lemma NoConstraints(t: Target, W: set<nat>, pos: nat)
    requires t.Valid() && !t.cnfa.haslacons && W <= Below(t.cnfa.nstates)
    ensures t.LaClosure(W, pos) == W
  {
    assert t.LaClosed(W, pos);
    assert t.IsClosure(W, pos, W);
    ClosureUnique(t, W, pos, W);
  }

  /** The executor's simulation is the run of the NFA the compact form was made from. */
  lemma {:induction false} AfterIsRun(t: Target, A: set<Arc>, start: nat, i: nat)
    requires t.Valid() && Compacts(A, t.cnfa.pre, t.cnfa.post, t.cnfa) && PlainOnly(A) && start <= i <= |t.text| + 1
    ensures t.After(start, i) == Run(A, {t.cnfa.pre}, Word(t, start, i + 1)) <= Below(t.cnfa.nstates)
    decreases i
  {
    hide *;
    PlainTarget(t, A);
    var S := if i == start then {t.cnfa.pre} else t.After(start, i - 1);
    AfterStep(t, start, i);
    RunStep(t, A, start, i);
    if i > start {
      AfterIsRun(t, A, start, i - 1);
    }
    MoveIsReads(t.cnfa, A, S, t.Padded(i));
    StepIsMove(t, S, t.Padded(i), t.Where(i));
  }

  lemma PlainTarget(t: Target, A: set<Arc>)
    requires t.Valid() && Compacts(A, t.cnfa.pre, t.cnfa.post, t.cnfa) && PlainOnly(A)
    ensures t.cnfa.WellFormed() && !t.cnfa.haslacons && {t.cnfa.pre} <= Below(t.cnfa.nstates)
  {
  }

  lemma StepIsMove(t: Target, S: set<nat>, co: nat, pos: nat)
    requires t.Valid() && !t.cnfa.haslacons
    ensures t.Step(S, co, pos) == Move(t.cnfa, S, co) <= Below(t.cnfa.nstates)
  {
    hide Target.IsClosure, Move;
    MoveBelow(t.cnfa, S, co);
    NoConstraints(t, Move(t.cnfa, S, co), pos);
  }

  lemma MoveBelow(c: Cnfa, S: set<nat>, co: nat)
    requires c.WellFormed()
    ensures Move(c, S, co) <= Below(c.nstates)
  {
  }

  lemma RunStep(t: Target, A: set<Arc>, start: nat, i: nat)
    requires t.Valid() && start <= i <= |t.text| + 1
    ensures Run(A, {t.cnfa.pre}, Word(t, start, i + 1)) == Reads(A, Run(A, {t.cnfa.pre}, Word(t, start, i)), t.Padded(i))
    ensures Run(A, {t.cnfa.pre}, Word(t, start, start)) == {t.cnfa.pre}
    ensures t.Padded(i) < t.cnfa.ncolors
  {
    var w := Word(t, start, i + 1);
    assert w[..|w| - 1] == Word(t, start, i) && w[|w| - 1] == t.Padded(i);
    assert Word(t, start, start) == [];
  }

  /** The executor accepts a substring exactly when the NFA accepts its padded word. */
  lemma AcceptsIsAccepted(t: Target, A: set<Arc>, b: nat, e: nat)
    requires t.Valid() && Compacts(A, t.cnfa.pre, t.cnfa.post, t.cnfa) && PlainOnly(A) && b <= e <= |t.text|
    ensures t.Accepts(b, e) <==> Accepted(A, t.cnfa.pre, t.cnfa.post, Word(t, b, e + 2))
  {
    hide Compacts, PlainOnly, Target.After, Target.Valid, Run, Walk, Target.Step;
    AfterIsRun(t, A, b, e + 1);
    RunIsWalks(A, t.cnfa.pre, Word(t, b, e + 2), t.cnfa.post);
  }

  // ---------------------------------------------------------------- the split

  /** A0 is an NFA that nothing but pre itself leads back to the start of; A is A0 split. */
  ghost predicate Split(A0: set<Arc>, A: set<Arc>, orig: map<nat, nat>, pre: nat) {
    && SplitOf(A0, A, orig, pre)
    && (forall s :: s in orig.Values <==> NeedsSplit(A0, pre, s))
    && (forall a :: a in A0 ==> a.from !in orig && a.to !in orig && (a.to == pre ==> a.from == pre))
    && pre !in orig
  }

  /** The split NFA runs in lock step with the original. */
  lemma {:induction false} SplitRun(A0: set<Arc>, A: set<Arc>, orig: map<nat, nat>, pre: nat, w: seq<nat>)
    requires Split(A0, A, orig, pre)
    ensures forall x :: x in Run(A, {pre}, w) ==> Orig(orig, x) in Run(A0, {pre}, w)
    ensures forall y :: y in Run(A0, {pre}, w) ==> exists x :: x in Run(A, {pre}, w) && Orig(orig, x) == y
  {
    if w == [] {
      assert pre in Run(A, {pre}, w) && Orig(orig, pre) == pre;
    } else {
      var u, co := w[..|w| - 1], w[|w| - 1];
      SplitRun(A0, A, orig, pre, u);
      forall x | x in Run(A, {pre}, w) ensures Orig(orig, x) in Run(A0, {pre}, w) {
        var a :| a in A && a.ty == PLAIN && a.co == co && a.from in Run(A, {pre}, u) && a.to == x;
        var b := a.(from := Orig(orig, a.from), to := Orig(orig, a.to));
        assert b in A0;
      }
      forall y | y in Run(A0, {pre}, w) ensures exists x :: x in Run(A, {pre}, w) && Orig(orig, x) == y {
        var b :| b in A0 && b.ty == PLAIN && b.co == co && b.from in Run(A0, {pre}, u) && b.to == y;
        var f :| f in Run(A, {pre}, u) && Orig(orig, f) == b.from;
        var a := Lift(A0, A, orig, pre, b, f);
        assert a.to in Run(A, {pre}, w);
      }
    }
  }

  /** An arc of the original leaves every copy of its source. */
  lemma Lift(A0: set<Arc>, A: set<Arc>, orig: map<nat, nat>, pre: nat, b: Arc, f: nat) returns (a: Arc)
    requires Split(A0, A, orig, pre) && b in A0 && Orig(orig, f) == b.from
    ensures a in A && a == b.(from := f, to := a.to) && Orig(orig, a.to) == b.to
    ensures a.to in orig <==> f != pre && b.to in orig.Values
  {
    if f != pre && b.to in orig.Values {
      var c :| c in orig && orig[c] == b.to;
      a := b.(from := f, to := c);
    } else {
      a := b.(from := f);
    }
    assert a.(from := Orig(orig, a.from), to := Orig(orig, a.to)) == b;
  }

  /** Whoever left the start by reading u can read one more colour only into a state that pre has no arc to. */
  lemma ProgressShows(A0: set<Arc>, A: set<Arc>, orig: map<nat, nat>, pre: nat, u: seq<nat>, b: Arc) returns (x: nat)
    requires Split(A0, A, orig, pre)
    requires b in A0 && b.ty == PLAIN && b.from in Run(A0, {pre}, u) && b.from != pre
    ensures x in Run(A, {pre}, u + [b.co]) && x != pre && !exists a :: a in A && a.from == pre && a.to == x
  {
    SplitRun(A0, A, orig, pre, u);
    var f :| f in Run(A, {pre}, u) && Orig(orig, f) == b.from;
    var a := Lift(A0, A, orig, pre, b, f);
    x := a.to;
    assert (u + [b.co])[..|u|] == u;
    NotFirst(A0, A, orig, pre, a, b);
  }

  lemma NotFirst(A0: set<Arc>, A: set<Arc>, orig: map<nat, nat>, pre: nat, a: Arc, b: Arc)
    requires Split(A0, A, orig, pre) && b in A0 && b.from != pre
    requires a in A && Orig(orig, a.to) == b.to && Orig(orig, a.from) == b.from
    ensures !exists d :: d in A && d.from == pre && d.to == a.to
  {
    forall d | d in A && d.from == pre ensures d.to != a.to {
      if d.to == a.to {
        var d0 := d.(from := Orig(orig, d.from), to := Orig(orig, d.to));
        assert d0 in A0 && d0.from == pre && d0.to == b.to;
        assert NeedsSplit(A0, pre, b.to);
        assert false;
      }
    }
  }

  // ---------------------------------------------------------------- the implicit .*

  /** The colours of the string: text colours are real, and the four end markers are none of them. */
  ghost predicate ColorsOk(t: Target, rainbow: set<nat>, bos0: nat, bos1: nat) {
    && (t.bos == bos0 || t.bos == bos1)
    && (forall i :: 0 <= i < |t.text| ==> t.text[i] in rainbow)
    && bos0 !in rainbow && bos1 !in rainbow && t.eos !in rainbow && t.eos != bos0 && t.eos != bos1
  }

  lemma LoopsAreOut(A: set<Arc>, pre: nat, rainbow: set<nat>, bos0: nat, bos1: nat, S: set<nat>, co: nat)
    requires !Anchored(A, pre, bos0, bos1)
    ensures var A0 := WithLoops(A, pre, rainbow, bos0, bos1);
            Reads(A0, S, co) == Reads(A, S, co) + (if pre in S && co in rainbow + {bos0, bos1} then {pre} else {})
  {
    var A0 := WithLoops(A, pre, rainbow, bos0, bos1);
    if pre in S && co in rainbow + {bos0, bos1} {
      assert Arc(PLAIN, co, pre, pre) in A0;
    }
  }

  /** The states reached by reading padded colours b..j-1. */
  ghost function RunFrom(t: Target, A: set<Arc>, b: nat, j: nat): set<nat>
    requires b <= j <= |t.text| + 2
  {
    Run(A, {t.cnfa.pre}, Word(t, b, j))
  }

  lemma RunFromNext(t: Target, A: set<Arc>, b: nat, j: nat)
    requires b <= j <= |t.text| + 1
    ensures RunFrom(t, A, b, j + 1) == Reads(A, RunFrom(t, A, b, j), t.Padded(j))
    ensures RunFrom(t, A, j, j) == {t.cnfa.pre}
  {
    var w := Word(t, b, j + 1);
    assert w[..|w| - 1] == Word(t, b, j) && w[|w| - 1] == t.Padded(j);
    assert Word(t, j, j) == [];
  }

  /** Where the run with the implicit .* in front can be after j colours. */
  ghost predicate Somewhere(t: Target, A: set<Arc>, anchored: bool, j: nat, y: nat)
    requires j <= |t.text| + 2
  {
    (y == t.cnfa.pre && (j == 0 || (!anchored && j <= |t.text| + 1)))
    || exists b :: 0 <= b < j && y in RunFrom(t, A, b, j)
  }

  /** With the implicit .* in front, the run from the beginning of the string is the union of the
      runs from everywhere. */
  lemma {:induction false} StartAnywhere(t: Target, A: set<Arc>, rainbow: set<nat>, bos0: nat, bos1: nat, j: nat)
    requires j <= |t.text| + 2 && ColorsOk(t, rainbow, bos0, bos1)
    requires forall a :: a in A ==> a.to != t.cnfa.pre
    ensures var A0 := WithLoops(A, t.cnfa.pre, rainbow, bos0, bos1);
            forall y: nat :: y in RunFrom(t, A0, 0, j) <==> Somewhere(t, A, Anchored(A, t.cnfa.pre, bos0, bos1), j, y)
  {
    var A0 := WithLoops(A, t.cnfa.pre, rainbow, bos0, bos1);
    if j == 0 {
      RunFromNext(t, A0, 0, 0);
    } else {
      StartAnywhere(t, A, rainbow, bos0, bos1, j - 1);
      RunFromNext(t, A0, 0, j - 1);
      if Anchored(A, t.cnfa.pre, bos0, bos1) {
        forall b | 0 < b < j ensures RunFrom(t, A, b, j) == {} {
          Hopeless(t, A, rainbow, bos0, bos1, b, j);
        }
        forall y: nat ensures y in RunFrom(t, A0, 0, j) <==> Somewhere(t, A, true, j, y) {
          if y in RunFrom(t, A, 0, j) {
            RunFromNext(t, A, 0, j - 1);
          }
        }
      } else {
        assert Everywhere(t, A, j - 1, RunFrom(t, A0, 0, j - 1));
        forall y: nat ensures y in RunFrom(t, A0, 0, j) <==> Somewhere(t, A, false, j, y) {
          StartAnywhereStep(t, A, rainbow, bos0, bos1, j - 1, y);
        }
      }
    }
  }

  /** S is exactly where the run with the implicit .* in front can be after i colours. */
  ghost predicate Everywhere(t: Target, A: set<Arc>, i: nat, S: set<nat>)
    requires i <= |t.text| + 2
  {
    forall x: nat :: x in S <==> Somewhere(t, A, false, i, x)
  }

  lemma StartAnywhereStep(t: Target, A: set<Arc>, rainbow: set<nat>, bos0: nat, bos1: nat, i: nat, y: nat)
    requires i <= |t.text| + 1 && ColorsOk(t, rainbow, bos0, bos1)
    requires !Anchored(A, t.cnfa.pre, bos0, bos1)
    requires Everywhere(t, A, i, RunFrom(t, WithLoops(A, t.cnfa.pre, rainbow, bos0, bos1), 0, i))
    ensures y in RunFrom(t, WithLoops(A, t.cnfa.pre, rainbow, bos0, bos1), 0, i + 1) <==> Somewhere(t, A, false, i + 1, y)
  {
    hide *;
    var pre, co := t.cnfa.pre, t.Padded(i);
    var A0 := WithLoops(A, pre, rainbow, bos0, bos1);
    var S := RunFrom(t, A0, 0, i);
    RunFromNext(t, A0, 0, i);
    LoopsAreOut(A, pre, rainbow, bos0, bos1, S, co);
    LoopColors(t, rainbow, bos0, bos1, i);
    PreStays(t, A, i, S);
    if y in Reads(A, S, co) {
      StepThere(t, A, i, S, y);
    } else if Somewhere(t, A, false, i + 1, y) {
      StepBack(t, A, i, S, y);
    } else if y == pre {
      PreSomewhere(t, A, i + 1);
    }
  }

  lemma PreStays(t: Target, A: set<Arc>, i: nat, S: set<nat>)
    requires i <= |t.text| + 1 && Everywhere(t, A, i, S)
    ensures t.cnfa.pre in S
  {
    assert Somewhere(t, A, false, i, t.cnfa.pre);
  }

  lemma PreSomewhere(t: Target, A: set<Arc>, j: nat)
    requires j <= |t.text| + 2
    ensures j <= |t.text| + 1 ==> Somewhere(t, A, false, j, t.cnfa.pre)
  {
  }

  lemma StepThere(t: Target, A: set<Arc>, i: nat, S: set<nat>, y: nat)
    requires i <= |t.text| + 1 && Everywhere(t, A, i, S) && y in Reads(A, S, t.Padded(i))
    ensures Somewhere(t, A, false, i + 1, y)
  {
    hide RunFrom, Target.Padded;
    var a :| a in A && a.ty == PLAIN && a.co == t.Padded(i) && a.from in S && a.to == y;
    assert Somewhere(t, A, false, i, a.from);
    var b := StartEarlier(t, A, i, a);
  }

  lemma StepBack(t: Target, A: set<Arc>, i: nat, S: set<nat>, y: nat)
    requires i <= |t.text| + 1 && Everywhere(t, A, i, S) && Somewhere(t, A, false, i + 1, y)
    ensures y in Reads(A, S, t.Padded(i)) || (y == t.cnfa.pre && i <= |t.text|)
  {
    hide RunFrom, Target.Padded;
    var j := i + 1;
    if !(y == t.cnfa.pre && i <= |t.text|) {
      var b :| 0 <= b < j && y in RunFrom(t, A, b, j);
      RunFromNext(t, A, b, i);
      var a :| a in A && a.ty == PLAIN && a.co == t.Padded(i) && a.from in RunFrom(t, A, b, i) && a.to == y;
      assert Somewhere(t, A, false, i, a.from);
    }
  }

  lemma LoopColors(t: Target, rainbow: set<nat>, bos0: nat, bos1: nat, i: nat)
    requires i <= |t.text| + 1 && ColorsOk(t, rainbow, bos0, bos1)
    ensures t.Padded(i) in rainbow + {bos0, bos1} <==> i <= |t.text|
  {
  }

  lemma StartEarlier(t: Target, A: set<Arc>, i: nat, a: Arc) returns (b: nat)
    requires i <= |t.text| + 1 && a in A && a.ty == PLAIN && a.co == t.Padded(i)
    requires Somewhere(t, A, false, i, a.from)
    ensures b <= i && a.to in RunFrom(t, A, b, i + 1)
  {
    b := i;
    if a.from != t.cnfa.pre {
      b :| 0 <= b < i && a.from in RunFrom(t, A, b, i);
    }
    RunFromNext(t, A, b, i);
    assert a.to in RunFrom(t, A, b, i + 1);
  }

  /** An anchored NFA reads nothing that does not begin with a beginning-of-string colour. */
  lemma {:induction false} Hopeless(t: Target, A: set<Arc>, rainbow: set<nat>, bos0: nat, bos1: nat, b: nat, j: nat)
    requires 0 < b < j <= |t.text| + 2 && ColorsOk(t, rainbow, bos0, bos1) && Anchored(A, t.cnfa.pre, bos0, bos1)
    ensures RunFrom(t, A, b, j) == {}
    decreases j
  {
    RunFromNext(t, A, b, j - 1);
    if b < j - 1 {
      Hopeless(t, A, rainbow, bos0, bos1, b, j - 1);
    }
  }

  // ---------------------------------------------------------------- the search NFA in use

  /** m runs the NFA with arcs A, and s the search NFA made from it, with arcs AS, on the same string. */
  datatype Pairing = Pairing(m: Target, s: Target, A: set<Arc>, AS: set<Arc>, orig: map<nat, nat>,
                             rainbow: set<nat>, bos0: nat, bos1: nat)
  {
    ghost function Pre(): nat { m.cnfa.pre }

    ghost function A0(): set<Arc> { WithLoops(A, m.cnfa.pre, rainbow, bos0, bos1) }

    ghost predicate Ok() {
      && m.Valid() && s.Valid() && m.text == s.text && m.bos == s.bos && m.eos == s.eos
      && m.cnfa.pre == s.cnfa.pre && m.cnfa.post == s.cnfa.post
      && ColorsOk(m, rainbow, bos0, bos1)
      && PlainOnly(A) && PlainOnly(AS)
      && (forall a :: a in A ==> a.to != Pre() && a.from != m.cnfa.post)
      && Compacts(A, Pre(), m.cnfa.post, m.cnfa) && Compacts(AS, Pre(), m.cnfa.post, s.cnfa)
      && Split(A0(), AS, orig, Pre())
      && m.cnfa.post !in orig && m.cnfa.post !in orig.Values
    }
  }

  lemma SameWords(q: Pairing, B: set<Arc>, b: nat, j: nat)
    requires q.Ok() && b <= j <= |q.m.text| + 2
    ensures RunFrom(q.m, B, b, j) == RunFrom(q.s, B, b, j)
  {
  }

  lemma MainRun(q: Pairing, b: nat, i: nat)
    requires q.Ok() && b <= i <= |q.m.text| + 1
    ensures q.m.After(b, i) == RunFrom(q.m, q.A, b, i + 1)
  {
    AfterIsRun(q.m, q.A, b, i);
  }

  lemma SearchRun(q: Pairing, i: nat)
    requires q.Ok() && i <= |q.m.text| + 1
    ensures q.s.After(0, i) == RunFrom(q.m, q.AS, 0, i + 1) <= Below(q.s.cnfa.nstates)
  {
    AfterIsRun(q.s, q.AS, 0, i);
    SameWords(q, q.AS, 0, i + 1);
  }

  lemma LoopRun(q: Pairing, j: nat, y: nat)
    requires q.Ok() && j <= |q.m.text| + 2
    ensures y in RunFrom(q.m, q.A0(), 0, j) <==> Somewhere(q.m, q.A, Anchored(q.A, q.Pre(), q.bos0, q.bos1), j, y)
  {
    StartAnywhere(q.m, q.A, q.rainbow, q.bos0, q.bos1, j);
  }

  lemma PostRun(q: Pairing, j: nat)
    requires q.Ok() && j <= |q.m.text| + 2
    ensures q.m.cnfa.post in RunFrom(q.m, q.AS, 0, j) <==> q.m.cnfa.post in RunFrom(q.m, q.A0(), 0, j)
  {
    var post := q.m.cnfa.post;
    SplitRun(q.A0(), q.AS, q.orig, q.Pre(), Word(q.m, 0, j));
    assert Orig(q.orig, post) == post;
    if post in RunFrom(q.m, q.A0(), 0, j) {
      var x :| x in Run(q.AS, {q.Pre()}, Word(q.m, 0, j)) && Orig(q.orig, x) == post;
      assert x == post;
    }
  }

  /** The search run from the beginning of the string is in its goal after colour i exactly when some
      main run that started at or before i is. */
  lemma SearchEnds(q: Pairing, i: nat)
    requires q.Ok() && i <= |q.m.text| + 1
    ensures q.m.cnfa.post in q.s.After(0, i) <==> exists b :: 0 <= b <= i && q.m.cnfa.post in q.m.After(b, i)
  {
    var post := q.m.cnfa.post;
    SearchRun(q, i);
    PostRun(q, i + 1);
    LoopRun(q, i + 1, post);
    hide *;
    assert post in q.s.After(0, i) <==> Somewhere(q.m, q.A, Anchored(q.A, q.Pre(), q.bos0, q.bos1), i + 1, post);
    forall b | 0 <= b <= i ensures q.m.After(b, i) == RunFrom(q.m, q.A, b, i + 1) {
      MainRun(q, b, i);
    }
    SomewhereEnds(q, i);
  }

  lemma SomewhereEnds(q: Pairing, i: nat)
    requires q.Ok() && i <= |q.m.text| + 1
    requires forall b :: 0 <= b <= i ==> q.m.After(b, i) == RunFrom(q.m, q.A, b, i + 1)
    ensures Somewhere(q.m, q.A, Anchored(q.A, q.Pre(), q.bos0, q.bos1), i + 1, q.m.cnfa.post)
            <==> exists b :: 0 <= b <= i && q.m.cnfa.post in q.m.After(b, i)
  {
    var j, post := i + 1, q.m.cnfa.post;
    assert post != q.m.cnfa.pre;
    hide Run, Target.After, Word, RunFrom, Anchored;
    if exists b :: 0 <= b < j && post in RunFrom(q.m, q.A, b, j) {
      var b :| 0 <= b < j && post in RunFrom(q.m, q.A, b, j);
      assert post in q.m.After(b, i);
    }
    if exists b :: 0 <= b <= i && post in q.m.After(b, i) {
      var b :| 0 <= b <= i && post in q.m.After(b, i);
      assert post in RunFrom(q.m, q.A, b, j);
    }
  }

  /** A run that is alive was alive before, and its first state is behind it for good. */
  lemma {:induction false} AliveBefore(t: Target, A: set<Arc>, b: nat, j: nat, k: nat)
    requires b < j <= k <= |t.text| + 2 && RunFrom(t, A, b, k) != {}
    requires forall a :: a in A ==> a.to != t.cnfa.pre
    ensures RunFrom(t, A, b, j) != {} && t.cnfa.pre !in RunFrom(t, A, b, j)
    decreases k
  {
    RunFromNext(t, A, b, k - 1);
    if j < k {
      AliveBefore(t, A, b, j, k - 1);
    }
  }

  lemma MatchAlive(q: Pairing, b: nat, e: nat, p: nat)
    requires q.Ok() && b <= e <= |q.m.text| && q.m.Accepts(b, e) && b < p <= e + 1
    ensures RunFrom(q.m, q.A, b, p + 1) != {} && q.Pre() !in RunFrom(q.m, q.A, b, p)
  {
    hide Target.After, Run, Word, RunFrom, Compacts, Split, Target.Valid, ColorsOk;
    assert q.m.cnfa.post in q.m.After(b, e + 1);
    MainRun(q, b, e + 1);
    assert q.m.cnfa.post in RunFrom(q.m, q.A, b, e + 2);
    AliveBefore(q.m, q.A, b, p + 1, e + 2);
    AliveBefore(q.m, q.A, b, p, e + 2);
  }

  /** A match that is still going on at position p has just read a colour there, away from pre. */
  lemma MatchStep(q: Pairing, b: nat, e: nat, p: nat) returns (a: Arc)
    requires q.Ok() && b <= e <= |q.m.text| && q.m.Accepts(b, e) && b < p <= e + 1
    ensures a in q.A && a.ty == PLAIN && a.co == q.m.Padded(p) && a.from != q.Pre()
    ensures a.from in RunFrom(q.m, q.A0(), 0, p)
  {
    MatchAlive(q, b, e, p);
    hide *;
    RunFromNext(q.m, q.A, b, p);
    a := SomeRead(q.A, RunFrom(q.m, q.A, b, p), q.m.Padded(p));
    LoopRun(q, p, a.from);
    IsSomewhere(q, b, p, a.from);
  }

  lemma SomeRead(A: set<Arc>, S: set<nat>, co: nat) returns (a: Arc)
    requires Reads(A, S, co) != {}
    ensures a in A && a.ty == PLAIN && a.co == co && a.from in S
  {
    var x :| x in Reads(A, S, co);
    a :| a in A && a.ty == PLAIN && a.co == co && a.from in S && a.to == x;
  }

  lemma IsSomewhere(q: Pairing, b: nat, j: nat, y: nat)
    requires q.Ok() && b < j <= |q.m.text| + 2 && y in RunFrom(q.m, q.A, b, j)
    ensures Somewhere(q.m, q.A, Anchored(q.A, q.Pre(), q.bos0, q.bos1), j, y)
  {
  }

  lemma InWord(q: Pairing, y: nat, p: nat)
    requires p <= |q.m.text| + 1 && y in Run(q.AS, {q.Pre()}, Word(q.m, 0, p) + [q.m.Padded(p)])
    ensures y in RunFrom(q.m, q.AS, 0, p + 1)
  {
    assert Word(q.m, 0, p) + [q.m.Padded(p)] == Word(q.m, 0, p + 1);
  }

  lemma NotAllMarked(t: Target, S: set<nat>, y: nat)
    requires t.Valid() && y in S && y < t.cnfa.nstates && !t.cnfa.noprogress[y]
    ensures !t.NoProgressSet(S)
  {
  }

  lemma NotMarked(q: Pairing, y: nat)
    requires q.Ok() && y < q.s.cnfa.nstates && y != q.Pre() && !exists a :: a in q.AS && a.from == q.Pre() && a.to == y
    ensures !q.s.cnfa.noprogress[y]
  {
  }

  /** No match starts before a position where the search run had made no progress, unless the match
      ended before that position. */
  lemma ColdBound(q: Pairing, b: nat, e: nat, p: nat)
    requires q.Ok() && b <= e <= |q.m.text| && q.m.Accepts(b, e) && b < p <= e + 1
    ensures !q.s.NoProgressSet(q.s.After(0, p))
  {
    var a := MatchStep(q, b, e, p);
    var y := ProgressShows(q.A0(), q.AS, q.orig, q.Pre(), Word(q.m, 0, p), a);
    assert q.Pre() == q.s.cnfa.pre && q.s.Valid();
    hide *;
    SearchRun(q, p);
    InWord(q, y, p);
    NotMarked(q, y);
    NotAllMarked(q.s, q.s.After(0, p), y);
  }
}
