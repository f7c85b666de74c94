/** The compacted NFA that the executor runs, and the plain subset simulation
    that gives it a meaning.

    A word is read as one lookbehind colour (the colour before the match, or a
    beginning-of-string colour), the colours of the matched text, and one
    lookahead colour (the colour after the match, or an end-of-string colour). */
module CompactNfa {

  /** An out-arc: a plain arc when co < ncolors, a lookahead constraint arc otherwise. */
  datatype Carc = Carc(co: nat, to: nat)

  datatype Cnfa = Cnfa(nstates: nat, ncolors: nat, pre: nat, post: nat,
                       haslacons: bool, noprogress: seq<bool>, states: seq<seq<Carc>>)
  {
    ghost predicate WellFormed() {
      && |states| == nstates == |noprogress|
      && pre < nstates && post < nstates && pre != post
      && noprogress[pre]
      && (forall s, k :: 0 <= s < nstates && 0 <= k < |states[s]| ==> states[s][k].to < nstates)
      && (haslacons || forall s, k :: 0 <= s < nstates && 0 <= k < |states[s]| ==> states[s][k].co < ncolors)
    }

    /** No plain arc leads straight from pre to post, and no constraint arc enters post. */
    ghost predicate NoShortcut()
      requires WellFormed()
    {
      && (forall k :: 0 <= k < |states[pre]| && states[pre][k].co < ncolors ==> states[pre][k].to != post)
      && (forall s, k :: 0 <= s < nstates && 0 <= k < |states[s]| && states[s][k].co >= ncolors
                         ==> states[s][k].to != post)
    }
  }

  /** The numbers below n. */
  ghost function Below(n: nat): (r: set<nat>)
    ensures forall s: nat :: s in r <==> s < n
  {
    if n == 0 then {} else Below(n - 1) + {n - 1}
  }

  ghost predicate HasArc(c: Cnfa, S: set<nat>, co: nat, t: nat)
    requires c.WellFormed()
  {
    exists s :: s in S && s < c.nstates && Carc(co, t) in c.states[s]
  }

  /** The states one plain arc of colour co away from S. */
  ghost function Move(c: Cnfa, S: set<nat>, co: nat): set<nat>
    requires c.WellFormed()
  {
    set t | t in Below(c.nstates) && HasArc(c, S, co, t)
  }

  /** The string an execution looks at, the colours it reads at the two ends,
      and what each lookahead constraint answers at each position. */
  datatype Target = Target(cnfa: Cnfa, text: seq<nat>, bos: nat, eos: nat, lacon: (nat, nat) -> bool)
  {
    ghost predicate Valid() {
      && cnfa.WellFormed()
      && bos < cnfa.ncolors && eos < cnfa.ncolors
      && (forall i :: 0 <= i < |text| ==> text[i] < cnfa.ncolors)
    }

    /** T is closed under the constraint arcs that hold at position pos. */
    ghost predicate LaClosed(T: set<nat>, pos: nat)
      requires Valid()
    {
      forall s, k :: s in T && s < cnfa.nstates && 0 <= k < |cnfa.states[s]|
                     && cnfa.states[s][k].co >= cnfa.ncolors
                     && lacon(cnfa.states[s][k].co - cnfa.ncolors, pos)
                     ==> cnfa.states[s][k].to in T
    }

    /** R is the least set of states around W closed under the constraint arcs that hold at pos. */
    ghost predicate IsClosure(W: set<nat>, pos: nat, R: set<nat>)
      requires Valid()
    {
      && W <= R && LaClosed(R, pos)
      && (forall T: set<nat> :: W <= T && LaClosed(T, pos) ==> R <= T)
    }

    ghost function LaClosure(W: set<nat>, pos: nat): (R: set<nat>)
      requires Valid() && W <= Below(cnfa.nstates)
      ensures IsClosure(W, pos, R)
    {
      ClosureExists(this, W, pos);
      var R :| IsClosure(W, pos, R);
      R
    }

    ghost function Step(S: set<nat>, co: nat, pos: nat): set<nat>
      requires Valid()
    {
      LaClosure(Move(cnfa, S, co), pos)
    }

    /** Colour number i of the string between its two end markers. */
    ghost function Padded(i: nat): nat
      requires i <= |text| + 1
    {
      if i == 0 then bos else if i == |text| + 1 then eos else text[i - 1]
    }

    /** Where constraints are evaluated once colour i has been read. */
    ghost function Where(i: nat): nat {
      if i <= |text| then i else |text|
    }

    /** The state set after reading the padded colours start..i (both included). */
    ghost function After(start: nat, i: nat): set<nat>
      requires Valid() && start <= i <= |text| + 1
    {
      Step(if i == start then {cnfa.pre} else After(start, i - 1), Padded(i), Where(i))
    }

    /** The NFA accepts text[start..end] with one colour of context on each side. */
    ghost predicate Accepts(start: nat, end: nat)
      requires Valid() && start <= end <= |text|
    {
      cnfa.post in After(start, end + 1)
    }

    ghost predicate NoProgressSet(S: set<nat>)
      requires Valid()
    {
      forall s :: s in S ==> s < cnfa.nstates && cnfa.noprogress[s]
    }
  }

  lemma ClosureExists(t: Target, W: set<nat>, pos: nat)
    requires t.Valid() && W <= Below(t.cnfa.nstates)
    ensures exists R :: t.IsClosure(W, pos, R)
  {
    var R := Below(t.cnfa.nstates);
    while exists T: set<nat> :: t.LaClosed(T, pos) && W <= T < R
      invariant W <= R <= Below(t.cnfa.nstates) && t.LaClosed(R, pos)
      decreases R
    {
      var T :| t.LaClosed(T, pos) && W <= T < R;
      R := T;
    }
    forall T: set<nat> | W <= T && t.LaClosed(T, pos) ensures R <= T {
      assert t.LaClosed(R * T, pos);
      assert W <= R * T <= R;
    }
    assert t.IsClosure(W, pos, R);
  }

  /** Two closures of the same set are equal. */
  lemma ClosureUnique(t: Target, W: set<nat>, pos: nat, R: set<nat>)
    requires t.Valid() && W <= Below(t.cnfa.nstates) && t.IsClosure(W, pos, R)
    ensures R == t.LaClosure(W, pos)
  {
  }

  lemma StepOfNone(t: Target, co: nat, pos: nat)
    requires t.Valid()
    ensures t.Step({}, co, pos) == {}
  {
    assert Move(t.cnfa, {}, co) == {};
    assert t.IsClosure({}, pos, {});
    ClosureUnique(t, {}, pos, {});
  }

  lemma AfterStep(t: Target, start: nat, i: nat)
    requires t.Valid() && start <= i <= |t.text| + 1
    ensures t.After(start, i) == t.Step(if i == start then {t.cnfa.pre} else t.After(start, i - 1), t.Padded(i), t.Where(i))
  {
  }

  /** Once the simulation is stuck it stays stuck. */
  lemma StuckForever(t: Target, start: nat, i: nat, j: nat)
    requires t.Valid() && start <= i <= j <= |t.text| + 1
    requires t.After(start, i) == {}
    ensures t.After(start, j) == {}
    decreases j
  {
    if i < j {
      StuckForever(t, start, i, j - 1);
      StepOfNone(t, t.Padded(j), t.Where(j));
    }
  }

  /** Without shortcuts the lookbehind colour alone never reaches post. */
  lemma NoMatchAtStart(t: Target, start: nat)
    requires t.Valid() && t.cnfa.NoShortcut() && start <= |t.text| + 1
    ensures t.cnfa.post !in t.After(start, start)
  {
    var W := Move(t.cnfa, {t.cnfa.pre}, t.Padded(start));
    var T := Below(t.cnfa.nstates) - {t.cnfa.post};
    assert t.LaClosed(T, t.Where(start));
    assert W <= T by {
      forall s | s in W ensures s != t.cnfa.post {
        var k :| 0 <= k < |t.cnfa.states[t.cnfa.pre]| && t.cnfa.states[t.cnfa.pre][k] == Carc(t.Padded(start), s);
      }
    }
  }
}
