/** NFAs of two or three states, for which the cache holds fewer than seven
    entries: their runs do not reach enough state sets to fill it. */
module SmallNfas {
  import opened CompactNfa
  import opened CacheTracking
  import opened LazyDfa

  /** No arc leads back to the starting state. */
  ghost predicate NoReturn(c: Cnfa)
    requires c.WellFormed()
  {
    forall s, k :: 0 <= s < c.nstates && 0 <= k < |c.states[s]| ==> c.states[s][k].to != c.pre
  }

  /** Every run stays in the starting state, beside whatever else it reaches. */
  ghost predicate AlwaysPre(t: Target)
    requires t.Valid()
  {
    forall start: nat, i: nat {:trigger t.After(start, i)} :: start <= i <= |t.text| ==> t.cnfa.pre in t.After(start, i)
  }

  lemma AfterWithin(t: Target, start: nat, i: nat, T: set<nat>)
    requires t.Valid() && start <= i <= |t.text| + 1
    requires forall s, k :: 0 <= s < t.cnfa.nstates && 0 <= k < |t.cnfa.states[s]| ==> t.cnfa.states[s][k].to in T
    ensures t.After(start, i) <= T
  {
    var W := Move(t.cnfa, if i == start then {t.cnfa.pre} else t.After(start, i - 1), t.Padded(i));
    assert t.LaClosed(T, t.Where(i));
    forall x | x in W ensures x in T {
      var s: nat :| s < t.cnfa.nstates && Carc(t.Padded(i), x) in t.cnfa.states[s];
    }
    AfterStep(t, start, i);
  }

  lemma InRange(c: Cnfa)
    requires c.WellFormed()
    ensures forall s, k :: 0 <= s < c.nstates && 0 <= k < |c.states[s]| ==> c.states[s][k].to in Below(c.nstates)
  {
  }

  /** The non-empty sets of up to two states. */
  ghost function Pairs(x: nat, y: nat): (F: set<set<nat>>)
    ensures |F| <= 3 && (x == y ==> |F| <= 1)
    ensures forall S: set<nat> :: S <= {x, y} && S != {} ==> S in F
  {
    var F: set<set<nat>> := if x == y then {{x}} else {{x}, {y}, {x, y}};
    assert forall S: set<nat> :: S <= {x, y} && S != {} ==> S in F by {
      forall S: set<nat> | S <= {x, y} && S != {} ensures S in F {
        if x == y || y !in S {
          assert S == {x};
        } else if x !in S {
          assert S == {y};
        } else {
          assert S == {x, y};
        }
      }
    }
    F
  }

  /** The two other states of an NFA of at most three. */
  lemma Others(c: Cnfa) returns (x: nat, y: nat)
    requires c.WellFormed() && c.nstates <= 3
    ensures Below(c.nstates) == {c.pre, x, y}
    ensures x != c.pre && y != c.pre && (c.nstates == 2 ==> x == y)
  {
    if c.nstates == 2 {
      x, y := 1 - c.pre, 1 - c.pre;
      assert Below(2) == {0, 1};
    } else {
      x, y := (c.pre + 1) % 3, (c.pre + 2) % 3;
      assert Below(3) == {0, 1, 2};
    }
  }

  lemma FewWithoutReturn(t: Target)
    requires t.Valid() && NoReturn(t.cnfa) && t.cnfa.nstates <= 3
    ensures FewSets(t, 2 * t.cnfa.nstates - 2)
  {
    var x, y := Others(t.cnfa);
    var F := Pairs(x, y);
    forall start: nat, i: nat | start <= i <= |t.text| ensures t.After(start, i) in F + {{}, {t.cnfa.pre}} {
      InRange(t.cnfa);
      AfterWithin(t, start, i, Below(t.cnfa.nstates) - {t.cnfa.pre});
    }
    assert Covers(t, F);
  }

  lemma FewWithPre(t: Target)
    requires t.Valid() && AlwaysPre(t) && t.cnfa.nstates <= 3
    ensures FewSets(t, 2 * t.cnfa.nstates - 2)
  {
    hide Target.After, Move;
    var pre := t.cnfa.pre;
    var x, y := Others(t.cnfa);
    var F := set S | S in Pairs(x, y) :: S + {pre};
    PlusSize(Pairs(x, y), pre);
    forall start: nat, i: nat | start <= i <= |t.text| ensures t.After(start, i) in F + {{}, {pre}} {
      InRange(t.cnfa);
      AfterWithin(t, start, i, Below(t.cnfa.nstates));
      PlusPre(t.After(start, i), pre, x, y);
    }
    assert Covers(t, F);
  }

  lemma PlusPre(R: set<nat>, pre: nat, x: nat, y: nat)
    requires pre in R && R <= {pre, x, y} && x != pre && y != pre
    ensures R == {pre} || R in (set S | S in Pairs(x, y) :: S + {pre})
  {
    var S := R - {pre};
    assert R == S + {pre};
    if S != {} {
      assert S <= {x, y};
      assert S in Pairs(x, y);
    }
  }

  lemma {:induction false} PlusSize(G: set<set<nat>>, pre: nat)
    ensures |set S | S in G :: S + {pre}| <= |G|
  {
    if G != {} {
      var T :| T in G;
      PlusSize(G - {T}, pre);
      var F, F' := set S | S in G :: S + {pre}, set S | S in G - {T} :: S + {pre};
      assert F == F' + {T + {pre}};
    }
  }

  /** The cache that a DFA gets is always large enough. */
  lemma RoomForAny(t: Target, small: bool)
    requires t.Valid() && (NoReturn(t.cnfa) || AlwaysPre(t))
    ensures Roomy(t, CacheSize(t.cnfa, small))
  {
    if CacheSize(t.cnfa, small) < 7 {
      if NoReturn(t.cnfa) {
        FewWithoutReturn(t);
      } else {
        FewWithPre(t);
      }
    }
  }
}
