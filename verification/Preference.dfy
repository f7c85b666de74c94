/** Without back references the submatches are determined by the expression:
    each concatenation takes the division its left child prefers most, each
    iteration the first division in the order of preference, each alternation
    the first alternative that accepts. */
module Preference {
  import opened CompactNfa
  import opened Divisions
  import opened Subexpr

  ghost predicate Preferred(v: Subject, t: Subre, b: nat, e: nat, pm0: seq<Span>, pm1: seq<Span>)
    decreases t, 1
  {
    match t
    case Plain(_, _) => pm1 == pm0
    case Backref(_, _, _, _, _) => false
    case Capture(_, _, n, l) => exists pm :: Preferred(v, l, b, e, pm0, pm) && pm1 == Recorded(pm, n, b, e)
    case Concat(_, _, l, r) => exists m :: BestSplit(v, t, b, m, e) && PreferredSplit(v, t, b, m, e, pm0, pm1)
    case Alt(_, _, alts) => PreferredAlt(v, alts, b, e, pm0, pm1)
    case Iter(_, _, l, min, _) =>
      if b == e && min == 0 then pm1 == pm0
      else exists d :: BestParts(v, t, d, b, e) && Preferred(v, l, d[|d| - 2], d[|d| - 1], Restart(t, pm0), pm1)
  }

  ghost predicate BestSplit(v: Subject, t: Subre, b: nat, m: nat, e: nat)
    requires t.Concat?
  {
    SplitAt(v, t, b, m, e) && forall m' :: SplitAt(v, t, b, m', e) ==> !Sooner(t.left.shorter, m', m)
  }

  ghost predicate BestParts(v: Subject, t: Subre, d: seq<nat>, b: nat, e: nat)
    requires t.Iter?
  {
    Parts(v, t, d, b, e) && forall d' :: Parts(v, t, d', b, e) && d' != d ==> Later(t.left.shorter, d', d)
  }

  ghost predicate PreferredSplit(v: Subject, t: Subre, b: nat, m: nat, e: nat, pm0: seq<Span>, pm1: seq<Span>)
    requires t.Concat?
    decreases t, 0
  {
    exists pm :: Preferred(v, t.left, b, m, pm0, pm) && Preferred(v, t.right, m, e, pm, pm1)
  }

  ghost predicate PreferredAlt(v: Subject, alts: Alternatives, b: nat, e: nat, pm0: seq<Span>, pm1: seq<Span>)
    decreases alts
  {
    alts.More? && if Acc(v, alts.left, b, e) then Preferred(v, alts.left, b, e, pm0, pm1)
                  else PreferredAlt(v, alts.rest, b, e, pm0, pm1)
  }

  // ---------------------------------------------------------------- what is found is preferred

  lemma {:induction false} FindsPreferred(v: Subject, t: Subre, b: nat, e: nat, pm0: seq<Span>, pm1: seq<Span>)
    requires NoBackref(t) && Consistent(v, t) && Acc(v, t, b, e) && Finds(v, t, b, e, pm0, pm1)
    ensures Preferred(v, t, b, e, pm0, pm1)
    decreases t
  {
    match t
    case Plain(_, _) =>
    case Capture(_, _, n, l) =>
      var pm :| Finds(v, l, b, e, pm0, pm) && pm1 == Recorded(pm, n, b, e);
      FindsPreferred(v, l, b, e, pm0, pm);
    case Concat(_, _, _, _) => SplitPreferred(v, t, b, e, pm0, pm1);
    case Alt(_, _, alts) => AltPreferred(v, alts, b, e, pm0, pm1);
    case Iter(_, _, l, min, max) =>
      if !(b == e && min == 0) {
        IterPreferred(v, t, b, e, pm0, pm1);
      }
  }

  lemma SplitVia(v: Subject, t: Subre, b: nat, m: nat, e: nat, pm0: seq<Span>, pm1: seq<Span>) returns (pm: seq<Span>)
    requires t.Concat? && SplitFinds(v, t, b, m, e, pm0, pm1)
    ensures Finds(v, t.left, b, m, pm0, pm) && Finds(v, t.right, m, e, pm, pm1)
  {
    pm :| Finds(v, t.left, b, m, pm0, pm) && Finds(v, t.right, m, e, pm, pm1);
  }

  lemma PreferredVia(v: Subject, t: Subre, b: nat, m: nat, e: nat, pm0: seq<Span>, pm1: seq<Span>) returns (pm: seq<Span>)
    requires t.Concat? && PreferredSplit(v, t, b, m, e, pm0, pm1)
    ensures Preferred(v, t.left, b, m, pm0, pm) && Preferred(v, t.right, m, e, pm, pm1)
  {
    pm :| Preferred(v, t.left, b, m, pm0, pm) && Preferred(v, t.right, m, e, pm, pm1);
  }

  lemma {:induction false} SplitPreferred(v: Subject, t: Subre, b: nat, e: nat, pm0: seq<Span>, pm1: seq<Span>)
    requires t.Concat? && NoBackref(t) && Consistent(v, t) && Finds(v, t, b, e, pm0, pm1)
    ensures Preferred(v, t, b, e, pm0, pm1)
    decreases t, 0
  {
    var m :| SplitAt(v, t, b, m, e) && SplitFinds(v, t, b, m, e, pm0, pm1)
             && forall m' :: SplitAt(v, t, b, m', e) && Sooner(t.left.shorter, m', m) ==> SplitFails(v, t, b, m', e, pm0);
    forall m' | SplitAt(v, t, b, m', e) ensures !Sooner(t.left.shorter, m', m) {
      SplitNeverFails(v, t, b, m', e, pm0);
    }
    var pm := SplitVia(v, t, b, m, e, pm0, pm1);
    FindsPreferred(v, t.left, b, m, pm0, pm);
    FindsPreferred(v, t.right, m, e, pm, pm1);
    assert BestSplit(v, t, b, m, e) && PreferredSplit(v, t, b, m, e, pm0, pm1);
  }

  lemma {:induction false} IterPreferred(v: Subject, t: Subre, b: nat, e: nat, pm0: seq<Span>, pm1: seq<Span>)
    requires t.Iter? && NoBackref(t) && Consistent(v, t) && Finds(v, t, b, e, pm0, pm1) && !(b == e && t.min == 0)
    ensures Preferred(v, t, b, e, pm0, pm1)
    decreases t, 0
  {
    hide Finds, Fails, PieceFails, Preferred, Consistent, NoBackref, Acc;
    var d := IterVia(v, t, b, e, pm0, pm1);
    forall d' | Parts(v, t, d', b, e) && d' != d ensures Later(t.left.shorter, d', d) {
      PieceNeverFails(v, t, d', pm0);
      LaterTotal(t.left.shorter, d, d', b, e);
    }
    var k := |d| - 1;
    assert Acc(v, t.left, d[k - 1], d[k]);
    IterChild(v, t);
    FindsPreferred(v, t.left, d[k - 1], d[k], Restart(t, pm0), pm1);
    IterIs(v, t, d, b, e, pm0, pm1);
  }

  lemma IterVia(v: Subject, t: Subre, b: nat, e: nat, pm0: seq<Span>, pm1: seq<Span>) returns (d: seq<nat>)
    requires t.Iter? && Finds(v, t, b, e, pm0, pm1) && !(b == e && t.min == 0)
    ensures Parts(v, t, d, b, e) && |d| >= 2 && Finds(v, t.left, d[|d| - 2], d[|d| - 1], Restart(t, pm0), pm1)
    ensures forall d' :: Parts(v, t, d', b, e) && Later(t.left.shorter, d, d') ==> PieceFails(v, t, d', pm0)
  {
    d :| Parts(v, t, d, b, e) && PiecesFind(v, t, d, pm0, pm1)
         && forall d' :: Parts(v, t, d', b, e) && Later(t.left.shorter, d, d') ==> PieceFails(v, t, d', pm0);
  }

  lemma IterChild(v: Subject, t: Subre)
    requires t.Iter? && NoBackref(t) && Consistent(v, t)
    ensures NoBackref(t.left) && Consistent(v, t.left)
  {
  }

  lemma IterIs(v: Subject, t: Subre, d: seq<nat>, b: nat, e: nat, pm0: seq<Span>, pm1: seq<Span>)
    requires t.Iter? && !(b == e && t.min == 0) && BestParts(v, t, d, b, e)
    requires |d| >= 2 && Preferred(v, t.left, d[|d| - 2], d[|d| - 1], Restart(t, pm0), pm1)
    ensures Preferred(v, t, b, e, pm0, pm1)
  {
  }

  lemma {:induction false} AltPreferred(v: Subject, alts: Alternatives, b: nat, e: nat, pm0: seq<Span>, pm1: seq<Span>)
    requires NoBackrefs(alts) && ConsistentAll(v, alts) && AltFinds(v, alts, b, e, pm0, pm1)
    ensures PreferredAlt(v, alts, b, e, pm0, pm1)
    decreases alts
  {
    if Acc(v, alts.left, b, e) {
      NeverFails(v, alts.left, b, e, pm0);
      FindsPreferred(v, alts.left, b, e, pm0, pm1);
    } else {
      AltPreferred(v, alts.rest, b, e, pm0, pm1);
    }
  }

  // ---------------------------------------------------------------- preference is unambiguous

  /** There is exactly one preferred outcome. */
  lemma {:induction false} PreferredUnique(v: Subject, t: Subre, b: nat, e: nat, pm0: seq<Span>, pm1: seq<Span>, pm2: seq<Span>)
    requires Preferred(v, t, b, e, pm0, pm1) && Preferred(v, t, b, e, pm0, pm2)
    ensures pm1 == pm2
    decreases t
  {
    match t
    case Plain(_, _) =>
    case Capture(_, _, n, l) =>
      var x :| Preferred(v, l, b, e, pm0, x) && pm1 == Recorded(x, n, b, e);
      var y :| Preferred(v, l, b, e, pm0, y) && pm2 == Recorded(y, n, b, e);
      PreferredUnique(v, l, b, e, pm0, x, y);
    case Concat(_, _, _, _) => SplitUnique(v, t, b, e, pm0, pm1, pm2);
    case Alt(_, _, alts) => AltUnique(v, alts, b, e, pm0, pm1, pm2);
    case Iter(_, _, _, min, _) =>
      if !(b == e && min == 0) {
        IterUnique(v, t, b, e, pm0, pm1, pm2);
      }
  }

  lemma {:induction false} SplitUnique(v: Subject, t: Subre, b: nat, e: nat, pm0: seq<Span>, pm1: seq<Span>, pm2: seq<Span>)
    requires t.Concat? && Preferred(v, t, b, e, pm0, pm1) && Preferred(v, t, b, e, pm0, pm2)
    ensures pm1 == pm2
    decreases t, 0
  {
    var m :| BestSplit(v, t, b, m, e) && PreferredSplit(v, t, b, m, e, pm0, pm1);
    var m' :| BestSplit(v, t, b, m', e) && PreferredSplit(v, t, b, m', e, pm0, pm2);
    assert !Sooner(t.left.shorter, m, m') && !Sooner(t.left.shorter, m', m);
    var x := PreferredVia(v, t, b, m, e, pm0, pm1);
    var y := PreferredVia(v, t, b, m, e, pm0, pm2);
    PreferredUnique(v, t.left, b, m, pm0, x, y);
    PreferredUnique(v, t.right, m, e, x, pm1, pm2);
  }

  lemma {:induction false} IterUnique(v: Subject, t: Subre, b: nat, e: nat, pm0: seq<Span>, pm1: seq<Span>, pm2: seq<Span>)
    requires t.Iter? && !(b == e && t.min == 0)
    requires Preferred(v, t, b, e, pm0, pm1) && Preferred(v, t, b, e, pm0, pm2)
    ensures pm1 == pm2
    decreases t, 0
  {
    hide Preferred, Parts, Later;
    var d := PreferredParts(v, t, b, e, pm0, pm1);
    var d' := PreferredParts(v, t, b, e, pm0, pm2);
    LaterAsymmetric(t.left.shorter, d, d');
    assert d == d';
    PreferredUnique(v, t.left, d[|d| - 2], d[|d| - 1], Restart(t, pm0), pm1, pm2);
  }

  lemma PreferredParts(v: Subject, t: Subre, b: nat, e: nat, pm0: seq<Span>, pm1: seq<Span>) returns (d: seq<nat>)
    requires t.Iter? && !(b == e && t.min == 0) && Preferred(v, t, b, e, pm0, pm1)
    ensures BestParts(v, t, d, b, e) && |d| >= 2 && Preferred(v, t.left, d[|d| - 2], d[|d| - 1], Restart(t, pm0), pm1)
  {
    d :| BestParts(v, t, d, b, e) && Preferred(v, t.left, d[|d| - 2], d[|d| - 1], Restart(t, pm0), pm1);
  }

  lemma {:induction false} AltUnique(v: Subject, alts: Alternatives, b: nat, e: nat, pm0: seq<Span>, pm1: seq<Span>, pm2: seq<Span>)
    requires PreferredAlt(v, alts, b, e, pm0, pm1) && PreferredAlt(v, alts, b, e, pm0, pm2)
    ensures pm1 == pm2
    decreases alts
  {
    if Acc(v, alts.left, b, e) {
      PreferredUnique(v, alts.left, b, e, pm0, pm1, pm2);
    } else {
      AltUnique(v, alts.rest, b, e, pm0, pm1, pm2);
    }
  }
}
