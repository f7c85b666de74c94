/** The subexpression tree of a regular expression, and what it means to
    dissect a stretch of the string according to it. */
module Subexpr {
  import opened CompactNfa
  import opened Divisions

  /** A recorded submatch. */
  datatype Span = Span(so: int, eo: int)

  const FREESTATE := -1
  const NoSpan := Span(FREESTATE, FREESTATE)

  /** An upper bound on repetitions. */
  datatype Max = Inf | AtMost(n: nat)

  /** A tree node with its compacted NFA and its preference for shorter matches. */
  datatype Subre =
    | Plain(cnfa: Cnfa, shorter: bool)
    | Backref(cnfa: Cnfa, shorter: bool, subno: nat, min: nat, max: Max)
    | Capture(cnfa: Cnfa, shorter: bool, subno: nat, left: Subre)
    | Concat(cnfa: Cnfa, shorter: bool, left: Subre, right: Subre)
    | Alt(cnfa: Cnfa, shorter: bool, alts: Alternatives)
    | Iter(cnfa: Cnfa, shorter: bool, left: Subre, min: nat, max: Max)

  /** A chain of alternatives. */
  datatype Alternatives = NoMore | More(left: Subre, rest: Alternatives)

  /** The string under examination, its colours, and the comparison of two characters. */
  datatype Subject = Subject(chars: seq<nat>, text: seq<nat>, bos: nat, eos: nat,
                             lacon: (nat, nat) -> bool, same: (nat, nat) -> bool)
  {
    function For(c: Cnfa): Target {
      Target(c, text, bos, eos, lacon)
    }
  }

  /** The NFA of a node accepts the stretch b..e. */
  ghost predicate Acc(v: Subject, t: Subre, b: nat, e: nat) {
    b <= e <= |v.text| && v.For(t.cnfa).Valid() && v.For(t.cnfa).Accepts(b, e)
  }

  /** The capture groups below a node. */
  ghost function Caps(t: Subre): set<nat> {
    match t
    case Plain(_, _) => {}
    case Backref(_, _, _, _, _) => {}
    case Capture(_, _, n, l) => {n} + Caps(l)
    case Concat(_, _, l, r) => Caps(l) + Caps(r)
    case Alt(_, _, alts) => CapsOfAll(alts)
    case Iter(_, _, l, _, _) => Caps(l)
  }

  ghost function CapsOfAll(alts: Alternatives): set<nat> {
    match alts
    case NoMore => {}
    case More(l, rest) => Caps(l) + CapsOfAll(rest)
  }

  // ---------------------------------------------------------------- submatch vectors

  /** The vector with the given groups cleared. */
  ghost function Zap(pm: seq<Span>, groups: set<nat>): (r: seq<Span>)
    ensures |r| == |pm|
    ensures forall i :: 0 <= i < |pm| ==> r[i] == if i in groups then NoSpan else pm[i]
  {
    seq(|pm|, i requires 0 <= i < |pm| => if i in groups then NoSpan else pm[i])
  }

  ghost predicate Unset(pm: seq<Span>, groups: set<nat>) {
    forall i :: 0 <= i < |pm| && i in groups ==> pm[i] == NoSpan
  }

  /** Records a submatch, if there is room for it. */
  ghost function Recorded(pm: seq<Span>, n: nat, b: nat, e: nat): (r: seq<Span>)
    ensures |r| == |pm| && forall i :: 0 <= i < |pm| ==> r[i] == if i == n then Span(b, e) else pm[i]
  {
    if n < |pm| then pm[n := Span(b, e)] else pm
  }

  ghost predicate Inside(s: Span, b: nat, e: nat) {
    b <= s.so <= s.eo <= e
  }

  /** From pm0 to pm only the given groups were cleared, or set to stretches inside b..e. */
  ghost predicate Touched(pm0: seq<Span>, pm: seq<Span>, groups: set<nat>, b: nat, e: nat) {
    && |pm| == |pm0|
    && forall i :: 0 <= i < |pm| && pm[i] != pm0[i] ==> i in groups && (pm[i] == NoSpan || Inside(pm[i], b, e))
  }

  // ---------------------------------------------------------------- back references

  ghost predicate Within(count: nat, min: nat, max: Max) {
    min <= count && (max.AtMost? ==> count <= max.n)
  }

  predicate Alike(v: Subject, x: seq<nat>, y: seq<nat>) {
    |x| == |y| && forall i :: 0 <= i < |x| ==> v.same(x[i], y[i])
  }

  /** whole is count copies of part, one after the other. */
  ghost predicate IsCopies(v: Subject, part: seq<nat>, whole: seq<nat>, count: nat) {
    if count == 0 then whole == []
    else |part| <= |whole| && Alike(v, part, whole[..|part|]) && IsCopies(v, part, whole[|part|..], count - 1)
  }

  /** b..e is between min and max copies of the stretch s. */
  ghost predicate Repeats(v: Subject, s: Span, b: nat, e: nat, min: nat, max: Max) {
    && 0 <= s.so <= s.eo <= |v.chars| && b <= e <= |v.chars|
    && exists count: nat :: Within(count, min, max) && IsCopies(v, v.chars[s.so..s.eo], v.chars[b..e], count)
  }

  // ---------------------------------------------------------------- iterations

  function MinMatches(min: nat): nat {
    if min == 0 then 1 else min
  }

  ghost function MaxMatches(min: nat, max: Max, len: nat): nat {
    var m := if max.AtMost? && len > max.n then max.n else len;
    if m < MinMatches(min) then MinMatches(min) else m
  }

  /** d divides b..e into pieces that the child's NFA accepts, in one of the ways an iteration considers. */
  ghost predicate Parts(v: Subject, t: Subre, d: seq<nat>, b: nat, e: nat)
    requires t.Iter?
  {
    && b <= e && Admissible(d, b, e, MinMatches(t.min), MaxMatches(t.min, t.max, e - b))
    && forall i :: 1 <= i < |d| ==> Acc(v, t.left, d[i - 1], d[i])
  }

  /** The midpoint m splits b..e into two stretches that the two children's NFAs accept. */
  ghost predicate SplitAt(v: Subject, t: Subre, b: nat, m: nat, e: nat)
    requires t.Concat?
  {
    Acc(v, t.left, b, m) && Acc(v, t.right, m, e)
  }

  // ---------------------------------------------------------------- the outcome of a dissection

  /** Dissecting b..e by t succeeds and turns the submatches pm0 into pm1. Concatenations and
      iterations take the first division, in the order of preference of the left child, that does
      not fail; alternations the first alternative. An alternative that failed may leave its own
      groups touched. */
  ghost predicate Finds(v: Subject, t: Subre, b: nat, e: nat, pm0: seq<Span>, pm1: seq<Span>)
    decreases t, 2
  {
    match t
    case Plain(_, _) => pm1 == pm0
    case Backref(_, _, n, min, max) => pm1 == pm0 && n < |pm0| && Repeats(v, pm0[n], b, e, min, max)
    case Capture(_, _, n, l) => exists pm :: Finds(v, l, b, e, pm0, pm) && pm1 == Recorded(pm, n, b, e)
    case Concat(_, _, l, _) =>
      exists m :: SplitAt(v, t, b, m, e) && SplitFinds(v, t, b, m, e, pm0, pm1)
                  && forall m' :: SplitAt(v, t, b, m', e) && Sooner(l.shorter, m', m) ==> SplitFails(v, t, b, m', e, pm0)
    case Alt(_, _, alts) => AltFinds(v, alts, b, e, pm0, pm1)
    case Iter(_, _, l, min, _) =>
      if b == e && min == 0 then pm1 == pm0
      else exists d :: Parts(v, t, d, b, e) && PiecesFind(v, t, d, pm0, pm1)
                       && forall d' :: Parts(v, t, d', b, e) && Later(l.shorter, d, d') ==> PieceFails(v, t, d', pm0)
  }

  /** Dissecting b..e by t fails: every division fails. */
  ghost predicate Fails(v: Subject, t: Subre, b: nat, e: nat, pm0: seq<Span>)
    decreases t, 2
  {
    match t
    case Plain(_, _) => false
    case Backref(_, _, n, min, max) => !(n < |pm0| && Repeats(v, pm0[n], b, e, min, max))
    case Capture(_, _, _, l) => Fails(v, l, b, e, pm0)
    case Concat(_, _, _, _) => forall m :: SplitAt(v, t, b, m, e) ==> SplitFails(v, t, b, m, e, pm0)
    case Alt(_, _, alts) => AltFails(v, alts, b, e, pm0)
    case Iter(_, _, _, min, _) =>
      !(b == e && min == 0) && forall d :: Parts(v, t, d, b, e) ==> PieceFails(v, t, d, pm0)
  }

  ghost predicate SplitFinds(v: Subject, t: Subre, b: nat, m: nat, e: nat, pm0: seq<Span>, pm1: seq<Span>)
    requires t.Concat?
    decreases t, 0
  {
    exists pm :: Finds(v, t.left, b, m, pm0, pm) && Finds(v, t.right, m, e, pm, pm1)
  }

  ghost predicate SplitFails(v: Subject, t: Subre, b: nat, m: nat, e: nat, pm0: seq<Span>)
    requires t.Concat?
    decreases t, 0
  {
    Fails(v, t.left, b, m, pm0) || exists pm :: Finds(v, t.left, b, m, pm0, pm) && Fails(v, t.right, m, e, pm)
  }

  ghost predicate AltFinds(v: Subject, alts: Alternatives, b: nat, e: nat, pm0: seq<Span>, pm1: seq<Span>)
    decreases alts, 1
  {
    alts.More? && ((Acc(v, alts.left, b, e) && Finds(v, alts.left, b, e, pm0, pm1))
                   || exists pm :: Skips(v, alts, b, e, pm0, pm) && AltFinds(v, alts.rest, b, e, pm, pm1))
  }

  ghost predicate AltFails(v: Subject, alts: Alternatives, b: nat, e: nat, pm0: seq<Span>)
    decreases alts, 1
  {
    alts.More? ==> exists pm :: Skips(v, alts, b, e, pm0, pm) && AltFails(v, alts.rest, b, e, pm)
  }

  /** The first alternative does not apply, or is tried in vain. */
  ghost predicate Skips(v: Subject, alts: Alternatives, b: nat, e: nat, pm0: seq<Span>, pm: seq<Span>)
    requires alts.More?
    decreases alts, 0
  {
    if Acc(v, alts.left, b, e) then Fails(v, alts.left, b, e, pm0) && Touched(pm0, pm, Caps(alts.left), b, e)
    else pm == pm0
  }

  /** The submatches with which each piece of an iteration is dissected. */
  ghost function Restart(t: Subre, pm0: seq<Span>): seq<Span>
    requires t.Iter?
  {
    Zap(pm0, Caps(t.left))
  }

  ghost predicate CanFind(v: Subject, t: Subre, b: nat, e: nat, pm0: seq<Span>)
    requires t.Iter?
    decreases t, 0
  {
    exists pm :: Finds(v, t.left, b, e, Restart(t, pm0), pm)
  }

  /** Every piece is dissected, and the submatches are those of the last piece. */
  ghost predicate PiecesFind(v: Subject, t: Subre, d: seq<nat>, pm0: seq<Span>, pm1: seq<Span>)
    requires t.Iter?
    decreases t, 1
  {
    && |d| >= 2 && Finds(v, t.left, d[|d| - 2], d[|d| - 1], Restart(t, pm0), pm1)
    && forall i :: 1 <= i < |d| ==> CanFind(v, t, d[i - 1], d[i], pm0)
  }

  ghost predicate PieceFails(v: Subject, t: Subre, d: seq<nat>, pm0: seq<Span>)
    requires t.Iter?
    decreases t, 0
  {
    exists i :: 1 <= i < |d| && Fails(v, t.left, d[i - 1], d[i], Restart(t, pm0))
  }

  // ---------------------------------------------------------------- trees without back references

  ghost predicate NoBackref(t: Subre) {
    match t
    case Plain(_, _) => true
    case Backref(_, _, _, _, _) => false
    case Capture(_, _, _, l) => NoBackref(l)
    case Concat(_, _, l, r) => NoBackref(l) && NoBackref(r)
    case Alt(_, _, alts) => NoBackrefs(alts)
    case Iter(_, _, l, min, max) => NoBackref(l) && min <= 1 && (max.AtMost? ==> 1 <= max.n)
  }

  ghost predicate NoBackrefs(alts: Alternatives) {
    alts.More? ==> NoBackref(alts.left) && NoBackrefs(alts.rest)
  }

  /** The NFA of every node accepts no more than its children make up. */
  ghost predicate Consistent(v: Subject, t: Subre) {
    match t
    case Plain(_, _) => true
    case Backref(_, _, _, _, _) => true
    case Capture(_, _, _, l) => Consistent(v, l) && forall b, e :: Acc(v, t, b, e) ==> Acc(v, l, b, e)
    case Concat(_, _, l, r) =>
      Consistent(v, l) && Consistent(v, r)
      && forall b, e :: Acc(v, t, b, e) ==> exists m :: SplitAt(v, t, b, m, e)
    case Alt(_, _, alts) => ConsistentAll(v, alts) && forall b, e :: Acc(v, t, b, e) ==> AccAny(v, alts, b, e)
    case Iter(_, _, l, min, max) =>
      Consistent(v, l)
      && forall b, e :: Acc(v, t, b, e) && !(b == e && min == 0) ==> exists d :: Repetition(v, t, d, b, e)
  }

  ghost predicate ConsistentAll(v: Subject, alts: Alternatives) {
    alts.More? ==> Consistent(v, alts.left) && ConsistentAll(v, alts.rest)
  }

  ghost predicate AccAny(v: Subject, alts: Alternatives, b: nat, e: nat) {
    alts.More? && (Acc(v, alts.left, b, e) || AccAny(v, alts.rest, b, e))
  }

  /** d divides b..e into an allowed number of stretches that the child's NFA accepts. */
  ghost predicate Repetition(v: Subject, t: Subre, d: seq<nat>, b: nat, e: nat)
    requires t.Iter?
  {
    Division(d, b, e) && Within(|d| - 1, t.min, t.max) && forall i :: 1 <= i < |d| ==> Acc(v, t.left, d[i - 1], d[i])
  }

  /** Leaving out the empty pieces of a division. */
  lemma {:induction false} StripEmpty(v: Subject, t: Subre, d: seq<nat>, b: nat, e: nat) returns (r: seq<nat>)
    requires t.Iter? && b < e && Division(d, b, e) && forall i :: 1 <= i < |d| ==> Acc(v, t.left, d[i - 1], d[i])
    ensures Division(r, b, e) && |r| <= |d| && forall i :: 1 <= i < |r| ==> Acc(v, t.left, r[i - 1], r[i]) && r[i - 1] < r[i]
    ensures |r| - 1 <= e - b
    decreases |d|
  {
    hide Acc;
    if d[1] == b {
      assert d[1..][0] == b;
      r := StripEmpty(v, t, d[1..], b, e);
    } else if d[1] == e {
      r := [b, e];
    } else {
      DivisionTail(d, b, e);
      var r' := StripEmpty(v, t, d[1..], d[1], e);
      assert d[0] == b && Acc(v, t.left, d[0], d[1]);
      r := [b] + r';
    }
  }

  lemma DivisionTail(d: seq<nat>, b: nat, e: nat)
    requires Division(d, b, e) && d[1] < e
    ensures Division(d[1..], d[1], e)
  {
    forall i | 0 <= i < |d[1..]| ensures d[1] <= d[1..][i] {
      DivisionSorted(d, b, e, 1, i + 1);
    }
  }

  lemma DivisionSorted(d: seq<nat>, b: nat, e: nat, i: nat, j: nat)
    requires Division(d, b, e) && i <= j < |d|
    ensures d[i] <= d[j]
    decreases j
  {
    if i < j { DivisionSorted(d, b, e, i, j - 1); }
  }

  /** A repetition at least once can be had without empty pieces (or as one empty piece). */
  lemma PartsExist(v: Subject, t: Subre, d: seq<nat>, b: nat, e: nat) returns (r: seq<nat>)
    requires t.Iter? && t.min <= 1 && (t.max.AtMost? ==> 1 <= t.max.n) && Repetition(v, t, d, b, e)
    ensures Parts(v, t, r, b, e)
  {
    if b == e {
      r := [b, e];
      assert Acc(v, t.left, d[0], d[1]);
    } else {
      r := StripEmpty(v, t, d, b, e);
      forall i | 1 <= i < |r| - 1 ensures r[i] < e {
        var j := i + 1;
        assert r[j - 1] < r[j];
      }
    }
  }

  /** Without back references a stretch that the NFA accepts can always be dissected. */
  lemma {:induction false} NeverFails(v: Subject, t: Subre, b: nat, e: nat, pm0: seq<Span>)
    requires NoBackref(t) && Consistent(v, t) && Acc(v, t, b, e)
    ensures !Fails(v, t, b, e, pm0)
    decreases t
  {
    match t
    case Plain(_, _) =>
    case Capture(_, _, _, l) => NeverFails(v, l, b, e, pm0);
    case Concat(_, _, l, r) =>
      var m :| SplitAt(v, t, b, m, e);
      SplitNeverFails(v, t, b, m, e, pm0);
    case Alt(_, _, alts) => AltNeverFails(v, alts, b, e, pm0);
    case Iter(_, _, l, min, max) =>
      if !(b == e && min == 0) {
        var d0 :| Repetition(v, t, d0, b, e);
        var d := PartsExist(v, t, d0, b, e);
        PieceNeverFails(v, t, d, pm0);
      }
  }

  lemma SplitNeverFails(v: Subject, t: Subre, b: nat, m: nat, e: nat, pm0: seq<Span>)
    requires t.Concat? && NoBackref(t) && Consistent(v, t) && SplitAt(v, t, b, m, e)
    ensures !SplitFails(v, t, b, m, e, pm0)
    decreases t, 0
  {
    NeverFails(v, t.left, b, m, pm0);
    forall pm ensures !Fails(v, t.right, m, e, pm) {
      NeverFails(v, t.right, m, e, pm);
    }
  }

  lemma PieceNeverFails(v: Subject, t: Subre, d: seq<nat>, pm0: seq<Span>)
    requires t.Iter? && NoBackref(t) && Consistent(v, t) && forall i :: 1 <= i < |d| ==> Acc(v, t.left, d[i - 1], d[i])
    ensures !PieceFails(v, t, d, pm0)
    decreases t, 0
  {
    forall i | 1 <= i < |d| ensures !Fails(v, t.left, d[i - 1], d[i], Restart(t, pm0)) {
      NeverFails(v, t.left, d[i - 1], d[i], Restart(t, pm0));
    }
  }

  lemma {:induction false} AltNeverFails(v: Subject, alts: Alternatives, b: nat, e: nat, pm0: seq<Span>)
    requires NoBackrefs(alts) && ConsistentAll(v, alts) && AccAny(v, alts, b, e)
    ensures !AltFails(v, alts, b, e, pm0)
    decreases alts
  {
    if Acc(v, alts.left, b, e) {
      NeverFails(v, alts.left, b, e, pm0);
    } else {
      AltNeverFails(v, alts.rest, b, e, pm0);
    }
  }
}
