/** Dissecting a match: the backtracking search for submatches. */
module Dissect {
  import opened CompactNfa
  import opened StateSetCache
  import opened LazyDfa
  import opened SmallNfas
  import opened Divisions
  import opened Subexpr
  import opened IterationSearch
  import Bytes

  /** Every node has an NFA that a DFA can be made for. */
  ghost predicate Runnable(v: Subject, t: Subre) {
    && v.For(t.cnfa).Valid() && t.cnfa.NoShortcut() && NoReturn(t.cnfa)
    && match t
       case Plain(_, _) => true
       case Backref(_, _, _, _, _) => true
       case Capture(_, _, _, l) => Runnable(v, l)
       case Concat(_, _, l, r) => Runnable(v, l) && Runnable(v, r)
       case Alt(_, _, alts) => RunnableAll(v, alts)
       case Iter(_, _, l, _, _) => Runnable(v, l)
  }

  ghost predicate RunnableAll(v: Subject, alts: Alternatives) {
    alts.More? ==> Runnable(v, alts.left) && RunnableAll(v, alts.rest)
  }

  /** Different branches capture different groups, and back references are to groups that are recorded. */
  ghost predicate Proper(t: Subre, nmatch: nat) {
    match t
    case Plain(_, _) => true
    case Backref(_, _, n, _, _) => n < nmatch
    case Capture(_, _, _, l) => Proper(l, nmatch)
    case Concat(_, _, l, r) => Proper(l, nmatch) && Proper(r, nmatch) && Caps(l) !! Caps(r)
    case Alt(_, _, alts) => ProperAll(alts, nmatch)
    case Iter(_, _, l, _, _) => Proper(l, nmatch)
  }

  ghost predicate ProperAll(alts: Alternatives, nmatch: nat) {
    alts.More? ==> Proper(alts.left, nmatch) && ProperAll(alts.rest, nmatch) && Caps(alts.left) !! CapsOfAll(alts.rest)
  }

  ghost predicate SpansOk(pm: seq<Span>, len: nat) {
    forall i :: 0 <= i < |pm| ==> pm[i] == NoSpan || Inside(pm[i], 0, len)
  }

  // ---------------------------------------------------------------- submatch vectors

  lemma ZapRestores(pm0: seq<Span>, pm: seq<Span>, groups: set<nat>, b: nat, e: nat)
    requires Touched(pm0, pm, groups, b, e) && Unset(pm0, groups)
    ensures Zap(pm, groups) == pm0
  {
  }

  lemma ZapSame(pm0: seq<Span>, pm: seq<Span>, groups: set<nat>, b: nat, e: nat)
    requires Touched(pm0, pm, groups, b, e)
    ensures Zap(pm, groups) == Zap(pm0, groups)
  {
  }

  lemma ZapBoth(pm: seq<Span>, g: set<nat>, h: set<nat>)
    ensures Zap(Zap(pm, g), h) == Zap(pm, g + h)
  {
  }

  // ---------------------------------------------------------------- copies

  lemma OneMore(count: nat, length: nat)
    ensures count * length == (count - 1) * length + length
  {
  }

  lemma {:induction false} CopiesLength(v: Subject, part: seq<nat>, whole: seq<nat>, count: nat)
    requires IsCopies(v, part, whole, count)
    ensures |whole| == count * |part|
  {
    hide Alike;
    if count > 0 {
      CopiesLength(v, part, whole[|part|..], count - 1);
      OneMore(count, |part|);
    }
  }

  lemma {:induction false} CopiesOfNothing(v: Subject, count: nat)
    ensures IsCopies(v, [], [], count)
  {
    if count > 0 {
      CopiesOfNothing(v, count - 1);
      var nothing: seq<nat> := [];
      assert nothing[0..] == nothing;
    }
  }

  /** The first of several copies, and the others. */
  lemma FirstCopy(v: Subject, part: seq<nat>, whole: seq<nat>, count: nat)
    requires count > 0 && |whole| == count * |part|
    ensures |part| <= |whole| && |whole| - |part| == (count - 1) * |part|
    ensures IsCopies(v, part, whole, count) <==> Alike(v, part, whole[..|part|]) && IsCopies(v, part, whole[|part|..], count - 1)
  {
    hide Alike;
    OneMore(count, |part|);
  }

  lemma CutSlice(s: seq<nat>, p: nat, e: nat, k: nat)
    requires p + k <= e <= |s|
    ensures s[p..e][..k] == s[p..p + k] && s[p..e][k..] == s[p + k..e]
  {
  }

  lemma NoCopies(v: Subject, part: seq<nat>, whole: seq<nat>)
    ensures IsCopies(v, part, whole, 0) <==> whole == []
  {
  }

  /** Only one number of copies fits. */
  lemma CopiesCount(v: Subject, part: seq<nat>, whole: seq<nat>, count: nat)
    requires part != [] && IsCopies(v, part, whole, count)
    ensures |whole| % |part| == 0 && count == |whole| / |part|
  {
    CopiesLength(v, part, whole, count);
    Quotient(count, |part|);
  }

  /** An empty group is repeated by the empty stretch only, any number of times. */
  lemma NothingRepeats(v: Subject, s: Span, b: nat, e: nat, min: nat, max: Max)
    requires 0 <= s.so == s.eo <= |v.chars| && b <= e <= |v.chars|
    ensures Repeats(v, s, b, e, min, max) <==> b == e && (max.AtMost? ==> min <= max.n)
  {
    var part, whole := v.chars[s.so..s.eo], v.chars[b..e];
    forall count: nat | IsCopies(v, part, whole, count) ensures b == e {
      CopiesLength(v, part, whole, count);
    }
    if b == e {
      CopiesOfNothing(v, min);
      assert part == [] && whole == [];
      assert (max.AtMost? ==> min <= max.n) ==> Within(min, min, max) && IsCopies(v, part, whole, min);
    }
  }

  /** The empty stretch repeats a group that is not empty no times at all. */
  lemma RepeatsNothing(v: Subject, s: Span, b: nat, min: nat, max: Max)
    requires 0 <= s.so < s.eo <= |v.chars| && b <= |v.chars|
    ensures Repeats(v, s, b, b, min, max) <==> min == 0
  {
    var part, whole := v.chars[s.so..s.eo], v.chars[b..b];
    forall count: nat | IsCopies(v, part, whole, count) ensures count == 0 {
      CopiesCount(v, part, whole, count);
    }
    assert IsCopies(v, part, whole, 0) && (min == 0 ==> Within(0, min, max));
  }

  /** Only one number of repetitions has the right length. */
  lemma RepeatsCounted(v: Subject, s: Span, b: nat, e: nat, min: nat, max: Max)
    requires 0 <= s.so < s.eo <= |v.chars| && b <= e <= |v.chars|
    ensures var n, d := e - b, s.eo - s.so;
            Repeats(v, s, b, e, min, max) <==> n % d == 0 && Within(n / d, min, max) && IsCopies(v, v.chars[s.so..s.eo], v.chars[b..e], n / d)
  {
    hide IsCopies;
    forall count: nat | IsCopies(v, v.chars[s.so..s.eo], v.chars[b..e], count)
      ensures (e - b) % (s.eo - s.so) == 0 && count == (e - b) / (s.eo - s.so) {
      CopiesCount(v, v.chars[s.so..s.eo], v.chars[b..e], count);
    }
  }

  lemma Quotient(n: nat, d: nat)
    requires d > 0
    ensures (n * d) % d == 0 && (n * d) / d == n
  {
    if n > 0 {
      Quotient(n - 1, d);
      assert n * d == (n - 1) * d + d;
      assert (n * d) / d == ((n - 1) * d) / d + 1;
    }
  }

  /** b..e repeats the stretch s character by character, from its beginning again wherever it ends, a number of times
      that is allowed; nothing repeats an empty stretch as often as one likes. */
  ghost predicate Echoes(v: Subject, s: Span, b: nat, e: nat, min: nat, max: Max) {
    && 0 <= s.so <= s.eo <= |v.chars| && b <= e <= |v.chars|
    && var len := s.eo - s.so;
       if len == 0 then b == e && (max.AtMost? ==> min <= max.n)
       else
         && (e - b) % len == 0 && min <= (e - b) / len && (max.AtMost? ==> (e - b) / len <= max.n)
         && forall i :: 0 <= i < e - b ==> v.same(v.chars[s.so + i % len], v.chars[b + i])
  }

  lemma EchoesIs(v: Subject, s: Span, b: nat, e: nat, min: nat, max: Max)
    ensures Repeats(v, s, b, e, min, max) <==> Echoes(v, s, b, e, min, max)
  {
    hide IsCopies;
    if 0 <= s.so <= s.eo <= |v.chars| && b <= e <= |v.chars| {
      if s.so == s.eo {
        NothingRepeats(v, s, b, e, min, max);
      } else {
        var len := s.eo - s.so;
        RepeatsCounted(v, s, b, e, min, max);
        if (e - b) % len == 0 {
          var part, whole := v.chars[s.so..s.eo], v.chars[b..e];
          CopiesAre(v, part, whole, (e - b) / len);
          assert (e - b) / len * len == e - b;
          forall i | 0 <= i < e - b ensures part[i % len] == v.chars[s.so + i % len] && whole[i] == v.chars[b + i] {
          }
        }
      }
    }
  }

  lemma {:induction false} CopiesAre(v: Subject, part: seq<nat>, whole: seq<nat>, count: nat)
    requires part != [] && |whole| == count * |part|
    ensures IsCopies(v, part, whole, count) <==> forall i :: 0 <= i < |whole| ==> v.same(part[i % |part|], whole[i])
    decreases count
  {
    hide IsCopies, Alike;
    if count == 0 {
      NoCopies(v, part, whole);
    } else {
      var n := |part|;
      OneMore(count, n);
      FirstCopy(v, part, whole, count);
      CopiesAre(v, part, whole[n..], count - 1);
      AlikeIs(v, part, whole[..n]);
      FirstAndRest(v, part, whole);
    }
  }

  lemma FirstAndRest(v: Subject, part: seq<nat>, whole: seq<nat>)
    requires 0 < |part| <= |whole|
    ensures (forall i :: 0 <= i < |whole| ==> v.same(part[i % |part|], whole[i])) <==>
            (forall i :: 0 <= i < |part| ==> v.same(part[i], whole[..|part|][i]))
            && forall i :: 0 <= i < |whole| - |part| ==> v.same(part[i % |part|], whole[|part|..][i])
  {
    var n := |part|;
    var first, rest := whole[..n], whole[n..];
    forall i: nat ensures (i + n) % n == i % n && (i < n ==> i % n == i) {
      Bytes.DropOne(i, n);
    }
    if forall i :: 0 <= i < |whole| ==> v.same(part[i % n], whole[i]) {
      forall i: nat | i < |rest| ensures v.same(part[i % n], rest[i]) {
        assert v.same(part[(i + n) % n], whole[i + n]);
      }
      forall i: nat | i < n ensures v.same(part[i], first[i]) {
        assert v.same(part[i % n], whole[i]);
      }
    }
    if (forall i :: 0 <= i < n ==> v.same(part[i], first[i])) && forall i :: 0 <= i < |rest| ==> v.same(part[i % n], rest[i]) {
      forall i: nat | i < |whole| ensures v.same(part[i % n], whole[i]) {
        if i < n {
          assert v.same(part[i], first[i]);
        } else {
          var k: nat := i - n;
          assert v.same(part[k % n], rest[k]) && (k + n) % n == k % n;
        }
      }
    }
  }

  lemma AlikeIs(v: Subject, x: seq<nat>, y: seq<nat>)
    requires |x| == |y|
    ensures Alike(v, x, y) <==> forall i :: 0 <= i < |x| ==> v.same(x[i], y[i])
  {
  }

  class Matcher {
    const v: Subject
    const pmatch: array<Span>

    ghost predicate Valid()
      reads pmatch
    {
      |v.chars| == |v.text| && SpansOk(pmatch[..], |v.text|)
    }

    constructor (v: Subject, nmatch: nat)
      requires |v.chars| == |v.text|
      ensures Valid() && this.v == v && fresh(pmatch) && pmatch.Length == nmatch
      ensures forall i :: 0 <= i < nmatch ==> pmatch[i] == NoSpan
    {
      this.v := v;
      pmatch := new Span[nmatch](i => NoSpan);
    }

    /** Clears the groups of a subtree. */
    method ZapTreeSubs(t: Subre)
      requires Valid()
      modifies pmatch
      ensures Valid() && pmatch[..] == Zap(old(pmatch[..]), Caps(t))
      decreases t
    {
      match t
      case Plain(_, _) =>
      case Backref(_, _, _, _, _) =>
      case Capture(_, _, n, l) =>
        if n < pmatch.Length { pmatch[n] := NoSpan; }
        ZapTreeSubs(l);
      case Concat(_, _, l, r) =>
        ZapBoth(pmatch[..], Caps(l), Caps(r));
        ZapTreeSubs(l);
        ZapTreeSubs(r);
      case Alt(_, _, alts) => ZapAlternatives(alts);
      case Iter(_, _, l, _, _) => ZapTreeSubs(l);
    }

    method ZapAlternatives(alts: Alternatives)
      requires Valid()
      modifies pmatch
      ensures Valid() && pmatch[..] == Zap(old(pmatch[..]), CapsOfAll(alts))
      decreases alts
    {
      match alts
      case NoMore =>
      case More(l, rest) =>
        ZapBoth(pmatch[..], Caps(l), CapsOfAll(rest));
        ZapTreeSubs(l);
        ZapAlternatives(rest);
    }

    /** Records the stretch b..e as group n, if there is room. */
    method Subset(n: nat, b: nat, e: nat)
      requires Valid() && b <= e <= |v.text|
      modifies pmatch
      ensures Valid() && pmatch[..] == Recorded(old(pmatch[..]), n, b, e)
    {
      if n >= pmatch.Length {
        return;
      }
      pmatch[n] := Span(b, e);
    }

    ghost predicate Ready(t: Subre, b: nat, e: nat)
      reads pmatch
    {
      Valid() && Runnable(v, t) && Proper(t, pmatch.Length) && b <= e <= |v.text| && Unset(pmatch[..], Caps(t))
    }

    /** Dissects b..e according to t: succeeds with the submatches that the search order prefers, or
        fails because every division does. */
    method Cdissect(t: Subre, b: nat, e: nat) returns (ok: bool)
      requires Ready(t, b, e)
      modifies pmatch
      ensures Valid() && Touched(old(pmatch[..]), pmatch[..], Caps(t), b, e)
      ensures ok ==> Finds(v, t, b, e, old(pmatch[..]), pmatch[..])
      ensures !ok ==> Fails(v, t, b, e, old(pmatch[..]))
      ensures ok && t.Capture? && t.subno < pmatch.Length ==> pmatch[t.subno] == Span(b, e)
      decreases t, 5
    {
      match t
      case Plain(_, _) => ok := true;
      case Backref(_, _, _, _, _) => ok := Cbrdissect(t, b, e);
      case Concat(_, _, l, _) =>
        if l.shorter {
          ok := Crevcondissect(t, b, e);
        } else {
          ok := Ccondissect(t, b, e);
        }
      case Alt(_, _, alts) => ok := Caltdissect(alts, b, e);
      case Iter(_, _, l, _, _) =>
        if l.shorter {
          ok := Creviterdissect(t, b, e);
        } else {
          ok := Citerdissect(t, b, e);
        }
      case Capture(_, _, n, l) =>
        ok := Cdissect(l, b, e);
        if ok {
          Subset(n, b, e);
        }
    }

    /** A back reference: the stretch repeats what its group matched. */
    method Cbrdissect(t: Subre, b: nat, e: nat) returns (ok: bool)
      requires Valid() && t.Backref? && t.subno < pmatch.Length && b <= e <= |v.text|
      ensures ok <==> Repeats(v, pmatch[t.subno], b, e, t.min, t.max)
      ensures ok <==> Echoes(v, pmatch[t.subno], b, e, t.min, t.max)
    {
      hide IsCopies, Echoes;
      var s := pmatch[t.subno];
      EchoesIs(v, s, b, e, t.min, t.max);
      if s.so == FREESTATE {
        return false;
      }
      var brlen := s.eo - s.so;
      if brlen == 0 {
        NothingRepeats(v, s, b, e, t.min, t.max);
        return b == e && (t.max.AtMost? ==> t.min <= t.max.n);
      }
      if b == e {
        RepeatsNothing(v, s, b, t.min, t.max);
        return t.min == 0;
      }
      RepeatsCounted(v, s, b, e, t.min, t.max);
      if (e - b) % brlen != 0 {
        return false;
      }
      var numreps: nat := (e - b) / brlen;
      if numreps < t.min || (t.max.AtMost? && numreps > t.max.n) {
        return false;
      }
      ok := CompareAll(v.chars[s.so..s.eo], b, e, numreps);
    }

    /** Compares b..e with copies of part. */
    method CompareAll(part: seq<nat>, b: nat, e: nat, reps: nat) returns (ok: bool)
      requires b <= e <= |v.chars| && part != [] && e - b == reps * |part|
      ensures ok <==> IsCopies(v, part, v.chars[b..e], reps)
    {
      hide IsCopies, Alike;
      var p, numreps := b, reps;
      while numreps > 0
        invariant b <= p <= e && e - p == numreps * |part| && numreps <= reps
        invariant IsCopies(v, part, v.chars[b..e], reps) <==> IsCopies(v, part, v.chars[p..e], numreps)
      {
        FirstCopy(v, part, v.chars[p..e], numreps);
        CutSlice(v.chars, p, e, |part|);
        if !Alike(v, part, v.chars[p..p + |part|]) {
          return false;
        }
        p, numreps := p + |part|, numreps - 1;
      }
      NoCopies(v, part, v.chars[p..e]);
      return true;
    }

    /** The DFA of a node. */
    method GetSubDfa(t: Subre) returns (d: Dfa)
      requires Runnable(v, t)
      ensures fresh(d) && fresh(d.ssets) && d.Valid() && d.t == v.For(t.cnfa) && d.t.Valid()
    {
      RoomForAny(v.For(t.cnfa), false);
      d := new Dfa(v.For(t.cnfa), CacheSize(t.cnfa, false));
    }

    /** Tries the midpoint mid. */
    method TryMidpoint(t: Subre, d2: Dfa, b: nat, mid: nat, e: nat) returns (ok: bool)
      requires t.Concat? && Ready(t, b, e) && Acc(v, t.left, b, mid) && mid <= e
      requires d2.Valid() && d2.t == v.For(t.right.cnfa)
      modifies pmatch, d2, d2.ssets
      ensures Valid() && d2.Valid() && Touched(old(pmatch[..]), pmatch[..], Caps(t), b, e)
      ensures ok ==> SplitAt(v, t, b, mid, e) && SplitFinds(v, t, b, mid, e, old(pmatch[..]), pmatch[..])
      ensures !ok && SplitAt(v, t, b, mid, e) ==> SplitFails(v, t, b, mid, e, old(pmatch[..]))
      decreases t, 0
    {
      hide Dfa.Valid, Target.Accepts, Target.Valid, Cnfa.NoShortcut, Finds, Fails;
      ok := false;
      var end, _ := d2.Longest(mid, e);
      if end == e {
        ok := Cdissect(t.left, b, mid);
        if ok {
          ok := Cdissect(t.right, mid, e);
        }
      }
    }

    method Ccondissect(t: Subre, b: nat, e: nat) returns (ok: bool)
      requires t.Concat? && !t.left.shorter && Ready(t, b, e)
      modifies pmatch
      ensures Valid() && Touched(old(pmatch[..]), pmatch[..], Caps(t), b, e)
      ensures ok ==> Finds(v, t, b, e, old(pmatch[..]), pmatch[..])
      ensures !ok ==> Fails(v, t, b, e, old(pmatch[..]))
      decreases t, 1
    {
      hide Dfa.Valid, Target.Accepts, Target.Valid, Cnfa.NoShortcut, SplitFinds, SplitFails;
      var d := GetSubDfa(t.left);
      var d2 := GetSubDfa(t.right);
      var mid, _ := d.Longest(b, e);
      if mid == NIL {
        return false;
      }
      while true
        invariant b <= mid <= e && Acc(v, t.left, b, mid) && pmatch[..] == old(pmatch[..])
        invariant d.Valid() && d.t == v.For(t.left.cnfa) && fresh(d) && fresh(d.ssets)
        invariant d2.Valid() && d2.t == v.For(t.right.cnfa) && fresh(d2) && fresh(d2.ssets)
        invariant forall m: nat :: SplitAt(v, t, b, m, e) && m > mid ==> SplitFails(v, t, b, m, e, old(pmatch[..]))
        decreases mid
      {
        ok := TryMidpoint(t, d2, b, mid, e);
        if ok {
          return;
        }
        if mid == b {
          return false;
        }
        var next, _ := d.Longest(b, mid - 1);
        mid := next;
        if mid == NIL {
          return false;
        }
        ZapBoth(pmatch[..], Caps(t.left), Caps(t.right));
        ZapRestores(old(pmatch[..]), pmatch[..], Caps(t), b, e);
        ZapTreeSubs(t.left);
        ZapTreeSubs(t.right);
      }
    }

    method Crevcondissect(t: Subre, b: nat, e: nat) returns (ok: bool)
      requires t.Concat? && t.left.shorter && Ready(t, b, e)
      modifies pmatch
      ensures Valid() && Touched(old(pmatch[..]), pmatch[..], Caps(t), b, e)
      ensures ok ==> Finds(v, t, b, e, old(pmatch[..]), pmatch[..])
      ensures !ok ==> Fails(v, t, b, e, old(pmatch[..]))
      decreases t, 1
    {
      hide Dfa.Valid, Target.Accepts, Target.Valid, Cnfa.NoShortcut, SplitFinds, SplitFails;
      var d := GetSubDfa(t.left);
      var d2 := GetSubDfa(t.right);
      var mid, _, _ := d.Shortest(b, b, e);
      if mid == NIL {
        return false;
      }
      while true
        invariant b <= mid <= e && Acc(v, t.left, b, mid) && pmatch[..] == old(pmatch[..])
        invariant d.Valid() && d.t == v.For(t.left.cnfa) && fresh(d) && fresh(d.ssets)
        invariant d2.Valid() && d2.t == v.For(t.right.cnfa) && fresh(d2) && fresh(d2.ssets)
        invariant forall m: nat :: SplitAt(v, t, b, m, e) && m < mid ==> SplitFails(v, t, b, m, e, old(pmatch[..]))
        decreases e - mid
      {
        ok := TryMidpoint(t, d2, b, mid, e);
        if ok {
          return;
        }
        if mid == e {
          return false;
        }
        var next, _, _ := d.Shortest(b, mid + 1, e);
        mid := next;
        if mid == NIL {
          return false;
        }
        ZapBoth(pmatch[..], Caps(t.left), Caps(t.right));
        ZapRestores(old(pmatch[..]), pmatch[..], Caps(t), b, e);
        ZapTreeSubs(t.left);
        ZapTreeSubs(t.right);
      }
    }

    // ---------------------------------------------------------------- alternation

    lemma SkipsOne(alts: Alternatives, b: nat, e: nat, pm0: seq<Span>, pm: seq<Span>)
      requires alts.More? && Skips(v, alts, b, e, pm0, pm)
      ensures AltFails(v, alts.rest, b, e, pm) ==> AltFails(v, alts, b, e, pm0)
      ensures forall x :: AltFinds(v, alts.rest, b, e, pm, x) ==> AltFinds(v, alts, b, e, pm0, x)
    {
    }

    method Caltdissect(alts: Alternatives, b: nat, e: nat) returns (ok: bool)
      requires Valid() && RunnableAll(v, alts) && ProperAll(alts, pmatch.Length) && b <= e <= |v.text|
      requires Unset(pmatch[..], CapsOfAll(alts))
      modifies pmatch
      ensures Valid() && Touched(old(pmatch[..]), pmatch[..], CapsOfAll(alts), b, e)
      ensures ok ==> AltFinds(v, alts, b, e, old(pmatch[..]), pmatch[..])
      ensures !ok ==> AltFails(v, alts, b, e, old(pmatch[..]))
      decreases alts, 4
    {
      hide Dfa.Valid, Target.Accepts, Target.Valid, Cnfa.NoShortcut, Finds, Fails;
      ghost var pm0 := pmatch[..];
      var t := alts;
      while t.More?
        invariant Valid() && RunnableAll(v, t) && ProperAll(t, pmatch.Length)
        invariant t == alts || t < alts
        invariant Touched(pm0, pmatch[..], CapsOfAll(alts), b, e)
        invariant CapsOfAll(t) <= CapsOfAll(alts) && Unset(pmatch[..], CapsOfAll(t))
        invariant AltFails(v, t, b, e, pmatch[..]) ==> AltFails(v, alts, b, e, pm0)
        invariant forall x :: AltFinds(v, t, b, e, pmatch[..], x) ==> AltFinds(v, alts, b, e, pm0, x)
        decreases t
      {
        ghost var pm := pmatch[..];
        var d := GetSubDfa(t.left);
        var end, _ := d.Longest(b, e);
        if end == e {
          ok := Cdissect(t.left, b, e);
          if ok {
            assert AltFinds(v, t, b, e, pm, pmatch[..]);
            return true;
          }
        }
        SkipsOne(t, b, e, pm, pmatch[..]);
        t := t.rest;
      }
      return false;
    }

    // ---------------------------------------------------------------- iteration

    /** The search for endpoints has not disturbed anything outside the groups of the child. */
    ghost predicate Searching(q: Problem)
      reads pmatch
    {
      && q.Ok() && q.v == v && Valid() && Runnable(v, q.t) && Proper(q.t, pmatch.Length) && q.e <= |v.text|
      && Touched(q.pm0, pmatch[..], Caps(q.t.left), q.b, q.e)
    }

    lemma TouchedAgain(pm0: seq<Span>, pm: seq<Span>, pm1: seq<Span>, groups: set<nat>, b: nat, e: nat, x: nat, y: nat)
      requires Touched(pm0, pm, groups, b, e) && Touched(Zap(pm, groups), pm1, groups, x, y) && b <= x && y <= e
      ensures Touched(pm0, pm1, groups, b, e)
    {
    }

    ghost predicate PieceAt(endpts: array<nat>, i: nat, b: nat, e: nat)
      reads endpts
    {
      1 <= i < endpts.Length && b <= endpts[i - 1] <= endpts[i] <= e
    }

    /** Verifies the pieces after number nverified. */
    method VerifyPieces(t: Subre, endpts: array<nat>, nverified: nat, k: nat, ghost q: Problem) returns (nv: nat, ok: bool)
      requires Searching(q) && q.t == t && nverified < k < endpts.Length
      requires forall i :: 1 <= i <= k ==> PieceAt(endpts, i, q.b, q.e)
      requires forall i :: 1 <= i <= nverified ==> CanFind(v, t, endpts[i - 1], endpts[i], q.pm0)
      modifies pmatch
      ensures Searching(q) && nverified <= nv <= k
      ensures forall i :: 1 <= i <= nv ==> CanFind(v, t, endpts[i - 1], endpts[i], q.pm0)
      ensures ok ==> nv == k && Finds(v, t.left, endpts[k - 1], endpts[k], Restart(t, q.pm0), pmatch[..])
      ensures !ok ==> nv < k && Fails(v, t.left, endpts[nv], endpts[nv + 1], Restart(t, q.pm0))
      decreases t, 0
    {
      hide Finds, Fails;
      nv := nverified;
      while nv < k
        invariant Searching(q) && nverified <= nv <= k
        invariant forall i :: 1 <= i <= nv ==> CanFind(v, t, endpts[i - 1], endpts[i], q.pm0)
        invariant nv > nverified ==> Finds(v, t.left, endpts[nv - 1], endpts[nv], Restart(t, q.pm0), pmatch[..])
      {
        ghost var pm := pmatch[..];
        ZapSame(q.pm0, pm, Caps(t.left), q.b, q.e);
        ZapTreeSubs(t.left);
        var i := nv + 1;
        assert PieceAt(endpts, i, q.b, q.e);
        ghost var pmz := pmatch[..];
        ok := Cdissect(t.left, endpts[i - 1], endpts[i]);
        TouchedAgain(q.pm0, pm, pmatch[..], Caps(t.left), q.b, q.e, endpts[i - 1], endpts[i]);
        if !ok {
          return nv, false;
        }
        FoundPiece(q, endpts[i - 1], endpts[i], pmz, pmatch[..]);
        nv := i;
      }
      return nv, true;
    }

    lemma SoonestBounds(q: Problem, p: nat, limit: nat, x: nat)
      requires q.Ok() && q.Soonest(p, limit, x)
      ensures p <= x <= q.e && !Sooner(q.Rev(), x, limit)
    {
    }

    lemma PartialBounds(q: Problem, ends: seq<nat>)
      requires q.Ok() && q.Partial(ends)
      ensures 1 <= |ends| <= q.Max() && ends[0] == q.b && forall i :: 0 <= i < |ends| ==> q.b <= ends[i] <= q.e
    {
    }

    lemma PartialPrefix(q: Problem, ends: seq<nat>, k: nat)
      requires q.Ok() && q.Partial(ends) && 1 <= k <= |ends|
      ensures q.Partial(ends[..k])
    {
    }

    /** Goes back to the last piece that can be shortened; k is 0 if there is none. */
    method BackToShorter(endpts: array<nat>, k0: nat, minMatches: nat, end: nat, ghost q: Problem) returns (k: nat, limit: nat)
      requires q.Ok() && !q.Rev() && minMatches == q.Min() && end == q.e && k0 < endpts.Length
      requires forall i :: 0 <= i <= k0 ==> q.b <= endpts[i] <= q.e
      requires q.AllLater(endpts[..k0 + 1])
      ensures k <= k0
      ensures k > 0 ==> q.AllAhead(endpts[..k], limit) && endpts[k - 1] <= limit < endpts[k]
      ensures k == 0 ==> q.AllLater(endpts[..1])
    {
      hide Problem.AllAhead, Problem.AllLater;
      k, limit := k0, 0;
      while k > 0
        invariant k <= k0 && q.AllLater(endpts[..k + 1])
      {
        var prev := endpts[k - 1];
        assert endpts[..k + 1][..k] == endpts[..k];
        if endpts[k] > prev {
          limit := endpts[k] - 1;
          if limit > prev || (k < minMatches && minMatches - k >= end - prev) {
            BackTo(q, endpts[..k + 1], k, limit);
            return;
          }
        }
        BackPast(q, endpts[..k + 1], k);
        k := k - 1;
      }
    }

    /** Goes back to the last piece that can be lengthened; k is 0 if there is none. */
    method BackToLonger(endpts: array<nat>, k0: nat, end: nat, ghost q: Problem) returns (k: nat, limit: nat)
      requires q.Ok() && q.Rev() && end == q.e && k0 < endpts.Length
      requires forall i :: 0 <= i <= k0 ==> q.b <= endpts[i] <= q.e
      requires q.AllLater(endpts[..k0 + 1])
      ensures k <= k0
      ensures k > 0 ==> q.AllAhead(endpts[..k], limit) && endpts[k] < limit <= q.e
      ensures k == 0 ==> q.AllLater(endpts[..1])
    {
      hide Problem.AllAhead, Problem.AllLater;
      k, limit := k0, 0;
      while k > 0
        invariant k <= k0 && q.AllLater(endpts[..k + 1])
      {
        assert endpts[..k + 1][..k] == endpts[..k];
        if endpts[k] < end {
          limit := endpts[k] + 1;
          BackTo(q, endpts[..k + 1], k, limit);
          return;
        }
        BackPast(q, endpts[..k + 1], k);
        k := k - 1;
      }
    }

    /** The search stands before piece number k: endpts[..k] are fixed, and the next endpoint is to be
        no sooner than limit. k is 0 when nothing is left. */
    ghost predicate Standing(q: Problem, endpts: array<nat>, k: nat, limit: nat, nverified: nat)
      reads pmatch, endpts
    {
      && Searching(q) && endpts.Length == q.Max() + 1 && k <= q.Max() && nverified <= q.Max() && endpts[0] == q.b
      && (k > 0 ==> q.Partial(endpts[..k]) && q.AllAhead(endpts[..k], limit) && endpts[k - 1] <= limit <= q.e)
      && (k == 0 ==> q.AllLater(endpts[..1]))
      && (forall i :: 1 <= i <= nverified && i < k ==> CanFind(v, q.t, endpts[i - 1], endpts[i], q.pm0))
    }

    ghost function Effort(q: Problem, endpts: array<nat>, k: nat, limit: nat): nat
      requires q.Ok() && k <= endpts.Length && k <= q.Max()
      reads endpts
    {
      if k > 0 then 1 + Rank(q.Rev(), q.b, q.e, endpts[..k], limit, q.Max()) else 0
    }

    method Citerdissect(t: Subre, b: nat, e: nat) returns (ok: bool)
      requires t.Iter? && !t.left.shorter && Ready(t, b, e)
      modifies pmatch
      ensures Valid() && Touched(old(pmatch[..]), pmatch[..], Caps(t), b, e)
      ensures ok ==> Finds(v, t, b, e, old(pmatch[..]), pmatch[..])
      ensures !ok ==> Fails(v, t, b, e, old(pmatch[..]))
      decreases t, 4
    {
      hide Dfa.Valid, Target.Accepts, Target.Valid, Cnfa.NoShortcut, PiecesFind, PieceFails, Parts, Problem.AllAhead, Problem.AllLater, Problem.Partial;
      var minMatches := t.min;
      if minMatches <= 0 {
        if b == e {
          return true;
        }
        minMatches := 1;
      }
      var maxMatches := e - b;
      if t.max.AtMost? && maxMatches > t.max.n {
        maxMatches := t.max.n;
      }
      if maxMatches < minMatches {
        maxMatches := minMatches;
      }
      ghost var q := Problem(v, t, b, e, pmatch[..]);
      var endpts := new nat[maxMatches + 1];
      endpts[0] := b;
      var d := GetSubDfa(t.left);
      var nverified, k, limit: nat := 0, 1, e;
      StartsAhead(q);
      assert endpts[..1] == [b];
      while k > 0
        invariant Standing(q, endpts, k, limit, nverified)
        invariant d.Valid() && d.t == v.For(t.left.cnfa) && d.t.Valid() && fresh(d) && fresh(d.ssets)
        decreases Effort(q, endpts, k, limit)
      {
        k, limit, nverified, ok := CiterStep(t, d, endpts, k, limit, nverified, minMatches, maxMatches, e, q);
        if ok {
          return true;
        }
      }
      NothingLeft(q, endpts[..1]);
      return false;
    }

    method Creviterdissect(t: Subre, b: nat, e: nat) returns (ok: bool)
      requires t.Iter? && t.left.shorter && Ready(t, b, e)
      modifies pmatch
      ensures Valid() && Touched(old(pmatch[..]), pmatch[..], Caps(t), b, e)
      ensures ok ==> Finds(v, t, b, e, old(pmatch[..]), pmatch[..])
      ensures !ok ==> Fails(v, t, b, e, old(pmatch[..]))
      decreases t, 4
    {
      hide Dfa.Valid, Target.Accepts, Target.Valid, Cnfa.NoShortcut, PiecesFind, PieceFails, Parts, Problem.AllAhead, Problem.AllLater, Problem.Partial;
      var minMatches := t.min;
      if minMatches <= 0 {
        if b == e {
          return true;
        }
        minMatches := 1;
      }
      var maxMatches := e - b;
      if t.max.AtMost? && maxMatches > t.max.n {
        maxMatches := t.max.n;
      }
      if maxMatches < minMatches {
        maxMatches := minMatches;
      }
      ghost var q := Problem(v, t, b, e, pmatch[..]);
      var endpts := new nat[maxMatches + 1];
      endpts[0] := b;
      var d := GetSubDfa(t.left);
      var nverified, k, limit: nat := 0, 1, b;
      StartsAhead(q);
      assert endpts[..1] == [b];
      while k > 0
        invariant Standing(q, endpts, k, limit, nverified)
        invariant d.Valid() && d.t == v.For(t.left.cnfa) && d.t.Valid() && fresh(d) && fresh(d.ssets)
        decreases Effort(q, endpts, k, limit)
      {
        k, limit, nverified, ok := CreviterStep(t, d, endpts, k, limit, nverified, minMatches, maxMatches, e, q);
        if ok {
          return true;
        }
      }
      NothingLeft(q, endpts[..1]);
      return false;
    }

    /** The pieces reach the end: verifies them if they are enough. */
    method Finish(t: Subre, endpts: array<nat>, k: nat, nverified0: nat, minMatches: nat, ghost q: Problem,
                  ghost limit: nat)
      returns (nverified: nat, ok: bool)
      requires Searching(q) && q.t == t && minMatches == q.Min() && 1 <= k < endpts.Length && nverified0 < k
      requires q.Partial(endpts[..k]) && q.AllAhead(endpts[..k], limit) && endpts[k] == q.e
      requires q.Soonest(endpts[k - 1], limit, q.e)
      requires forall i :: 1 <= i <= nverified0 ==> CanFind(v, t, endpts[i - 1], endpts[i], q.pm0)
      modifies pmatch
      ensures Searching(q) && nverified <= k
      ensures ok ==> Finds(v, t, q.b, q.e, q.pm0, pmatch[..])
      ensures !ok ==> q.AllLater(endpts[..k + 1])
      ensures forall i :: 1 <= i <= nverified ==> CanFind(v, t, endpts[i - 1], endpts[i], q.pm0)
      decreases t, 1
    {
      hide Parts, Problem.AllAhead, Problem.AllLater, Problem.Partial, Problem.Soonest, Acc, Finds, Fails, CanFind, PiecesFind, PieceFails;
      nverified, ok := nverified0, false;
      ghost var ends := endpts[..k + 1];
      assert ends == endpts[..k] + [q.e];
      if k < minMatches {
        Rejected(q, endpts[..k], limit, q.e);
        return;
      }
      forall i: nat | 1 <= i <= k ensures PieceAt(endpts, i, q.b, q.e) {
        PartialSteps(q, endpts[..k], i - 1);
        if i < k { PartialSteps(q, endpts[..k], i); }
        assert endpts[i - 1] == endpts[..k][i - 1] && (i < k ==> endpts[i] == endpts[..k][i]);
      }
      nverified, ok := VerifyPieces(t, endpts, nverified, k, q);
      if ok {
        PiecesFound(q, ends, pmatch[..]);
        FoundAll(q, endpts[..k], limit, pmatch[..]);
      } else {
        OneFails(q, ends, nverified + 1);
        Rejected(q, endpts[..k], limit, q.e);
      }
    }

    lemma PartialSteps(q: Problem, ends: seq<nat>, i: nat)
      requires q.Ok() && q.Partial(ends) && i < |ends|
      ensures q.b <= ends[i] <= q.e && (i + 1 < |ends| ==> ends[i] <= ends[i + 1])
    {
    }

    /** Piece number k ends at x: goes on with the next piece, verifies, or (back) gives up this endpoint. */
    method PlaceLonger(t: Subre, endpts: array<nat>, k0: nat, x: nat, nverified0: nat,
                       minMatches: nat, maxMatches: nat, e: nat, ghost q: Problem, ghost limit: nat)
      returns (k: nat, nverified: nat, back: bool, ok: bool)
      requires Standing(q, endpts, k0, limit, nverified0) && k0 > 0 && q.t == t && !q.Rev()
      requires minMatches == q.Min() && maxMatches == q.Max() && e == q.e
      requires q.Soonest(endpts[k0 - 1], limit, x)
      modifies pmatch, endpts
      ensures Searching(q) && endpts[..k0] == old(endpts[..k0]) && endpts[k0] == x
      ensures ok ==> Finds(v, t, q.b, q.e, q.pm0, pmatch[..])
      ensures !ok && back ==> k <= k0 && q.AllLater(endpts[..k + 1]) && nverified <= q.Max()
      ensures !ok && !back ==> k == k0 + 1 && Standing(q, endpts, k, e, nverified) && x <= limit
      ensures forall i :: 1 <= i <= nverified && i < k0 ==> CanFind(v, t, endpts[i - 1], endpts[i], q.pm0)
      decreases t, 2
    {
      hide Parts, Problem.AllAhead, Problem.AllLater, Problem.Soonest, Problem.Partial, Runnable, Proper, Finds, Touched, CanFind, SpansOk, Acc;
      SoonestBounds(q, endpts[k0 - 1], limit, x);
      PartialBounds(q, endpts[..k0]);
      k, nverified, back, ok := k0, nverified0, true, false;
      ghost var ends := endpts[..k];
      endpts[k] := x;
      assert endpts[..k] == ends && endpts[..k + 1] == ends + [x];
      if nverified >= k {
        nverified := k - 1;
      }
      if x != e {
        if k >= maxMatches {
          TooMany(q, ends, limit, x);
          k := k - 1;
        } else if endpts[k] == endpts[k - 1] && (k >= minMatches || minMatches - k < e - endpts[k]) {
          Rejected(q, ends, limit, x);
        } else {
          Extended(q, ends, limit, x);
          k, back := k + 1, false;
        }
      } else {
        nverified, ok := Finish(t, endpts, k, nverified, minMatches, q, limit);
      }
    }

    /** One round: finds an endpoint for piece number k, then goes on, verifies, or goes back. */
    method CiterStep(t: Subre, d: Dfa, endpts: array<nat>, k0: nat, limit0: nat, nverified0: nat,
                     minMatches: nat, maxMatches: nat, e: nat, ghost q: Problem)
      returns (k: nat, limit: nat, nverified: nat, ok: bool)
      requires Standing(q, endpts, k0, limit0, nverified0) && k0 > 0 && q.t == t && !q.Rev()
      requires minMatches == q.Min() && maxMatches == q.Max() && e == q.e
      requires d.Valid() && d.t == v.For(t.left.cnfa) && d.t.Valid()
      modifies pmatch, endpts, d, d.ssets
      ensures d.Valid() && Searching(q)
      ensures ok ==> Finds(v, t, q.b, q.e, q.pm0, pmatch[..])
      ensures !ok ==> Standing(q, endpts, k, limit, nverified)
      ensures !ok ==> Effort(q, endpts, k, limit) < old(Effort(q, endpts, k0, limit0))
      decreases t, 3
    {
      hide Dfa.Valid, Target.Accepts, Target.Valid, Finds, Parts, Problem.AllAhead, Problem.AllLater, Runnable, Proper, Touched, SpansOk, CanFind, Rank, Problem.Soonest, Problem.NoneFrom, Problem.Partial, Sooner;
      k, limit, nverified, ok := k0, limit0, nverified0, false;
      ghost var ends := endpts[..k];
      PartialBounds(q, ends);
      var x := EndLonger(d, endpts[k - 1], limit, q);
      if x == NIL {
        NoEndpoint(q, ends, limit);
        k := k - 1;
      } else {
        var back;
        k, nverified, back, ok := PlaceLonger(t, endpts, k, x, nverified, minMatches, maxMatches, e, q, limit);
        if ok {
          return;
        }
        if !back {
          limit := e;
          Advances(q, ends, limit0, x, e);
          assert endpts[..k] == ends + [x];
          return;
        }
      }
      k, limit := BackToShorter(endpts, k, minMatches, e, q);
      if k > 0 {
        assert endpts[..k] == ends[..k];
        Retreats(q, ends, limit0, k, limit, endpts[k]);
      }
    }

    lemma LongestIsSoonest(q: Problem, t: Target, p: nat, limit: nat, x: int)
      requires q.Ok() && q.v == v && !q.Rev() && t == v.For(q.t.left.cnfa) && t.Valid() && p <= limit <= q.e <= |v.text|
      requires x != NIL ==> p <= x <= limit && t.Accepts(p, x)
      requires forall y :: p <= y <= limit && t.Accepts(p, y) ==> y <= x
      ensures x != NIL ==> q.Soonest(p, limit, x)
      ensures x == NIL ==> q.NoneFrom(p, limit)
    {
    }

    lemma Advances(q: Problem, ends: seq<nat>, limit: nat, x: nat, limit': nat)
      requires q.Ok() && q.Partial(ends) && |ends| < q.Max() && q.b <= limit <= q.e && q.b <= x <= q.e
      requires q.b <= limit' <= q.e && !Sooner(q.Rev(), x, limit)
      ensures Rank(q.Rev(), q.b, q.e, ends + [x], limit', q.Max()) < Rank(q.Rev(), q.b, q.e, ends, limit, q.Max())
    {
      RankExtend(q.Rev(), q.b, q.e, ends, limit, x, limit', q.Max());
    }

    lemma Retreats(q: Problem, ends: seq<nat>, limit: nat, k: nat, limit': nat, x: nat)
      requires q.Ok() && q.Partial(ends) && 1 <= k <= |ends| && q.b <= limit <= q.e && q.b <= limit' <= q.e
      requires x == if k == |ends| then x else ends[k]
      requires Sooner(q.Rev(), x, limit') && (k == |ends| ==> !Sooner(q.Rev(), x, limit))
      ensures q.Partial(ends[..k])
      ensures Rank(q.Rev(), q.b, q.e, ends[..k], limit', q.Max()) < Rank(q.Rev(), q.b, q.e, ends, limit, q.Max())
    {
      PartialPrefix(q, ends, k);
      RankBack(q.Rev(), q.b, q.e, ends, limit, k, limit', q.Max());
    }

    /** As PlaceLonger, for a search that prefers short pieces. */
    method PlaceShorter(t: Subre, endpts: array<nat>, k0: nat, x: nat, nverified0: nat,
                        minMatches: nat, maxMatches: nat, e: nat, ghost q: Problem, ghost limit: nat)
      returns (k: nat, nverified: nat, back: bool, ok: bool)
      requires Standing(q, endpts, k0, limit, nverified0) && k0 > 0 && q.t == t && q.Rev()
      requires minMatches == q.Min() && maxMatches == q.Max() && e == q.e
      requires q.Soonest(endpts[k0 - 1], limit, x)
      requires limit == endpts[k0 - 1] ==> ZeroOk(k0, minMatches, limit, e)
      requires k0 == maxMatches ==> limit == e
      modifies pmatch, endpts
      ensures Searching(q) && endpts[..k0] == old(endpts[..k0]) && endpts[k0] == x
      ensures ok ==> Finds(v, t, q.b, q.e, q.pm0, pmatch[..])
      ensures !ok && back ==> k <= k0 && q.AllLater(endpts[..k + 1]) && nverified <= q.Max()
      ensures !ok && !back ==> k == k0 + 1 && Standing(q, endpts, k, x, nverified)
      ensures forall i :: 1 <= i <= nverified && i < k0 ==> CanFind(v, t, endpts[i - 1], endpts[i], q.pm0)
      decreases t, 2
    {
      hide Parts, Problem.AllAhead, Problem.AllLater, Problem.Soonest, Problem.Partial, Runnable, Proper, Finds, Touched, CanFind, SpansOk, Acc;
      SoonestBounds(q, endpts[k0 - 1], limit, x);
      PartialBounds(q, endpts[..k0]);
      k, nverified, back, ok := k0, nverified0, true, false;
      ghost var ends := endpts[..k];
      endpts[k] := x;
      assert endpts[..k] == ends && endpts[..k + 1] == ends + [x];
      if nverified >= k {
        nverified := k - 1;
      }
      if x != e {
        if k >= maxMatches {
          assert false;
        }
        Extended(q, ends, limit, x);
        k, back := k + 1, false;
      } else {
        nverified, ok := Finish(t, endpts, k, nverified, minMatches, q, limit);
      }
    }

    /** Where the endpoint of piece number k may be looked for: not at its start unless it may be
        empty, and only at the end if it is the last piece. */
    method ShorterLimit(prev: nat, k: nat, limit0: nat, minMatches: nat, maxMatches: nat, e: nat,
                        ghost q: Problem, ghost ends: seq<nat>)
      returns (limit: nat)
      requires q.Ok() && q.Rev() && q.Partial(ends) && q.AllAhead(ends, limit0) && k == |ends| && prev == ends[k - 1]
      requires minMatches == q.Min() && maxMatches == q.Max() && e == q.e && prev <= limit0 <= e
      ensures limit0 <= limit <= e && q.AllAhead(ends, limit)
      ensures limit == prev ==> ZeroOk(k, minMatches, limit, e)
      ensures k == maxMatches ==> limit == e
    {
      hide Problem.AllAhead;
      limit := limit0;
      if limit == prev && limit != e && (k >= minMatches || minMatches - k < e - limit) {
        SkipEmpty(q, ends, limit);
        limit := limit + 1;
      }
      if k >= maxMatches {
        LastToEnd(q, ends, limit);
        limit := e;
      }
    }

    /** As CiterStep, for a search that prefers short pieces. */
    method CreviterStep(t: Subre, d: Dfa, endpts: array<nat>, k0: nat, limit0: nat, nverified0: nat,
                        minMatches: nat, maxMatches: nat, e: nat, ghost q: Problem)
      returns (k: nat, limit: nat, nverified: nat, ok: bool)
      requires Standing(q, endpts, k0, limit0, nverified0) && k0 > 0 && q.t == t && q.Rev()
      requires minMatches == q.Min() && maxMatches == q.Max() && e == q.e
      requires d.Valid() && d.t == v.For(t.left.cnfa) && d.t.Valid()
      modifies pmatch, endpts, d, d.ssets
      ensures d.Valid() && Searching(q)
      ensures ok ==> Finds(v, t, q.b, q.e, q.pm0, pmatch[..])
      ensures !ok ==> Standing(q, endpts, k, limit, nverified)
      ensures !ok ==> Effort(q, endpts, k, limit) < old(Effort(q, endpts, k0, limit0))
      decreases t, 3
    {
      hide Dfa.Valid, Target.Accepts, Target.Valid, Finds, Parts, Problem.AllAhead, Problem.AllLater, Runnable, Proper, Touched, SpansOk, CanFind, Rank, Problem.Soonest, Problem.NoneFrom, Problem.Partial;
      k, limit, nverified, ok := k0, limit0, nverified0, false;
      ghost var ends := endpts[..k];
      PartialBounds(q, ends);
      limit := ShorterLimit(endpts[k - 1], k, limit, minMatches, maxMatches, e, q, ends);
      var x := EndShorter(d, endpts[k - 1], limit, e, q);
      if x == NIL {
        NoEndpoint(q, ends, limit);
        k := k - 1;
      } else {
        var back;
        k, nverified, back, ok := PlaceShorter(t, endpts, k, x, nverified, minMatches, maxMatches, e, q, limit);
        if ok {
          return;
        }
        if !back {
          limit := x;
          Advances(q, ends, limit0, x, x);
          assert endpts[..k] == ends + [x];
          return;
        }
      }
      k, limit := BackToLonger(endpts, k, e, q);
      if k > 0 {
        assert endpts[..k] == ends[..k];
        PartialSteps(q, ends, k - 1);
        Retreats(q, ends, limit0, k, limit, endpts[k]);
      }
    }

    /** The shortest piece from p that reaches limit, if there is one. */
    method EndShorter(d: Dfa, p: nat, limit: nat, e: nat, ghost q: Problem) returns (x: int)
      requires q.Ok() && q.v == v && q.Rev() && d.Valid() && d.t == v.For(q.t.left.cnfa) && d.t.Valid()
      requires e == q.e && p <= limit <= e <= |v.text|
      modifies d, d.ssets
      ensures d.Valid() && x >= NIL
      ensures if x == NIL then q.NoneFrom(p, limit) else q.Soonest(p, limit, x) && p <= x <= e && limit <= x
    {
      hide Dfa.Valid, Target.Accepts, Target.Valid;
      var cold, hitstop;
      x, cold, hitstop := d.Shortest(p, limit, e);
      ShortestIsSoonest(q, d.t, p, limit, x);
    }

    /** The longest piece from p that does not pass limit, if there is one. */
    method EndLonger(d: Dfa, p: nat, limit: nat, ghost q: Problem) returns (x: int)
      requires q.Ok() && q.v == v && !q.Rev() && d.Valid() && d.t == v.For(q.t.left.cnfa) && d.t.Valid()
      requires p <= limit <= q.e <= |v.text|
      modifies d, d.ssets
      ensures d.Valid() && x >= NIL
      ensures if x == NIL then q.NoneFrom(p, limit) else q.Soonest(p, limit, x) && p <= x <= limit && !Sooner(q.Rev(), x, limit)
    {
      hide Dfa.Valid, Target.Accepts, Target.Valid;
      var hitstop;
      x, hitstop := d.Longest(p, limit);
      LongestIsSoonest(q, d.t, p, limit, x);
    }

    lemma ShortestIsSoonest(q: Problem, t: Target, p: nat, limit: nat, x: int)
      requires q.Ok() && q.v == v && q.Rev() && t == v.For(q.t.left.cnfa) && t.Valid() && p <= limit <= q.e <= |v.text|
      requires x != NIL ==> limit <= x <= q.e && t.Accepts(p, x)
      requires forall y :: limit <= y <= q.e && t.Accepts(p, y) ==> x != NIL && x <= y
      ensures x != NIL ==> q.Soonest(p, limit, x)
      ensures x == NIL ==> q.NoneFrom(p, limit)
    {
    }
  }
}
