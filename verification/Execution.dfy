/** Executing an expression without back references: the leftmost match and
    the submatches that the expression prefers. */
module Execution {
  import opened CompactNfa
  import opened LazyDfa
  import opened SearchNfa
  import opened Search
  import opened Subexpr
  import opened Preference
  import opened Dissect
  import Groups

  /** The submatch vector before dissection: only the whole match is known. */
  ghost function Whole(nmatch: nat, so: nat, eo: nat): (pm: seq<Span>)
    ensures |pm| == nmatch && forall i :: 0 <= i < nmatch ==> pm[i] == if i == 0 then Span(so, eo) else NoSpan
  {
    seq(nmatch, i requires 0 <= i < nmatch => if i == 0 then Span(so, eo) else NoSpan)
  }

  /** Clears all groups but the whole match. */
  method ZapAllSubs(pmatch: array<Span>)
    modifies pmatch
    ensures forall i :: 0 <= i < pmatch.Length ==> pmatch[i] == if i == 0 then old(pmatch[0]) else NoSpan
  {
    var i := pmatch.Length - 1;
    while i > 0
      invariant i < pmatch.Length && (pmatch.Length > 0 ==> i >= 0)
      invariant forall j :: 0 <= j < pmatch.Length ==> pmatch[j] == if j > i then NoSpan else old(pmatch[j])
    {
      pmatch[i] := NoSpan;
      i := i - 1;
    }
  }

  /** Finds the leftmost match of t and its submatches; s is the search NFA's target. */
  method FindAndDissect(h: Matcher, t: Subre, s: Target, small: bool, ghost q: Pairing) returns (st: Status)
    requires h.Valid() && q.Ok() && q.m == h.v.For(t.cnfa) && q.s == s && s.cnfa.NoShortcut()
    requires Runnable(h.v, t) && Proper(t, h.pmatch.Length) && 0 !in Caps(t)
    requires NoBackref(t) && Consistent(h.v, t)
    modifies h.pmatch
    ensures st == Okay <==> SomeMatch(q.m)
    ensures st == Okay && h.pmatch.Length > 0 ==>
              exists so: nat, eo: nat :: Leftmost(q.m, t.shorter, so, eo) && h.pmatch[0] == Span(so, eo)
                && (h.pmatch.Length > 1 ==> Preferred(h.v, t, so, eo, Whole(h.pmatch.Length, so, eo), h.pmatch[..]))
                && forall n: nat :: 0 < n < h.pmatch.Length ==> Groups.Reported(h.v, t, so, eo, h.pmatch[..], n)
  {
    hide Groups.Reported, Pairing.Ok, Leftmost, SomeMatch, Preferred, Finds, Fails, Runnable, Proper, NoBackref, Consistent, Cnfa.NoShortcut, Target.Valid, Target.Accepts;
    var so, eo;
    MainTarget(h.v, t);
    st, so, eo := SimpleFind(h.v.For(t.cnfa), s, t.shorter, h.pmatch.Length, small, q);
    if st == NoMatch || h.pmatch.Length == 0 {
      return;
    }
    LeftmostAccepted(h.v, t, so, eo);
    h.pmatch[0] := Span(so, eo);
    if h.pmatch.Length == 1 {
      return;
    }
    ZapAllSubs(h.pmatch);
    ghost var pm := h.pmatch[..];
    assert pm == Whole(h.pmatch.Length, so, eo);
    var ok := h.Cdissect(t, so, eo);
    NeverFails(h.v, t, so, eo, pm);
    FindsPreferred(h.v, t, so, eo, pm, h.pmatch[..]);
    assert h.pmatch[0] == pm[0];
    forall n: nat | 0 < n < h.pmatch.Length ensures Groups.Reported(h.v, t, so, eo, h.pmatch[..], n) {
      ProperOnce(t, h.pmatch.Length, n);
      Groups.GroupsAre(h.v, t, so, eo, pm, h.pmatch[..], n);
    }
    st := if ok then Okay else NoMatch;
  }

  /** No group is captured in two branches. */
  lemma {:induction false} ProperOnce(t: Subre, nmatch: nat, n: nat)
    requires Proper(t, nmatch)
    ensures Groups.Once(t, n)
    decreases t
  {
    match t
    case Plain(_, _) =>
    case Backref(_, _, _, _, _) =>
    case Capture(_, _, _, l) => ProperOnce(l, nmatch, n);
    case Concat(_, _, l, r) =>
      ProperOnce(l, nmatch, n);
      ProperOnce(r, nmatch, n);
      Groups.CapsAre(l, n);
      Groups.CapsAre(r, n);
    case Alt(_, _, alts) => ProperOnceAny(alts, nmatch, n);
    case Iter(_, _, l, _, _) => ProperOnce(l, nmatch, n);
  }

  lemma {:induction false} ProperOnceAny(alts: Alternatives, nmatch: nat, n: nat)
    requires ProperAll(alts, nmatch)
    ensures Groups.OnceAny(alts, n)
    decreases alts
  {
    if alts.More? {
      ProperOnce(alts.left, nmatch, n);
      ProperOnceAny(alts.rest, nmatch, n);
      Groups.CapsAre(alts.left, n);
      Groups.AllCapsAre(alts.rest, n);
    }
  }

  lemma MainTarget(v: Subject, t: Subre)
    requires Runnable(v, t)
    ensures v.For(t.cnfa).Valid() && t.cnfa.NoShortcut()
  {
  }

  lemma LeftmostAccepted(v: Subject, t: Subre, so: nat, eo: nat)
    requires v.For(t.cnfa).Valid() && Leftmost(v.For(t.cnfa), t.shorter, so, eo)
    ensures so <= eo <= |v.text| && Acc(v, t, so, eo)
  {
  }
}
