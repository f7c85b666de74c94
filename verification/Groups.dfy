/** What the submatches are: each group that is set holds the stretch on which its node was dissected, where
    concatenations give the left child the longest stretch that leaves the right child one (or the shortest, if
    it prefers that), alternations take the first alternative that accepts, and iterations report their last piece. */
module Groups {
  import opened CompactNfa
  import opened Divisions
  import opened Subexpr
  import opened Preference

  /** A node of t captures group n. */
  ghost predicate Has(t: Subre, n: nat) {
    match t
    case Plain(_, _) => false
    case Backref(_, _, _, _, _) => false
    case Capture(_, _, k, l) => k == n || Has(l, n)
    case Concat(_, _, l, r) => Has(l, n) || Has(r, n)
    case Alt(_, _, alts) => HasAny(alts, n)
    case Iter(_, _, l, _, _) => Has(l, n)
  }

  ghost predicate HasAny(alts: Alternatives, n: nat) {
    alts.More? && (Has(alts.left, n) || HasAny(alts.rest, n))
  }

  /** Different branches of t do not capture the same group. */
  ghost predicate Once(t: Subre, n: nat) {
    match t
    case Plain(_, _) => true
    case Backref(_, _, _, _, _) => true
    case Capture(_, _, k, l) => Once(l, n)
    case Concat(_, _, l, r) => Once(l, n) && Once(r, n) && !(Has(l, n) && Has(r, n))
    case Alt(_, _, alts) => OnceAny(alts, n)
    case Iter(_, _, l, _, _) => Once(l, n)
  }

  ghost predicate OnceAny(alts: Alternatives, n: nat) {
    alts.More? ==> Once(alts.left, n) && OnceAny(alts.rest, n) && !(Has(alts.left, n) && HasAny(alts.rest, n))
  }

  lemma {:induction false} CapsAre(t: Subre, n: nat)
    ensures n in Caps(t) <==> Has(t, n)
    decreases t
  {
    match t
    case Plain(_, _) =>
    case Backref(_, _, _, _, _) =>
    case Capture(_, _, _, l) => CapsAre(l, n);
    case Concat(_, _, l, r) =>
      CapsAre(l, n);
      CapsAre(r, n);
    case Alt(_, _, alts) => AllCapsAre(alts, n);
    case Iter(_, _, l, _, _) => CapsAre(l, n);
  }

  lemma {:induction false} AllCapsAre(alts: Alternatives, n: nat)
    ensures n in CapsOfAll(alts) <==> HasAny(alts, n)
    decreases alts
  {
    if alts.More? {
      CapsAre(alts.left, n);
      AllCapsAre(alts.rest, n);
    }
  }

  // ---------------------------------------------------------------- where a group is

  /** Matching b..e, t has group n on x..y. */
  ghost predicate On(v: Subject, t: Subre, b: nat, e: nat, n: nat, x: nat, y: nat)
    decreases t
  {
    match t
    case Plain(_, _) => false
    case Backref(_, _, _, _, _) => false
    case Capture(_, _, k, l) => if k == n then x == b && y == e else On(v, l, b, e, n, x, y)
    case Concat(_, _, l, r) => exists m :: Split(v, t, b, m, e) && (On(v, l, b, m, n, x, y) || On(v, r, m, e, n, x, y))
    case Alt(_, _, alts) => OnFirst(v, alts, b, e, n, x, y)
    case Iter(_, _, l, min, _) =>
      !(b == e && min == 0) && exists d :: Pieces(v, t, d, b, e) && On(v, l, d[|d| - 2], e, n, x, y)
  }

  ghost predicate OnFirst(v: Subject, alts: Alternatives, b: nat, e: nat, n: nat, x: nat, y: nat)
    decreases alts
  {
    alts.More? && if Acc(v, alts.left, b, e) then On(v, alts.left, b, e, n, x, y) else OnFirst(v, alts.rest, b, e, n, x, y)
  }

  /** The left child takes b..m: the longest of the stretches that leave the right child one, or the shortest. */
  ghost predicate Split(v: Subject, t: Subre, b: nat, m: nat, e: nat)
    requires t.Concat?
  {
    && Acc(v, t.left, b, m) && Acc(v, t.right, m, e)
    && forall k: nat :: Acc(v, t.left, b, k) && Acc(v, t.right, k, e) ==> if t.left.shorter then m <= k else k <= m
  }

  /** Where two divisions first differ, the first one's piece is longer, or shorter. */
  ghost predicate Prior(shorter: bool, d: seq<nat>, e: seq<nat>) {
    exists j :: 0 <= j < |d| && j < |e| && d[..j] == e[..j] && if shorter then d[j] < e[j] else d[j] > e[j]
  }

  /** d divides b..e into pieces, and any other division that is considered has a less preferred piece where it first differs. */
  ghost predicate Pieces(v: Subject, t: Subre, d: seq<nat>, b: nat, e: nat)
    requires t.Iter?
  {
    |d| >= 2 && Parts(v, t, d, b, e) && forall p :: Parts(v, t, p, b, e) && p != d ==> Prior(t.left.shorter, d, p)
  }

  lemma SplitIsBest(v: Subject, t: Subre, b: nat, m: nat, e: nat)
    requires t.Concat?
    ensures BestSplit(v, t, b, m, e) <==> Split(v, t, b, m, e)
  {
    hide Acc;
    forall k: nat ensures SplitAt(v, t, b, k, e) <==> Acc(v, t.left, b, k) && Acc(v, t.right, k, e) {
    }
  }

  lemma PriorIsLater(shorter: bool, d: seq<nat>, p: seq<nat>)
    requires |d| > 0 && |p| > 0 && d[0] == p[0]
    ensures Prior(shorter, d, p) <==> Later(shorter, p, d)
  {
  }

  lemma PiecesAreBest(v: Subject, t: Subre, d: seq<nat>, b: nat, e: nat)
    requires t.Iter?
    ensures BestParts(v, t, d, b, e) <==> Pieces(v, t, d, b, e)
    ensures Pieces(v, t, d, b, e) ==> d[|d| - 1] == e
  {
    hide Acc, Later, Prior;
    forall p | Parts(v, t, p, b, e) && Parts(v, t, d, b, e) ensures Prior(t.left.shorter, d, p) <==> Later(t.left.shorter, p, d) {
      PriorIsLater(t.left.shorter, d, p);
    }
  }

  lemma OneSplit(v: Subject, t: Subre, b: nat, m: nat, k: nat, e: nat)
    requires t.Concat? && Split(v, t, b, m, e) && Split(v, t, b, k, e)
    ensures m == k
  {
  }

  lemma OneDivision(v: Subject, t: Subre, d: seq<nat>, p: seq<nat>, b: nat, e: nat)
    requires t.Iter? && Pieces(v, t, d, b, e) && Pieces(v, t, p, b, e)
    ensures d == p
  {
    hide Parts;
    if d != p {
      PiecesAreBest(v, t, d, b, e);
      PiecesAreBest(v, t, p, b, e);
      LaterAsymmetric(t.left.shorter, d, p);
    }
  }

  lemma {:induction false} OnHas(v: Subject, t: Subre, b: nat, e: nat, n: nat, x: nat, y: nat)
    requires On(v, t, b, e, n, x, y)
    ensures Has(t, n)
    decreases t
  {
    match t
    case Capture(_, _, k, l) =>
      if k != n {
        OnHas(v, l, b, e, n, x, y);
      }
    case Concat(_, _, l, r) =>
      var m :| Split(v, t, b, m, e) && (On(v, l, b, m, n, x, y) || On(v, r, m, e, n, x, y));
      if On(v, l, b, m, n, x, y) {
        OnHas(v, l, b, m, n, x, y);
      } else {
        OnHas(v, r, m, e, n, x, y);
      }
    case Alt(_, _, alts) => OnHasAny(v, alts, b, e, n, x, y);
    case Iter(_, _, l, _, _) =>
      var d :| Pieces(v, t, d, b, e) && On(v, l, d[|d| - 2], e, n, x, y);
      OnHas(v, l, d[|d| - 2], e, n, x, y);
  }

  lemma {:induction false} OnHasAny(v: Subject, alts: Alternatives, b: nat, e: nat, n: nat, x: nat, y: nat)
    requires OnFirst(v, alts, b, e, n, x, y)
    ensures HasAny(alts, n)
    decreases alts
  {
    if Acc(v, alts.left, b, e) {
      OnHas(v, alts.left, b, e, n, x, y);
    } else {
      OnHasAny(v, alts.rest, b, e, n, x, y);
    }
  }

  /** A group between two other parts, as in a(b+)c, is where the two splits put it. */
  lemma InMiddle(v: Subject, t: Subre, b: nat, e: nat, n: nat, x: nat, y: nat)
    requires t.Concat? && t.right.Concat? && t.right.left.Capture? && t.right.left.subno == n
    requires !Has(t.left, n) && !Has(t.right.right, n)
    ensures On(v, t, b, e, n, x, y) <==> Split(v, t, b, x, e) && Split(v, t.right, x, y, e)
  {
    hide Split;
    if On(v, t, b, e, n, x, y) {
      var m :| Split(v, t, b, m, e) && (On(v, t.left, b, m, n, x, y) || On(v, t.right, m, e, n, x, y));
      if On(v, t.left, b, m, n, x, y) {
        OnHas(v, t.left, b, m, n, x, y);
      }
      var k :| Split(v, t.right, m, k, e) && (On(v, t.right.left, m, k, n, x, y) || On(v, t.right.right, k, e, n, x, y));
      if On(v, t.right.right, k, e, n, x, y) {
        OnHas(v, t.right.right, k, e, n, x, y);
      }
    }
    if Split(v, t, b, x, e) && Split(v, t.right, x, y, e) {
      assert On(v, t.right.left, x, y, n, x, y);
      assert On(v, t.right, x, e, n, x, y);
    }
  }

  // ---------------------------------------------------------------- what is reported

  /** Group n is reported where it is, and reported as unset if it is nowhere. */
  ghost predicate Reported(v: Subject, t: Subre, b: nat, e: nat, pm: seq<Span>, n: nat)
    requires n < |pm|
  {
    && (pm[n] == NoSpan || exists x: nat, y: nat :: pm[n] == Span(x, y))
    && forall x: nat, y: nat :: On(v, t, b, e, n, x, y) <==> pm[n] == Span(x, y)
  }

  /** Other groups than those of t stay as they were. */
  lemma {:induction false} PreferredKeeps(v: Subject, t: Subre, b: nat, e: nat, pm0: seq<Span>, pm1: seq<Span>, n: nat)
    requires Preferred(v, t, b, e, pm0, pm1) && n < |pm0|
    ensures |pm1| == |pm0| && (!Has(t, n) ==> pm1[n] == pm0[n])
    decreases t
  {
    match t
    case Plain(_, _) =>
    case Capture(_, _, k, l) =>
      var pm :| Preferred(v, l, b, e, pm0, pm) && pm1 == Recorded(pm, k, b, e);
      PreferredKeeps(v, l, b, e, pm0, pm, n);
    case Concat(_, _, l, r) =>
      var m :| BestSplit(v, t, b, m, e) && PreferredSplit(v, t, b, m, e, pm0, pm1);
      var pm := PreferredVia(v, t, b, m, e, pm0, pm1);
      PreferredKeeps(v, l, b, m, pm0, pm, n);
      PreferredKeeps(v, r, m, e, pm, pm1, n);
    case Alt(_, _, alts) => AnyKeeps(v, alts, b, e, pm0, pm1, n);
    case Iter(_, _, l, min, _) =>
      if !(b == e && min == 0) {
        var d := PreferredParts(v, t, b, e, pm0, pm1);
        CapsAre(l, n);
        PreferredKeeps(v, l, d[|d| - 2], d[|d| - 1], Restart(t, pm0), pm1, n);
      }
  }

  lemma {:induction false} AnyKeeps(v: Subject, alts: Alternatives, b: nat, e: nat, pm0: seq<Span>, pm1: seq<Span>, n: nat)
    requires PreferredAlt(v, alts, b, e, pm0, pm1) && n < |pm0|
    ensures |pm1| == |pm0| && (!HasAny(alts, n) ==> pm1[n] == pm0[n])
    decreases alts
  {
    if Acc(v, alts.left, b, e) {
      PreferredKeeps(v, alts.left, b, e, pm0, pm1, n);
    } else {
      AnyKeeps(v, alts.rest, b, e, pm0, pm1, n);
    }
  }

  /** The preferred outcome reports each group exactly where it is. */
  lemma {:induction false} GroupsAre(v: Subject, t: Subre, b: nat, e: nat, pm0: seq<Span>, pm1: seq<Span>, n: nat)
    requires Preferred(v, t, b, e, pm0, pm1) && Once(t, n) && n < |pm0| && pm0[n] == NoSpan
    ensures |pm1| == |pm0| && Reported(v, t, b, e, pm1, n)
    decreases t, 1
  {
    PreferredKeeps(v, t, b, e, pm0, pm1, n);
    match t
    case Plain(_, _) =>
    case Capture(_, _, k, l) =>
      var pm :| Preferred(v, l, b, e, pm0, pm) && pm1 == Recorded(pm, k, b, e);
      GroupsAre(v, l, b, e, pm0, pm, n);
    case Concat(_, _, _, _) => GroupsOfSplit(v, t, b, e, pm0, pm1, n);
    case Alt(_, _, alts) => GroupsOfAny(v, alts, b, e, pm0, pm1, n);
    case Iter(_, _, l, min, _) =>
      if !(b == e && min == 0) {
        GroupsOfLast(v, t, b, e, pm0, pm1, n);
      }
  }

  lemma {:induction false} GroupsOfSplit(v: Subject, t: Subre, b: nat, e: nat, pm0: seq<Span>, pm1: seq<Span>, n: nat)
    requires t.Concat? && Preferred(v, t, b, e, pm0, pm1) && Once(t, n) && n < |pm0| && pm0[n] == NoSpan
    ensures |pm1| == |pm0| && Reported(v, t, b, e, pm1, n)
    decreases t, 0
  {
    hide Preferred, Once, Acc;
    var m := SplitFor(v, t, b, e, pm0, pm1);
    var pm := PreferredVia(v, t, b, m, e, pm0, pm1);
    SplitOnce(t, n);
    PreferredKeeps(v, t.left, b, m, pm0, pm, n);
    PreferredKeeps(v, t.right, m, e, pm, pm1, n);
    GroupsAre(v, t.left, b, m, pm0, pm, n);
    if pm[n] == NoSpan {
      GroupsAre(v, t.right, m, e, pm, pm1, n);
    } else {
      var x: nat, y: nat :| pm[n] == Span(x, y);
      OnHas(v, t.left, b, m, n, x, y);
    }
    forall x: nat, y: nat ensures On(v, t, b, e, n, x, y) <==> On(v, t.left, b, m, n, x, y) || On(v, t.right, m, e, n, x, y) {
      OnSplit(v, t, b, m, e, n, x, y);
    }
    forall x: nat, y: nat | On(v, t.right, m, e, n, x, y) ensures Has(t.right, n) {
      OnHas(v, t.right, m, e, n, x, y);
    }
    forall x: nat, y: nat | On(v, t.left, b, m, n, x, y) ensures Has(t.left, n) {
      OnHas(v, t.left, b, m, n, x, y);
    }
  }

  lemma SplitOnce(t: Subre, n: nat)
    requires t.Concat? && Once(t, n)
    ensures Once(t.left, n) && Once(t.right, n) && !(Has(t.left, n) && Has(t.right, n))
  {
  }

  lemma SplitFor(v: Subject, t: Subre, b: nat, e: nat, pm0: seq<Span>, pm1: seq<Span>) returns (m: nat)
    requires t.Concat? && Preferred(v, t, b, e, pm0, pm1)
    ensures Split(v, t, b, m, e) && PreferredSplit(v, t, b, m, e, pm0, pm1)
  {
    m :| BestSplit(v, t, b, m, e) && PreferredSplit(v, t, b, m, e, pm0, pm1);
    SplitIsBest(v, t, b, m, e);
  }

  lemma OnSplit(v: Subject, t: Subre, b: nat, m: nat, e: nat, n: nat, x: nat, y: nat)
    requires t.Concat? && Split(v, t, b, m, e)
    ensures On(v, t, b, e, n, x, y) <==> On(v, t.left, b, m, n, x, y) || On(v, t.right, m, e, n, x, y)
  {
    hide Split;
    if On(v, t, b, e, n, x, y) {
      var k :| Split(v, t, b, k, e) && (On(v, t.left, b, k, n, x, y) || On(v, t.right, k, e, n, x, y));
      OneSplit(v, t, b, m, k, e);
    }
  }

  lemma {:induction false} GroupsOfAny(v: Subject, alts: Alternatives, b: nat, e: nat, pm0: seq<Span>, pm1: seq<Span>, n: nat)
    requires PreferredAlt(v, alts, b, e, pm0, pm1) && OnceAny(alts, n) && n < |pm0| && pm0[n] == NoSpan
    ensures |pm1| == |pm0| && (pm1[n] == NoSpan || exists x: nat, y: nat :: pm1[n] == Span(x, y))
    ensures forall x: nat, y: nat :: OnFirst(v, alts, b, e, n, x, y) <==> pm1[n] == Span(x, y)
    decreases alts
  {
    if Acc(v, alts.left, b, e) {
      GroupsAre(v, alts.left, b, e, pm0, pm1, n);
    } else {
      GroupsOfAny(v, alts.rest, b, e, pm0, pm1, n);
    }
  }

  lemma {:induction false} GroupsOfLast(v: Subject, t: Subre, b: nat, e: nat, pm0: seq<Span>, pm1: seq<Span>, n: nat)
    requires t.Iter? && !(b == e && t.min == 0)
    requires Preferred(v, t, b, e, pm0, pm1) && Once(t, n) && n < |pm0| && pm0[n] == NoSpan
    ensures |pm1| == |pm0| && Reported(v, t, b, e, pm1, n)
    decreases t, 0
  {
    hide Preferred, Pieces, Parts, BestParts;
    var d := PreferredParts(v, t, b, e, pm0, pm1);
    PiecesAreBest(v, t, d, b, e);
    GroupsAre(v, t.left, d[|d| - 2], d[|d| - 1], Restart(t, pm0), pm1, n);
    forall x: nat, y: nat ensures On(v, t, b, e, n, x, y) <==> On(v, t.left, d[|d| - 2], e, n, x, y) {
      OnLast(v, t, d, b, e, n, x, y);
    }
  }

  lemma OnLast(v: Subject, t: Subre, d: seq<nat>, b: nat, e: nat, n: nat, x: nat, y: nat)
    requires t.Iter? && !(b == e && t.min == 0) && Pieces(v, t, d, b, e) && |d| >= 2
    ensures On(v, t, b, e, n, x, y) <==> On(v, t.left, d[|d| - 2], e, n, x, y)
  {
    hide Parts, Prior;
    if On(v, t, b, e, n, x, y) {
      var p :| Pieces(v, t, p, b, e) && On(v, t.left, p[|p| - 2], e, n, x, y);
      OneDivision(v, t, d, p, b, e);
    }
  }
}
