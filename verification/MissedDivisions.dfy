/** Exactly which iterations with a minimum of two or more are divided, and one that is not. */
module MissedDivisions {
  import opened CompactNfa
  import opened Divisions
  import opened Subexpr
  import opened IterationSearch

  /** d divides b..e into pieces that the child's NFA accepts, none of them empty. */
  ghost predicate Growing(v: Subject, t: Subre, d: seq<nat>, b: nat, e: nat)
    requires t.Iter?
  {
    && Division(d, b, e) && (t.max.AtMost? ==> |d| - 1 <= t.max.n)
    && forall i :: 1 <= i < |d| ==> d[i - 1] < d[i] && Acc(v, t.left, d[i - 1], d[i])
  }

  /** An empty piece may follow piece j, and from there on every piece is one character. */
  ghost predicate CanPad(v: Subject, t: Subre, d: seq<nat>, j: nat, e: nat)
    requires t.Iter?
  {
    j < |d| - 1 && Acc(v, t.left, d[j], d[j]) && e == d[j] + (|d| - 1 - j)
  }

  /** There are enough pieces, or room for the empty ones that are owed. */
  ghost predicate Enough(v: Subject, t: Subre, d: seq<nat>, e: nat)
    requires t.Iter?
  {
    |d| - 1 >= t.min || exists j: nat :: CanPad(v, t, d, j, e)
  }

  lemma {:induction false} GrowingFar(v: Subject, t: Subre, d: seq<nat>, b: nat, e: nat, i: nat, j: nat)
    requires t.Iter? && Growing(v, t, d, b, e) && i <= j < |d|
    ensures d[i] + (j - i) <= d[j]
  {
    if i < j {
      GrowingFar(v, t, d, b, e, i, j - 1);
    }
  }

  /** A division without empty pieces that has enough of them is considered. */
  lemma EnoughPieces(v: Subject, t: Subre, d: seq<nat>, b: nat, e: nat)
    requires t.Iter? && t.min >= 2 && Growing(v, t, d, b, e) && |d| - 1 >= t.min
    ensures Parts(v, t, d, b, e)
  {
    hide Acc;
    GrowingFar(v, t, d, b, e, 0, |d| - 1);
    forall i | 1 <= i < |d| - 1 ensures d[i] < e {
      GrowingFar(v, t, d, b, e, i, |d| - 1);
    }
  }

  /** The empty pieces that are owed, put in after piece j. */
  ghost function Padded(d: seq<nat>, j: nat, n: nat): (r: seq<nat>)
    requires j < |d|
    ensures |r| == |d| + n
    ensures forall i: nat :: i < |r| ==> r[i] == d[Unpadded(j, n, i)]
  {
    seq(|d| + n, i requires 0 <= i < |d| + n => d[Unpadded(j, n, i)])
  }

  /** Which endpoint of d an endpoint of the padded division is. */
  ghost function Unpadded(j: nat, n: nat, i: nat): (k: nat)
    ensures i <= j ==> k == i
    ensures j <= i <= j + n ==> k == j
    ensures i >= j + n ==> k == i - n
  {
    if i <= j then i else if i <= j + n then j else i - n
  }

  /** A division without empty pieces that has too few of them is considered with empty ones added. */
  lemma PaddedParts(v: Subject, t: Subre, d: seq<nat>, j: nat, b: nat, e: nat)
    requires t.Iter? && t.min >= 2 && Growing(v, t, d, b, e) && |d| - 1 < t.min && CanPad(v, t, d, j, e)
    ensures Parts(v, t, Padded(d, j, t.min - (|d| - 1)), b, e)
  {
    hide Acc, Division, Unpadded;
    var n := t.min - (|d| - 1);
    var r := Padded(d, j, n);
    PaddedDivides(v, t, d, j, n, b, e);
    PaddedPieces(v, t, d, j, n, b, e);
    DivisionFacts(d, b, e);
    forall i | 1 <= i < |r| && r[i] == r[i - 1] ensures ZeroOk(i, MinMatches(t.min), r[i - 1], e) {
      assert j < i <= j + n && Unpadded(j, n, i - 1) == j;
    }
  }

  lemma DivisionFacts(d: seq<nat>, b: nat, e: nat)
    requires Division(d, b, e)
    ensures b <= e && forall i :: 0 <= i < |d| ==> d[i] <= e
  {
  }

  lemma PaddedDivides(v: Subject, t: Subre, d: seq<nat>, j: nat, n: nat, b: nat, e: nat)
    requires t.Iter? && Growing(v, t, d, b, e) && j < |d| - 1
    ensures Division(Padded(d, j, n), b, e) && forall i :: 1 <= i < |d| + n - 1 ==> Padded(d, j, n)[i] < e
  {
    hide Acc, Unpadded;
    var r := Padded(d, j, n);
    forall i: nat | i < |d| - 1 ensures d[i] < e {
      GrowingFar(v, t, d, b, e, i, |d| - 1);
    }
    forall i: nat | i < |r| - 1 ensures r[i] <= r[i + 1] {
      var x := Unpadded(j, n, i);
      assert Unpadded(j, n, i + 1) == x || Unpadded(j, n, i + 1) == x + 1;
    }
    forall i: nat | i < |r| ensures b <= r[i] <= e {
      assert b <= d[Unpadded(j, n, i)] <= e;
    }
  }

  lemma PaddedPieces(v: Subject, t: Subre, d: seq<nat>, j: nat, n: nat, b: nat, e: nat)
    requires t.Iter? && Growing(v, t, d, b, e) && j < |d| - 1 && Acc(v, t.left, d[j], d[j])
    ensures var r := Padded(d, j, n);
            forall i :: 1 <= i < |r| ==> Acc(v, t.left, r[i - 1], r[i]) && (r[i] == r[i - 1] ==> j < i <= j + n)
  {
    hide Acc, Unpadded;
    var r := Padded(d, j, n);
    forall i: nat | 1 <= i < |r| ensures Acc(v, t.left, r[i - 1], r[i]) && (r[i] == r[i - 1] ==> j < i <= j + n) {
      var x, y := Unpadded(j, n, i - 1), Unpadded(j, n, i);
      assert y == x + 1 || (x == y == j && j < i <= j + n);
      if y == x + 1 {
        assert d[y - 1] < d[y] && Acc(v, t.left, d[y - 1], d[y]);
      }
    }
  }

  /** The last empty piece of a division, if it has one. */
  ghost predicate LastEmpty(d: seq<nat>, i: nat) {
    1 <= i < |d| && d[i] == d[i - 1] && forall k :: i < k < |d| ==> d[k - 1] != d[k]
  }

  lemma FindLastEmpty(d: seq<nat>, b: nat, e: nat) returns (i: nat)
    requires Division(d, b, e)
    ensures i == 0 || LastEmpty(d, i)
    ensures i == 0 ==> forall k :: 1 <= k < |d| ==> d[k - 1] != d[k]
  {
    i := |d| - 1;
    while i > 0 && d[i] != d[i - 1]
      invariant i < |d| && forall k :: i < k < |d| ==> d[k - 1] != d[k]
    {
      i := i - 1;
    }
  }

  lemma {:induction false} TailFar(d: seq<nat>, b: nat, e: nat, i: nat, j: nat)
    requires Division(d, b, e) && i <= j < |d| && forall k :: i < k < |d| ==> d[k - 1] != d[k]
    ensures d[i] + (j - i) <= d[j]
  {
    if i < j {
      TailFar(d, b, e, i, j - 1);
    }
  }

  /** After the last empty piece the pieces owed and the characters left are the same number. */
  lemma LastEmptyTight(v: Subject, t: Subre, d: seq<nat>, b: nat, e: nat, i: nat)
    requires t.Iter? && t.min >= 2 && b < e && Parts(v, t, d, b, e) && LastEmpty(d, i)
    ensures d[i] < e && |d| - 1 == t.min && e == d[i] + (|d| - 1 - i) && i < |d| - 1
  {
    hide Acc;
    TailFar(d, b, e, i, |d| - 1);
    assert d[i - 1] < e by {
      if i - 1 >= 1 {
        assert d[i - 1] < e;
      }
    }
  }

  /** A division that is considered gives one without empty pieces. */
  lemma PartsGrow(v: Subject, t: Subre, d: seq<nat>, b: nat, e: nat) returns (p: seq<nat>)
    requires t.Iter? && t.min >= 2 && (t.max.AtMost? ==> t.min <= t.max.n) && b < e && Parts(v, t, d, b, e)
    ensures Growing(v, t, p, b, e) && Enough(v, t, p, e)
  {
    hide Acc;
    var i := FindLastEmpty(d, b, e);
    if i == 0 {
      p := d;
    } else {
      LastEmptyTight(v, t, d, b, e, i);
      assert Acc(v, t.left, d[i - 1], d[i]);
      if d[i] == b {
        p := d[i..];
        TailGrows(v, t, d, b, e, i);
        assert CanPad(v, t, p, 0, e);
      } else {
        p := HeadAndTail(v, t, d, b, e, i);
      }
    }
  }

  lemma TailGrows(v: Subject, t: Subre, d: seq<nat>, b: nat, e: nat, i: nat)
    requires t.Iter? && Division(d, b, e) && i < |d| - 1 && d[i] == b && (t.max.AtMost? ==> |d| - 1 <= t.max.n)
    requires forall k :: i < k < |d| ==> d[k - 1] != d[k]
    requires forall k :: 1 <= k < |d| ==> Acc(v, t.left, d[k - 1], d[k])
    ensures Growing(v, t, d[i..], b, e)
  {
    hide Acc;
    var p := d[i..];
    assert forall k :: 0 <= k < |p| ==> p[k] == d[i + k];
    forall k | 1 <= k < |p| ensures p[k - 1] < p[k] && Acc(v, t.left, p[k - 1], p[k]) {
      var x := i + k;
      assert d[x - 1] <= d[x] && Acc(v, t.left, d[x - 1], d[x]);
    }
  }

  /** The part before the last empty piece without its empty pieces, and the part after it. */
  lemma HeadAndTail(v: Subject, t: Subre, d: seq<nat>, b: nat, e: nat, i: nat) returns (p: seq<nat>)
    requires t.Iter? && t.min >= 2 && i < |d| - 1 && b < d[i] && Division(d, b, e) && LastEmpty(d, i)
    requires (t.max.AtMost? ==> |d| - 1 <= t.max.n) && e == d[i] + (|d| - 1 - i)
    requires forall k :: 1 <= k < |d| ==> Acc(v, t.left, d[k - 1], d[k])
    ensures Growing(v, t, p, b, e) && Enough(v, t, p, e)
  {
    hide Acc;
    var head := d[..i + 1];
    HeadDivides(d, b, e, i);
    var q := StripEmpty(v, t, head, b, d[i]);
    p := q + d[i + 1..];
    JoinGrows(v, t, d, q, b, e, i);
    assert Acc(v, t.left, d[i - 1], d[i]);
    assert CanPad(v, t, p, |q| - 1, e);
  }

  lemma HeadDivides(d: seq<nat>, b: nat, e: nat, i: nat)
    requires Division(d, b, e) && 1 <= i < |d|
    ensures Division(d[..i + 1], b, d[i])
  {
    forall k | 0 <= k < i + 1 ensures d[k] <= d[i] {
      DivisionSorted(d, b, e, k, i);
    }
  }

  lemma JoinGrows(v: Subject, t: Subre, d: seq<nat>, q: seq<nat>, b: nat, e: nat, i: nat)
    requires t.Iter? && Division(d, b, e) && i < |d| - 1 && Division(q, b, d[i]) && |q| <= i + 1
    requires (t.max.AtMost? ==> |d| - 1 <= t.max.n) && forall k :: i < k < |d| ==> d[k - 1] != d[k]
    requires forall k :: 1 <= k < |d| ==> Acc(v, t.left, d[k - 1], d[k])
    requires forall k :: 1 <= k < |q| ==> Acc(v, t.left, q[k - 1], q[k]) && q[k - 1] < q[k]
    ensures Growing(v, t, q + d[i + 1..], b, e)
  {
    hide Acc;
    var p := q + d[i + 1..];
    assert forall k :: 0 <= k < |p| ==> p[k] == if k < |q| then q[k] else d[k - |q| + i + 1];
    forall k | 1 <= k < |p| ensures p[k - 1] < p[k] && Acc(v, t.left, p[k - 1], p[k]) {
      if k >= |q| {
        var x := k - |q| + i + 1;
        assert d[x - 1] <= d[x] && Acc(v, t.left, d[x - 1], d[x]) && p[k - 1] == d[x - 1];
      }
    }
  }

  /**
   * With a minimum of two or more, an iteration over a nonempty stretch
   * considers a division exactly if there is one without empty pieces that
   * has enough pieces, or that has a place for an empty piece after which
   * every piece is one character.
   */
  lemma PartsExactAbove(v: Subject, t: Subre, b: nat, e: nat)
    requires t.Iter? && t.min >= 2 && (t.max.AtMost? ==> t.min <= t.max.n) && b < e
    ensures (exists d :: Parts(v, t, d, b, e)) <==> exists p :: Growing(v, t, p, b, e) && Enough(v, t, p, e)
  {
    hide Acc;
    if d :| Parts(v, t, d, b, e) {
      var p := PartsGrow(v, t, d, b, e);
    }
    if p :| Growing(v, t, p, b, e) && Enough(v, t, p, e) {
      if |p| - 1 >= t.min {
        EnoughPieces(v, t, p, b, e);
      } else {
        var j: nat :| CanPad(v, t, p, j, e);
        PaddedParts(v, t, p, j, b, e);
      }
    }
  }

  /** When the child accepts no empty piece, no division is missed, whatever the minimum. */
  lemma NothingMissed(v: Subject, t: Subre, b: nat, e: nat)
    requires t.Iter? && t.min >= 2 && (t.max.AtMost? ==> t.min <= t.max.n) && b < e
    requires forall x :: !Acc(v, t.left, x, x)
    ensures (exists d :: Parts(v, t, d, b, e)) <==> exists d :: Repetition(v, t, d, b, e)
  {
    hide Acc;
    if d :| Repetition(v, t, d, b, e) {
      forall i | 1 <= i < |d| ensures d[i - 1] < d[i] {
        assert Acc(v, t.left, d[i - 1], d[i]) && d[i - 1] <= d[i - 1 + 1];
      }
      EnoughPieces(v, t, d, b, e);
    }
    if d :| Parts(v, t, d, b, e) {
      assert MaxMatches(t.min, t.max, e - b) <= if t.max.AtMost? then t.max.n else MaxMatches(t.min, t.max, e - b);
      assert Repetition(v, t, d, b, e);
    }
  }

  // ---------------------------------------------------------------- a division that is missed

  /** Accepts nothing, or three characters, at the beginning of the string. */
  const NothingOrThree: Cnfa := Cnfa(6, 2, 0, 1, false, [true, false, false, false, false, false],
    [[Carc(1, 2)], [], [Carc(0, 3), Carc(0, 1)], [Carc(0, 4)], [Carc(0, 5)], [Carc(0, 1)]])

  const ThreeChars: Subject := Subject([0, 0, 0], [0, 0, 0], 1, 0, (x, y) => false, (x, y) => x == y)

  /** NothingOrThree, twice or more. */
  const TwiceOrMore: Subre := Iter(NothingOrThree, false, Plain(NothingOrThree, false), 2, Inf)

  lemma ThreeValid()
    ensures ThreeChars.For(NothingOrThree).Valid()
  {
    var c := NothingOrThree;
    assert forall s :: 0 <= s < 6 ==> forall k :: 0 <= k < |c.states[s]| ==> c.states[s][k].to < 6 && c.states[s][k].co < 2;
  }

  /** Without constraint arcs a step is one plain arc. */
  lemma PlainStep(v: Target, S: set<nat>, co: nat, pos: nat, R: set<nat>)
    requires v.Valid() && !v.cnfa.haslacons && R == Move(v.cnfa, S, co)
    ensures v.Step(S, co, pos) == R
  {
    assert v.IsClosure(R, pos, R);
    ClosureUnique(v, R, pos, R);
  }

  lemma ThreeMoves()
    ensures NothingOrThree.WellFormed()
    ensures Move(NothingOrThree, {0}, 1) == {2} && Move(NothingOrThree, {0}, 0) == {}
    ensures Move(NothingOrThree, {2}, 0) == {3, 1} && Move(NothingOrThree, {3, 1}, 0) == {4}
    ensures Move(NothingOrThree, {4}, 0) == {5} && Move(NothingOrThree, {5}, 0) == {1}
  {
    ThreeValid();
    var c := NothingOrThree;
    assert Carc(1, 2) in c.states[0] && Carc(0, 3) in c.states[2] && Carc(0, 1) in c.states[2];
    assert Carc(0, 4) in c.states[3] && Carc(0, 5) in c.states[4] && Carc(0, 1) in c.states[5];
  }

  /** The states after each number of characters from the beginning. */
  lemma ThreeRuns()
    ensures ThreeChars.For(NothingOrThree).Valid()
    ensures var v := ThreeChars.For(NothingOrThree);
            v.After(0, 1) == {3, 1} && v.After(0, 2) == {4} && v.After(0, 3) == {5} && v.After(0, 4) == {1}
  {
    hide Target.After, Target.Step, Target.Valid, Move;
    ThreeValid();
    ThreeMoves();
    var v := ThreeChars.For(NothingOrThree);
    PlainStep(v, {0}, 1, 0, {2});
    AfterStep(v, 0, 0);
    PlainStep(v, {2}, 0, 1, {3, 1});
    AfterStep(v, 0, 1);
    PlainStep(v, {3, 1}, 0, 2, {4});
    AfterStep(v, 0, 2);
    PlainStep(v, {4}, 0, 3, {5});
    AfterStep(v, 0, 3);
    PlainStep(v, {5}, 0, 3, {1});
    AfterStep(v, 0, 4);
  }

  lemma ThreeElsewhere(x: nat)
    requires 1 <= x <= 3
    ensures ThreeChars.For(NothingOrThree).Valid() && ThreeChars.For(NothingOrThree).After(x, x) == {}
  {
    hide Target.After, Target.Step, Target.Valid, Move;
    ThreeValid();
    ThreeMoves();
    var v := ThreeChars.For(NothingOrThree);
    PlainStep(v, {0}, 0, x, {});
    AfterStep(v, x, x);
  }

  /** From the beginning, after no character or after three. */
  lemma ThreeFromStart(y: nat)
    requires y <= 3
    ensures Acc(ThreeChars, TwiceOrMore.left, 0, y) <==> y == 0 || y == 3
  {
    hide Target.After, Target.Valid;
    ThreeRuns();
  }

  /** Not from anywhere else. */
  lemma ThreeFromElse(x: nat, y: nat)
    requires 0 < x <= y <= 3
    ensures !Acc(ThreeChars, TwiceOrMore.left, x, y)
  {
    hide Target.After, Target.Valid;
    ThreeElsewhere(x);
    StuckForever(ThreeChars.For(NothingOrThree), x, x, y + 1);
  }

  lemma ThreeAccepted(x: nat, y: nat)
    requires x <= y <= 3
    ensures Acc(ThreeChars, TwiceOrMore.left, x, y) <==> x == 0 && (y == 0 || y == 3)
  {
    hide Acc;
    if x == 0 {
      ThreeFromStart(y);
    } else {
      ThreeFromElse(x, y);
    }
  }

  /** Twice nothing-or-three divides three characters, but no such division is considered. */
  lemma TwiceMissed()
    ensures Repetition(ThreeChars, TwiceOrMore, [0, 0, 3], 0, 3)
    ensures forall d :: !Parts(ThreeChars, TwiceOrMore, d, 0, 3)
  {
    forall x: nat, y: nat | x <= y <= 3 ensures Acc(ThreeChars, TwiceOrMore.left, x, y) <==> x == 0 && (y == 0 || y == 3) {
      ThreeAccepted(x, y);
    }
    TwoRequired(ThreeChars, TwiceOrMore, 0, 3);
  }
}
