/** What each step of the search for an iteration's endpoints says about all
    the divisions that could still succeed. */
module IterationSearch {
  import opened CompactNfa
  import opened Divisions
  import opened Subexpr

  /** One iteration to dissect: node t over b..e, starting from the submatches pm0. */
  datatype Problem = Problem(v: Subject, t: Subre, b: nat, e: nat, pm0: seq<Span>)
  {
    ghost predicate Ok() {
      t.Iter? && b <= e && !(b == e && t.min == 0)
    }

    function Min(): nat
      requires t.Iter?
    {
      MinMatches(t.min)
    }

    ghost function Max(): nat
      requires t.Iter? && b <= e
    {
      MaxMatches(t.min, t.max, e - b)
    }

    ghost function Rev(): bool
      requires t.Iter?
    {
      t.left.shorter
    }

    /** d could be the division that is looked for. */
    ghost predicate Good(d: seq<nat>)
      requires Ok()
    {
      Parts(v, t, d, b, e) && !PieceFails(v, t, d, pm0)
    }

    /** The endpoints ends are a possible beginning. */
    ghost predicate Partial(ends: seq<nat>)
      requires Ok()
    {
      && 1 <= |ends| <= Max() && ends[0] == b
      && (forall i :: 0 <= i < |ends| ==> b <= ends[i] <= e)
      && (forall i :: 1 <= i < |ends| ==> ends[i - 1] <= ends[i] < e && Acc(v, t.left, ends[i - 1], ends[i]))
      && (forall i :: 1 <= i < |ends| && ends[i] == ends[i - 1] ==> ZeroOk(i, Min(), ends[i - 1], e))
    }

    ghost predicate AllAhead(ends: seq<nat>, limit: nat)
      requires Ok()
    {
      forall d :: Good(d) ==> Ahead(Rev(), d, ends, limit)
    }

    ghost predicate AllLater(ends: seq<nat>)
      requires Ok()
    {
      forall d :: Good(d) ==> Later(Rev(), d, ends)
    }

    /** x is the preferred endpoint, no sooner than limit, for a piece that starts at p. */
    ghost predicate Soonest(p: nat, limit: nat, x: nat)
      requires Ok()
    {
      && p <= x <= e && Acc(v, t.left, p, x) && !Sooner(Rev(), x, limit)
      && forall y :: p <= y <= e && Acc(v, t.left, p, y) && !Sooner(Rev(), y, limit) ==> !Sooner(Rev(), y, x)
    }

    ghost predicate NoneFrom(p: nat, limit: nat)
      requires Ok()
    {
      forall y :: p <= y <= e && Acc(v, t.left, p, y) ==> Sooner(Rev(), y, limit)
    }
  }

  lemma StartsAhead(q: Problem)
    requires q.Ok()
    ensures q.Partial([q.b]) && q.AllAhead([q.b], if q.Rev() then q.b else q.e)
  {
    forall d | q.Good(d) ensures Ahead(q.Rev(), d, [q.b], if q.Rev() then q.b else q.e) {
      assert d[..1] == [q.b];
    }
  }

  lemma NoEndpoint(q: Problem, ends: seq<nat>, limit: nat)
    requires q.Ok() && q.Partial(ends) && q.AllAhead(ends, limit) && q.NoneFrom(ends[|ends| - 1], limit)
    ensures q.AllLater(ends)
  {
    var k := |ends|;
    forall d | q.Good(d) ensures Later(q.Rev(), d, ends) {
      if |d| > k && d[..k] == ends {
        assert d[k - 1] == ends[k - 1] && Acc(q.v, q.t.left, d[k - 1], d[k]);
      }
    }
  }

  /** After fixing the endpoint x, whatever can succeed continues with x or comes later. */
  lemma Fixed(q: Problem, ends: seq<nat>, limit: nat, x: nat, d: seq<nat>)
    requires q.Ok() && q.Partial(ends) && q.AllAhead(ends, limit) && q.Soonest(ends[|ends| - 1], limit, x) && q.Good(d)
    ensures Later(q.Rev(), d, ends + [x]) || (|d| > |ends| && d[..|ends| + 1] == ends + [x])
  {
    var k := |ends|;
    if |d| > k && d[..k] == ends {
      assert d[k - 1] == ends[k - 1] && Acc(q.v, q.t.left, d[k - 1], d[k]);
    }
    AheadExtend(q.Rev(), d, ends, limit, x);
  }

  lemma PartialExtend(q: Problem, ends: seq<nat>, x: nat)
    requires q.Ok() && q.Partial(ends) && |ends| < q.Max() && ends[|ends| - 1] <= x < q.e
    requires Acc(q.v, q.t.left, ends[|ends| - 1], x) && (x == ends[|ends| - 1] ==> ZeroOk(|ends|, q.Min(), x, q.e))
    ensures q.Partial(ends + [x])
  {
    hide Acc;
  }

  lemma Extended(q: Problem, ends: seq<nat>, limit: nat, x: nat)
    requires q.Ok() && q.Partial(ends) && q.AllAhead(ends, limit) && q.Soonest(ends[|ends| - 1], limit, x)
    requires x != q.e && |ends| < q.Max() && (x == ends[|ends| - 1] ==> ZeroOk(|ends|, q.Min(), x, q.e))
    ensures q.Partial(ends + [x]) && q.AllAhead(ends + [x], if q.Rev() then x else q.e)
  {
    PartialExtend(q, ends, x);
    forall d | q.Good(d) ensures Ahead(q.Rev(), d, ends + [x], if q.Rev() then x else q.e) {
      ExtendedOne(q, ends, limit, x, d);
    }
  }

  lemma ExtendedOne(q: Problem, ends: seq<nat>, limit: nat, x: nat, d: seq<nat>)
    requires q.Ok() && q.Partial(ends) && q.AllAhead(ends, limit) && q.Soonest(ends[|ends| - 1], limit, x)
    requires x != q.e && q.Good(d)
    ensures Ahead(q.Rev(), d, ends + [x], if q.Rev() then x else q.e)
  {
    hide PieceFails, Acc, Problem.Partial, Problem.AllAhead, Problem.Soonest, Later;
    var k := |ends|;
    Fixed(q, ends, limit, x, d);
    if |d| > k && d[..k + 1] == ends + [x] {
      assert d[k] == d[..k + 1][k] == x;
      var j := k;
      assert d[j] <= d[j + 1];
    }
  }

  /** An empty piece that is not allowed need not be asked for. */
  lemma SkipEmpty(q: Problem, ends: seq<nat>, limit: nat)
    requires q.Ok() && q.Rev() && q.Partial(ends) && q.AllAhead(ends, limit) && limit == ends[|ends| - 1]
    requires !ZeroOk(|ends|, q.Min(), limit, q.e)
    ensures q.AllAhead(ends, limit + 1)
  {
    hide PieceFails, Acc;
    var k := |ends|;
    forall d | q.Good(d) ensures Ahead(q.Rev(), d, ends, limit + 1) {
      if |d| > k && d[..k] == ends && !Sooner(true, d[k], limit) {
        assert d[k - 1] == ends[k - 1];
      }
    }
  }

  lemma LastToEnd(q: Problem, ends: seq<nat>, limit: nat)
    requires q.Ok() && q.Rev() && q.Partial(ends) && q.AllAhead(ends, limit) && |ends| == q.Max()
    ensures q.AllAhead(ends, q.e)
  {
  }

  lemma LastOfPrefix(d: seq<nat>, p: seq<nat>, k: nat)
    requires |p| == k + 1
    ensures |d| > k && d[..k + 1] == p ==> d[k] == p[k]
  {
  }

  /** The last piece that is allowed has to reach the end. */
  lemma TooMany(q: Problem, ends: seq<nat>, limit: nat, x: nat)
    requires q.Ok() && q.Partial(ends) && q.AllAhead(ends, limit) && q.Soonest(ends[|ends| - 1], limit, x)
    requires x != q.e && |ends| == q.Max() && !q.Rev()
    ensures q.AllLater(ends)
  {
    var k := |ends|;
    forall d | q.Good(d) ensures Later(q.Rev(), d, ends) {
      Fixed(q, ends, limit, x, d);
      LastOfPrefix(d, ends + [x], k);
      assert (ends + [x])[..k] == ends;
      LaterBack(q.Rev(), d, ends + [x], k);
    }
  }

  ghost predicate Hopeless(q: Problem, ends: seq<nat>, x: nat)
    requires q.Ok() && |ends| >= 1 && x <= q.e
  {
    || (x != q.e && x == ends[|ends| - 1] && !ZeroOk(|ends|, q.Min(), x, q.e))
    || (x == q.e && (|ends| < q.Min() || PieceFails(q.v, q.t, ends + [x], q.pm0)))
  }

  /** A division that ends with x cannot succeed, so whatever can comes later. */
  lemma Rejected(q: Problem, ends: seq<nat>, limit: nat, x: nat)
    requires q.Ok() && q.Partial(ends) && q.AllAhead(ends, limit) && q.Soonest(ends[|ends| - 1], limit, x)
    requires Hopeless(q, ends, x)
    ensures q.AllLater(ends + [x])
  {
    hide PieceFails, Acc;
    var k := |ends|;
    forall d | q.Good(d) ensures Later(q.Rev(), d, ends + [x]) {
      Fixed(q, ends, limit, x, d);
      if |d| > k && d[..k + 1] == ends + [x] {
        assert d[k] == d[..k + 1][k] == x && d[k - 1] == d[..k + 1][k - 1] == ends[k - 1];
        if x == q.e {
          assert |d| == k + 1 && d == ends + [x];
        }
      }
    }
  }

  /** The division found is one of those considered, and every other one that could succeed is later. */
  lemma Succeeded(q: Problem, ends: seq<nat>, limit: nat, x: nat)
    requires q.Ok() && q.Partial(ends) && q.AllAhead(ends, limit) && q.Soonest(ends[|ends| - 1], limit, x)
    requires x == q.e && |ends| >= q.Min()
    ensures Parts(q.v, q.t, ends + [x], q.b, q.e)
    ensures forall d :: Parts(q.v, q.t, d, q.b, q.e) && Later(q.Rev(), ends + [x], d) ==> PieceFails(q.v, q.t, d, q.pm0)
  {
    hide PieceFails, Acc;
    var k, ends' := |ends|, ends + [x];
    assert forall i :: 1 <= i < |ends'| ==> Acc(q.v, q.t.left, ends'[i - 1], ends'[i]);
    assert Parts(q.v, q.t, ends', q.b, q.e);
    forall d | q.Good(d) ensures !Later(q.Rev(), ends', d) {
      Fixed(q, ends, limit, x, d);
      LaterAsymmetric(q.Rev(), ends', d);
      if |d| > k && d[..k + 1] == ends' {
        assert d[k] == d[..k + 1][k] == x;
        assert d == ends';
      }
    }
  }

  // ---------------------------------------------------------------- going back

  /** Piece number k can still move: what can succeed is ahead of the new limit. */
  lemma BackTo(q: Problem, ends: seq<nat>, k: nat, limit: nat)
    requires q.Ok() && |ends| == k + 1 && k >= 1 && q.AllLater(ends)
    requires forall y: nat :: y <= q.e && Sooner(q.Rev(), ends[k], y) ==> !Sooner(q.Rev(), y, limit)
    ensures q.AllAhead(ends[..k], limit)
  {
    forall d | q.Good(d) ensures Ahead(q.Rev(), d, ends[..k], limit) {
      LaterBack(q.Rev(), d, ends, k);
    }
  }

  /** Piece number k cannot move any more. */
  lemma BackPast(q: Problem, ends: seq<nat>, k: nat)
    requires q.Ok() && |ends| == k + 1 && k >= 1 && q.AllLater(ends)
    requires forall y: nat :: ends[k - 1] <= y <= q.e && Sooner(q.Rev(), ends[k], y)
               ==> y == ends[k - 1] && !ZeroOk(k, q.Min(), y, q.e)
    ensures q.AllLater(ends[..k])
  {
    hide PieceFails, Acc;
    forall d | q.Good(d) ensures Later(q.Rev(), d, ends[..k]) {
      LaterBack(q.Rev(), d, ends, k);
      if |d| > k && d[..k] == ends[..k] && Sooner(q.Rev(), ends[k], d[k]) {
        assert d[k - 1] == d[..k][k - 1] == ends[k - 1];
      }
    }
  }

  lemma NothingLeft(q: Problem, ends: seq<nat>)
    requires q.Ok() && |ends| == 1 && q.AllLater(ends)
    ensures forall d :: Parts(q.v, q.t, d, q.b, q.e) ==> PieceFails(q.v, q.t, d, q.pm0)
  {
    forall d | Parts(q.v, q.t, d, q.b, q.e) ensures PieceFails(q.v, q.t, d, q.pm0) {
      assert q.Good(d) ==> Later(q.Rev(), d, ends);
    }
  }

  // ---------------------------------------------------------------- the end is reached

  lemma FoundAll(q: Problem, ends: seq<nat>, limit: nat, pm1: seq<Span>)
    requires q.Ok() && q.Partial(ends) && q.AllAhead(ends, limit) && q.Soonest(ends[|ends| - 1], limit, q.e)
    requires |ends| >= q.Min() && PiecesFind(q.v, q.t, ends + [q.e], q.pm0, pm1)
    ensures Finds(q.v, q.t, q.b, q.e, q.pm0, pm1)
  {
    Succeeded(q, ends, limit, q.e);
  }

  lemma OneFails(q: Problem, ends: seq<nat>, i: nat)
    requires q.t.Iter? && 1 <= i < |ends| && Fails(q.v, q.t.left, ends[i - 1], ends[i], Restart(q.t, q.pm0))
    ensures PieceFails(q.v, q.t, ends, q.pm0)
  {
  }

  lemma FoundPiece(q: Problem, x: nat, y: nat, pm0: seq<Span>, pm1: seq<Span>)
    requires q.t.Iter? && pm0 == Restart(q.t, q.pm0) && Finds(q.v, q.t.left, x, y, pm0, pm1)
    ensures CanFind(q.v, q.t, x, y, q.pm0)
  {
  }

  lemma PiecesFound(q: Problem, ends: seq<nat>, pm1: seq<Span>)
    requires q.t.Iter? && |ends| >= 2 && Finds(q.v, q.t.left, ends[|ends| - 2], ends[|ends| - 1], Restart(q.t, q.pm0), pm1)
    requires forall i :: 1 <= i < |ends| ==> CanFind(q.v, q.t, ends[i - 1], ends[i], q.pm0)
    ensures PiecesFind(q.v, q.t, ends, q.pm0, pm1)
  {
  }

  // ---------------------------------------------------------------- which divisions are missed

  /** With a minimum of at most one, a division is considered whenever there is any. */
  lemma PartsExact(v: Subject, t: Subre, b: nat, e: nat)
    requires t.Iter? && t.min <= 1 && (t.max.AtMost? ==> 1 <= t.max.n) && (b < e || (b == e && t.min == 1))
    ensures (exists d :: Parts(v, t, d, b, e)) <==> exists d :: Repetition(v, t, d, b, e)
  {
    if d :| Repetition(v, t, d, b, e) {
      var r := PartsExist(v, t, d, b, e);
    }
    if d :| Parts(v, t, d, b, e) {
      assert Repetition(v, t, d, b, e);
    }
  }

  /** An empty target is divided only if one piece is enough, although more empty pieces would do. */
  lemma EmptyTarget(v: Subject, t: Subre, b: nat)
    requires t.Iter? && t.min >= 1
    ensures (exists d :: Parts(v, t, d, b, b)) <==> t.min == 1 && Acc(v, t.left, b, b)
  {
    if d :| Parts(v, t, d, b, b) {
      assert d[1] == b;
      assert |d| == 2;
      assert Acc(v, t.left, d[0], d[1]);
    }
    if t.min == 1 && Acc(v, t.left, b, b) {
      assert Parts(v, t, [b, b], b, b);
    }
  }

  /** A division into an empty piece and three characters, of the two pieces required, is missed. */
  lemma TwoRequired(v: Subject, t: Subre, b: nat, e: nat)
    requires t.Iter? && t.min == 2 && t.max.Inf? && e == b + 3
    requires forall x, y :: b <= x <= y <= e ==> (Acc(v, t.left, x, y) <==> x == b && (y == b || y == e))
    ensures Repetition(v, t, [b, b, e], b, e)
    ensures forall d :: !Parts(v, t, d, b, e)
  {
    forall d ensures !Parts(v, t, d, b, e) {
      assert Parts(v, t, d, b, e) ==> Acc(v, t.left, d[0], d[1]) && Acc(v, t.left, d[1], d[2]);
    }
  }
}
