/** Dividing a target into consecutive pieces: which divisions the iteration
    search considers, in which order, and why the search ends. */
module Divisions {

  /** May piece number k be empty at position p? Only if the target is used up, or if at least as
      many pieces are still owed as there are characters left. */
  ghost predicate ZeroOk(k: int, minMatches: int, p: nat, end: nat)
    requires p <= end
  {
    p == end || (k < minMatches && minMatches - k >= end - p)
  }

  /** d lists the endpoints of consecutive pieces from begin to end. */
  ghost predicate Division(d: seq<nat>, begin: nat, end: nat) {
    && |d| >= 2 && d[0] == begin && d[|d| - 1] == end
    && (forall i :: 0 <= i < |d| - 1 ==> d[i] <= d[i + 1])
    && (forall i :: 0 <= i < |d| ==> begin <= d[i] <= end)
  }

  /** The divisions the search looks for. */
  ghost predicate Admissible(d: seq<nat>, begin: nat, end: nat, minMatches: int, maxMatches: int) {
    && Division(d, begin, end) && minMatches <= |d| - 1 <= maxMatches
    && (forall i :: 1 <= i < |d| - 1 ==> d[i] < end)
    && (forall i :: 1 <= i < |d| && d[i] == d[i - 1] ==> ZeroOk(i, minMatches, d[i - 1], end))
  }

  /** x comes strictly before y in the order of search: longest first, or shortest first if rev. */
  ghost predicate Sooner(rev: bool, x: nat, y: nat) {
    if rev then x < y else x > y
  }

  /** d is still ahead of a search that has fixed the endpoints e and wants one no sooner than limit. */
  ghost predicate Ahead(rev: bool, d: seq<nat>, e: seq<nat>, limit: nat) {
    (|d| > |e| && d[..|e|] == e && !Sooner(rev, d[|e|], limit)) || Later(rev, d, e)
  }

  /** d is ahead of every way to continue e. */
  ghost predicate Later(rev: bool, d: seq<nat>, e: seq<nat>) {
    exists j :: 1 <= j < |e| && j < |d| && d[..j] == e[..j] && Sooner(rev, e[j], d[j])
  }

  lemma LaterPrefix(rev: bool, d: seq<nat>, e: seq<nat>, k: nat)
    requires 1 <= k <= |e| && Later(rev, d, e[..k])
    ensures Later(rev, d, e)
  {
    var j :| 1 <= j < k && j < |d| && d[..j] == e[..k][..j] && Sooner(rev, e[..k][j], d[j]);
    assert e[..k][..j] == e[..j];
  }

  /** Fixing one more endpoint x, the soonest that is possible, keeps d ahead. */
  lemma AheadExtend(rev: bool, d: seq<nat>, e: seq<nat>, limit: nat, x: nat)
    requires Ahead(rev, d, e, limit) && |e| >= 1
    requires |d| > |e| && d[..|e|] == e && !Sooner(rev, d[|e|], limit) ==> !Sooner(rev, d[|e|], x)
    ensures Later(rev, d, e + [x]) || (|d| > |e| && d[..|e| + 1] == e + [x])
  {
    var e' := e + [x];
    if Later(rev, d, e) {
      assert e'[..|e|] == e;
      LaterPrefix(rev, d, e', |e|);
    } else if d[|e|] == x {
      assert d[..|e| + 1] == e';
    } else {
      assert e'[..|e|] == e;
      assert 1 <= |e| < |e'| && d[..|e|] == e'[..|e|] && Sooner(rev, e'[|e|], d[|e|]);
    }
  }

  /** Giving up the last endpoint: d is later in it, or later in what remains. */
  lemma LaterBack(rev: bool, d: seq<nat>, e: seq<nat>, k: nat)
    requires |e| == k + 1 && k >= 1 && Later(rev, d, e)
    ensures Later(rev, d, e[..k]) || (|d| > k && d[..k] == e[..k] && Sooner(rev, e[k], d[k]))
  {
    var j :| 1 <= j < |e| && j < |d| && d[..j] == e[..j] && Sooner(rev, e[j], d[j]);
    if j < k {
      assert e[..k][..j] == e[..j];
      assert 1 <= j < |e[..k]| && d[..j] == e[..k][..j] && Sooner(rev, e[..k][j], d[j]);
    }
  }

  /** The first place where two different divisions of the same stretch differ. */
  lemma LaterTotal(rev: bool, d: seq<nat>, d': seq<nat>, begin: nat, end: nat)
    requires Division(d, begin, end) && Division(d', begin, end) && d != d'
    requires forall i :: 1 <= i < |d| - 1 ==> d[i] < end
    requires forall i :: 1 <= i < |d'| - 1 ==> d'[i] < end
    ensures Later(rev, d, d') || Later(rev, d', d)
  {
    var j := 1;
    while d[j] == d'[j] && j + 1 < |d| && j + 1 < |d'|
      invariant 1 <= j < |d| && j < |d'| && d[..j] == d'[..j]
    {
      j := j + 1;
    }
    assert d[j] == d'[j] && |d| == j + 1 == |d'| ==> d == d';
    if d[j] == d'[j] {
      assert false;
    } else if Sooner(rev, d[j], d'[j]) {
      assert Later(rev, d', d);
    } else {
      assert Later(rev, d, d');
    }
  }

  lemma LaterAsymmetric(rev: bool, d: seq<nat>, e: seq<nat>)
    ensures !(Later(rev, d, e) && Later(rev, e, d))
  {
    if Later(rev, d, e) {
      var i :| 1 <= i < |e| && i < |d| && d[..i] == e[..i] && Sooner(rev, e[i], d[i]);
      forall j | 1 <= j < |d| && j < |e| ensures !(e[..j] == d[..j] && Sooner(rev, d[j], e[j])) {
        if i < j {
          assert e[..j][i] == e[i] && d[..j][i] == d[i];
        } else if j < i {
          assert d[..i][j] == d[j] && e[..i][j] == e[j];
        }
      }
    }
  }

  // ---------------------------------------------------------------- the search ends

  /** The value of ds as a number in base b. */
  ghost function Num(ds: seq<nat>, b: nat): nat {
    if ds == [] then 0 else Num(ds[..|ds| - 1], b) * b + ds[|ds| - 1]
  }

  lemma {:induction false} NumLess(u: seq<nat>, v: seq<nat>, j: nat, b: nat)
    requires |u| == |v| && j < |u| && u[..j] == v[..j] && u[j] < v[j]
    requires forall i :: 0 <= i < |u| ==> u[i] < b
    ensures Num(u, b) < Num(v, b)
  {
    var n := |u| - 1;
    if n == j {
      assert u[..n] == v[..n];
    } else {
      assert u[..n][..j] == u[..j] && v[..n][..j] == v[..j];
      NumLess(u[..n], v[..n], j, b);
      Carry(Num(u[..n], b), Num(v[..n], b), b, u[n], v[n]);
    }
  }

  lemma Carry(x: nat, y: nat, b: nat, d: nat, d': nat)
    requires x < y && d < b
    ensures x * b + d < y * b + d'
  {
    AtLeastOnce(y - x, b);
    assert y * b == x * b + (y - x) * b;
  }

  lemma {:induction false} AtLeastOnce(k: nat, b: nat)
    requires k > 0
    ensures k * b >= b
  {
    if k > 1 {
      AtLeastOnce(k - 1, b);
      assert k * b == (k - 1) * b + b;
    }
  }

  /** How much an endpoint can still move. */
  function Digit(rev: bool, begin: nat, end: nat, x: nat): nat {
    if rev then (if x <= end then end - x else 0) else (if begin <= x then x - begin else 0)
  }

  /** The state of a search as maxMatches digits; places not reached yet hold the greatest digit. */
  ghost function Digits(rev: bool, begin: nat, end: nat, e: seq<nat>, limit: nat, maxMatches: nat): (ds: seq<nat>)
    requires begin <= end && 1 <= |e| <= maxMatches
    ensures |ds| == maxMatches
  {
    seq(maxMatches, i requires 0 <= i < maxMatches =>
      if i < |e| - 1 then Digit(rev, begin, end, e[i + 1])
      else if i == |e| - 1 then Digit(rev, begin, end, limit)
      else end - begin + 1)
  }

  /** The number that every round of the search lowers. */
  ghost function Rank(rev: bool, begin: nat, end: nat, e: seq<nat>, limit: nat, maxMatches: nat): nat
    requires begin <= end && 1 <= |e| <= maxMatches
  {
    Num(Digits(rev, begin, end, e, limit, maxMatches), end - begin + 2)
  }

  lemma DigitsBelow(rev: bool, begin: nat, end: nat, e: seq<nat>, limit: nat, maxMatches: nat)
    requires begin <= limit <= end && 1 <= |e| <= maxMatches
    requires forall i :: 0 <= i < |e| ==> begin <= e[i] <= end
    ensures var ds := Digits(rev, begin, end, e, limit, maxMatches);
            forall i :: 0 <= i < |ds| ==> ds[i] < end - begin + 2
  {
    var ds := Digits(rev, begin, end, e, limit, maxMatches);
    forall i | 0 <= i < |ds| ensures ds[i] < end - begin + 2 {
      assert ds[i] == if i < |e| - 1 then Digit(rev, begin, end, e[i + 1])
                      else if i == |e| - 1 then Digit(rev, begin, end, limit)
                      else end - begin + 1;
    }
  }

  /** Fixing the endpoint x and starting on the next piece lowers the rank. */
  lemma RankExtend(rev: bool, begin: nat, end: nat, e: seq<nat>, limit: nat, x: nat, limit': nat, maxMatches: nat)
    requires begin <= end && 1 <= |e| < maxMatches
    requires begin <= limit <= end && begin <= x <= end && begin <= limit' <= end && !Sooner(rev, x, limit)
    requires forall i :: 0 <= i < |e| ==> begin <= e[i] <= end
    ensures Rank(rev, begin, end, e + [x], limit', maxMatches) < Rank(rev, begin, end, e, limit, maxMatches)
  {
    var u := Digits(rev, begin, end, e + [x], limit', maxMatches);
    var v := Digits(rev, begin, end, e, limit, maxMatches);
    var k := |e| - 1;
    assert u[..k] == v[..k];
    assert (e + [x])[k + 1] == x && u[k] == Digit(rev, begin, end, x) && v[k] == Digit(rev, begin, end, limit);
    assert u[k + 1] == Digit(rev, begin, end, limit') && v[k + 1] == end - begin + 1;
    DigitsBelow(rev, begin, end, e + [x], limit', maxMatches);
    if x == limit {
      assert u[..k + 1] == v[..k + 1];
      NumLess(u, v, k + 1, end - begin + 2);
    } else {
      NumLess(u, v, k, end - begin + 2);
    }
  }

  /** Going back to piece number k with a later limit lowers the rank. */
  lemma RankBack(rev: bool, begin: nat, end: nat, e: seq<nat>, limit: nat, k: nat, limit': nat, maxMatches: nat)
    requires begin <= end && 1 <= k <= |e| <= maxMatches
    requires begin <= limit <= end && begin <= limit' <= end
    requires Sooner(rev, if k == |e| then limit else e[k], limit')
    requires forall i :: 0 <= i < |e| ==> begin <= e[i] <= end
    ensures Rank(rev, begin, end, e[..k], limit', maxMatches) < Rank(rev, begin, end, e, limit, maxMatches)
  {
    var u := Digits(rev, begin, end, e[..k], limit', maxMatches);
    var v := Digits(rev, begin, end, e, limit, maxMatches);
    assert u[..k - 1] == v[..k - 1];
    assert u[k - 1] == Digit(rev, begin, end, limit');
    assert v[k - 1] == Digit(rev, begin, end, if k == |e| then limit else e[k]);
    DigitsBelow(rev, begin, end, e[..k], limit', maxMatches);
    NumLess(u, v, k - 1, end - begin + 2);
  }
}
