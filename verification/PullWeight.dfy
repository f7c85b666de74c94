/** Why pulling constraints comes to an end: a back constraint that has not arrived at the first state weighs the more
    the higher its source is ranked, and a pull replaces one by constraints further back, of which there are not too many. */
module PullWeight {
  import opened NfaGraph
  import opened WordReading
  import opened PullStep

  // ---------------------------------------------------------------- weights

  ghost function Pow(w: nat, k: nat): (p: nat)
    ensures w > 0 ==> p > 0
    ensures k == 0 ==> p == 1
    decreases k
  {
    if k == 0 then 1
    else
      var p := Pow(w, k - 1);
      assert w > 0 ==> w * p > 0;
      w * p
  }

  ghost function RankOf(rank: map<nat, nat>, s: nat): nat {
    if s in rank then rank[s] else 0
  }

  ghost function Heft(a: Arc, rank: map<nat, nat>, w: nat): nat {
    Pow(w, RankOf(rank, a.from))
  }

  ghost function Cost(S: set<Arc>, rank: map<nat, nat>, w: nat): nat
    decreases |S|
  {
    if S == {} then 0
    else
      var a :| a in S;
      Heft(a, rank, w) + Cost(S - {a}, rank, w)
  }

  /** The back constraints that are still to be pulled. */
  ghost function Backs(g: Ends, A: set<Arc>): set<Arc> {
    set a | a in A && IsBack(a.ty) && a.from != g.pre
  }

  ghost function Weight(g: Ends, A: set<Arc>, rank: map<nat, nat>, w: nat): nat {
    Cost(Backs(g, A), rank, w)
  }

  /** Any arc can be counted first. */
  lemma {:induction false} CostTake(S: set<Arc>, rank: map<nat, nat>, w: nat, a: Arc)
    requires a in S
    ensures Cost(S, rank, w) == Heft(a, rank, w) + Cost(S - {a}, rank, w)
    decreases |S|
  {
    hide Heft;
    var b :| b in S && Cost(S, rank, w) == Heft(b, rank, w) + Cost(S - {b}, rank, w);
    if b != a {
      CostTake(S - {b}, rank, w, a);
      CostTake(S - {a}, rank, w, b);
      assert S - {b} - {a} == S - {a} - {b};
    }
  }

  lemma {:induction false} CostSubset(S: set<Arc>, T: set<Arc>, rank: map<nat, nat>, w: nat)
    requires S <= T
    ensures Cost(S, rank, w) <= Cost(T, rank, w)
    decreases |S|
  {
    hide Heft;
    if S != {} {
      var a :| a in S;
      CostTake(S, rank, w, a);
      CostTake(T, rank, w, a);
      CostSubset(S - {a}, T - {a}, rank, w);
    }
  }

  lemma CostPlus(S: set<Arc>, a: Arc, rank: map<nat, nat>, w: nat)
    ensures Cost(S + {a}, rank, w) <= Cost(S, rank, w) + Heft(a, rank, w)
  {
    hide Heft;
    CostTake(S + {a}, rank, w, a);
    CostSubset(S + {a} - {a}, S, rank, w);
  }

  lemma {:induction false} CostUnion(S: set<Arc>, T: set<Arc>, rank: map<nat, nat>, w: nat)
    ensures Cost(S + T, rank, w) <= Cost(S, rank, w) + Cost(T, rank, w)
    decreases |T|
  {
    hide Heft;
    if T == {} {
      assert S + T == S;
    } else {
      var a :| a in T;
      CostTake(T, rank, w, a);
      CostUnion(S, T - {a}, rank, w);
      CostPlus(S + (T - {a}), a, rank, w);
      assert S + T == S + (T - {a}) + {a};
    }
  }

  /** Where an arc leads to does not matter. */
  lemma {:induction false} CostMoved(S: set<Arc>, y: nat, rank: map<nat, nat>, w: nat)
    ensures Cost(Enter(S, y), rank, w) <= Cost(S, rank, w)
    decreases |S|
  {
    if S == {} {
      assert Enter(S, y) == {};
    } else {
      var a :| a in S;
      CostTake(S, rank, w, a);
      CostMoved(S - {a}, y, rank, w);
      CostPlus(Enter(S - {a}, y), a.(to := y), rank, w);
      assert Enter(S, y) == Enter(S - {a}, y) + {a.(to := y)};
    }
  }

  lemma {:induction false} CostAgree(S: set<Arc>, rank: map<nat, nat>, rank': map<nat, nat>, w: nat)
    requires forall a :: a in S ==> RankOf(rank, a.from) == RankOf(rank', a.from)
    ensures Cost(S, rank, w) == Cost(S, rank', w)
    decreases |S|
  {
    if S != {} {
      var a :| a in S;
      CostTake(S, rank, w, a);
      CostTake(S, rank', w, a);
      CostAgree(S - {a}, rank, rank', w);
    }
  }

  lemma {:induction false} PowRises(w: nat, i: nat, j: nat)
    requires i <= j && w > 0
    ensures Pow(w, i) <= Pow(w, j)
    decreases j
  {
    if i < j {
      PowRises(w, i, j - 1);
      assert 1 * Pow(w, j - 1) <= w * Pow(w, j - 1);
    }
  }

  /** Arcs of lower rank than r. */
  lemma {:induction false} CostLow(S: set<Arc>, rank: map<nat, nat>, w: nat, r: nat)
    requires w > 0 && forall a :: a in S ==> RankOf(rank, a.from) < r
    ensures S != {} ==> r > 0
    ensures r > 0 ==> Cost(S, rank, w) <= |S| * Pow(w, r - 1)
    decreases |S|
  {
    if S != {} {
      var a :| a in S;
      CostTake(S, rank, w, a);
      CostLow(S - {a}, rank, w, r);
      PowRises(w, RankOf(rank, a.from), r - 1);
      var p := Pow(w, r - 1);
      assert |S| * p == |S - {a}| * p + p;
    }
  }

  // ---------------------------------------------------------------- how many arcs there can be

  /** The arcs of S differ in kind or source. */
  ghost predicate Keyed(S: set<Arc>) {
    forall a, b :: a in S && b in S && a.ty == b.ty && a.co == b.co && a.from == b.from ==> a == b
  }

  lemma {:induction false} FewKinds(S: set<Arc>, kinds: set<(ArcType, nat)>)
    requires (forall a, b :: a in S && b in S && a.ty == b.ty && a.co == b.co ==> a == b) && forall a :: a in S ==> (a.ty, a.co) in kinds
    ensures |S| <= |kinds|
    decreases |S|
  {
    if S != {} {
      var a :| a in S;
      var less := kinds - {(a.ty, a.co)};
      FewKinds(S - {a}, less);
      assert |kinds| == |less| + 1 && |S| == |S - {a}| + 1;
    }
  }

  lemma OneRowMore(k: nat, n: nat)
    requires n > 0
    ensures k * n == k * (n - 1) + k
  {
  }

  lemma {:induction false} FewArcs(S: set<Arc>, kinds: set<(ArcType, nat)>, n: nat)
    requires Keyed(S) && forall a :: a in S ==> (a.ty, a.co) in kinds && a.from < n
    ensures |S| <= |kinds| * n
    decreases n
  {
    if n > 0 {
      var last, rest := set a | a in S && a.from == n - 1, set a | a in S && a.from != n - 1;
      FewKinds(last, kinds);
      FewArcs(rest, kinds, n - 1);
      assert S == last + rest && |last + rest| == |last| + |rest|;
      OneRowMore(|kinds|, n);
    } else {
      assert S == {};
    }
  }

  // ---------------------------------------------------------------- a pull

  /** Sources are numbered below n, and no kinds occur but these. */
  ghost predicate Small(A: set<Arc>, kinds: set<(ArcType, nat)>, n: nat) {
    forall a :: a in A ==> (a.ty, a.co) in kinds && a.from < n
  }

  /** What is below the weight of a constraint of rank r. */
  ghost function Below(kinds: set<(ArcType, nat)>, n: nat, w: nat, r: nat): nat {
    if r == 0 then 0 else |kinds| * n * Pow(w, r - 1)
  }

  lemma LowCost(S: set<Arc>, rank: map<nat, nat>, w: nat, r: nat, kinds: set<(ArcType, nat)>, n: nat)
    requires w > 0 && Keyed(S) && Small(S, kinds, n) && forall a :: a in S ==> RankOf(rank, a.from) < r
    ensures Cost(S, rank, w) <= Below(kinds, n, w, r)
  {
    FewArcs(S, kinds, n);
    CostLow(S, rank, w, r);
    if r > 0 {
      Product(|S|, |kinds| * n, Pow(w, r - 1));
    }
  }

  lemma Product(i: nat, j: nat, p: nat)
    requires i <= j
    ensures i * p <= j * p
  {
  }

  /** Cloning the source of a constraint adds arcs of lower rank only. */
  lemma ClonedWeight(g: Ends, A: set<Arc>, B: set<Arc>, con: Arc, f: nat, rank: map<nat, nat>, w: nat, kinds: set<(ArcType, nat)>, n: nat)
    requires Cloned(A, B, con, f) && Ranked(A, rank) && Small(A, kinds, n) && w > 0
    requires IsBack(con.ty) && con.from in rank && con.from != g.pre && f != g.pre
    ensures var r := rank[con.from];
            Weight(g, B, rank[f := r], w) <= Weight(g, A, rank, w) + Below(kinds, n, w, r)
  {
    hide Cost, Heft, RankOf, Below;
    var r := rank[con.from];
    var rank' := rank[f := r];
    var c := con.(from := f);
    var copies := Backs(g, Enter(Ins(A, con.from), f));
    forall a | a in copies ensures RankOf(rank', a.from) < r && (a.ty, a.co) in kinds && a.from < n {
      var b :| b in Ins(A, con.from) && a == b.(to := f);
      LowSource(A, rank, f, r, b);
    }
    LowCost(copies, rank', w, r, kinds, n);
    CloneParts(g, A, B, con, f);
    CostUnion(Backs(g, A) - {con} + {c}, copies, rank', w);
    CostSubset(Backs(g, B), Backs(g, A) - {con} + {c} + copies, rank', w);
    CostPlus(Backs(g, A) - {con}, c, rank', w);
    SameHeft(rank, con, f, w);
    forall a | a in Backs(g, A) - {con} ensures RankOf(rank, a.from) == RankOf(rank', a.from) {
      OtherSource(rank, f, r, a.from);
    }
    CostAgree(Backs(g, A) - {con}, rank, rank', w);
    CostTake(Backs(g, A), rank, w, con);
  }

  lemma LowSource(A: set<Arc>, rank: map<nat, nat>, f: nat, r: nat, b: Arc)
    requires Ranked(A, rank) && b in A && IsBack(b.ty) && b.from != f && b.to in rank && rank[b.to] == r
    ensures RankOf(rank[f := r], b.from) < r
  {
  }

  lemma OtherSource(rank: map<nat, nat>, f: nat, r: nat, s: nat)
    requires s != f
    ensures RankOf(rank, s) == RankOf(rank[f := r], s)
  {
  }

  lemma SameHeft(rank: map<nat, nat>, con: Arc, f: nat, w: nat)
    requires con.from in rank
    ensures Heft(con.(from := f), rank[f := rank[con.from]], w) == Heft(con, rank, w)
  {
  }

  lemma CloneParts(g: Ends, A: set<Arc>, B: set<Arc>, con: Arc, f: nat)
    requires Cloned(A, B, con, f) && IsBack(con.ty)
    ensures Backs(g, B) <= Backs(g, A) - {con} + {con.(from := f)} + Backs(g, Enter(Ins(A, con.from), f))
  {
  }

  /** A pull takes the weight of the constraint away and adds arcs of lower rank only. */
  lemma PulledWeight(g: Ends, A: set<Arc>, B: set<Arc>, con: Arc, K: map<nat, nat>, rank: map<nat, nat>, w: nat,
                     kinds: set<(ArcType, nat)>, n: nat)
    requires PullOk(g, A, B, con, K) && Ranked(A, rank) && Small(A, kinds, n) && w > 0 && con.from in rank
    ensures var r := rank[con.from];
            Weight(g, B, RankWith(rank, K, r), w) + Pow(w, r) <= Weight(g, A, rank, w) + Below(kinds, n, w, r)
  {
    hide Cost, Heft, RankOf, Below, RankWith, PullOk, Combine, Ranked, SwappedIn, Pow;
    var r := rank[con.from];
    var rank' := RankWith(rank, K, r);
    var D := Ins(A, con.from);
    var stay, moved, news := Backs(g, A) - {con} - D, Backs(g, A) * D, SwappedIn(D, con, K);
    ConIn(g, A, B, con, K);
    forall b | b in news ensures RankOf(rank, b.from) < r && (b.ty, b.co) in kinds && b.from < n {
      NewLow(g, A, B, con, K, rank, kinds, n, b);
    }
    NewKeyed(D, con, K);
    LowCost(news, rank, w, r, kinds, n);
    forall b | b in Backs(g, B) ensures b in stay + Enter(moved, con.to) + news && RankOf(rank, b.from) == RankOf(rank', b.from) {
      BackFrom(g, A, B, con, K, b);
      StillRanked(g, A, B, con, K, rank, b);
    }
    CostAgree(Backs(g, B), rank, rank', w);
    CostSubset(Backs(g, B), stay + Enter(moved, con.to) + news, rank, w);
    CostUnion(stay + Enter(moved, con.to), news, rank, w);
    CostUnion(stay, Enter(moved, con.to), rank, w);
    CostMoved(moved, con.to, rank, w);
    CostApart(stay, moved, rank, w);
    assert stay + moved == Backs(g, A) - {con};
    CostTake(Backs(g, A), rank, w, con);
    HeftIs(con, rank, w);
  }

  lemma HeftIs(a: Arc, rank: map<nat, nat>, w: nat)
    requires a.from in rank
    ensures Heft(a, rank, w) == Pow(w, rank[a.from])
  {
  }

  lemma {:induction false} CostApart(S: set<Arc>, T: set<Arc>, rank: map<nat, nat>, w: nat)
    requires S !! T
    ensures Cost(S, rank, w) + Cost(T, rank, w) == Cost(S + T, rank, w)
    decreases |T|
  {
    hide Heft;
    if T == {} {
      assert S + T == S;
    } else {
      var a :| a in T;
      CostTake(T, rank, w, a);
      CostTake(S + T, rank, w, a);
      CostApart(S, T - {a}, rank, w);
      assert S + T - {a} == S + (T - {a});
    }
  }

  lemma ConIn(g: Ends, A: set<Arc>, B: set<Arc>, con: Arc, K: map<nat, nat>)
    requires PullOk(g, A, B, con, K)
    ensures con in Backs(g, A) && con !in Ins(A, con.from)
  {
    hide Combine;
  }

  lemma NewKeyed(D: set<Arc>, con: Arc, K: map<nat, nat>)
    ensures Keyed(SwappedIn(D, con, K))
  {
    hide Combine;
  }

  lemma NewLow(g: Ends, A: set<Arc>, B: set<Arc>, con: Arc, K: map<nat, nat>, rank: map<nat, nat>, kinds: set<(ArcType, nat)>, n: nat, b: Arc)
    requires PullOk(g, A, B, con, K) && Ranked(A, rank) && Small(A, kinds, n) && con.from in rank
    requires b in SwappedIn(Ins(A, con.from), con, K)
    ensures RankOf(rank, b.from) < rank[con.from] && (b.ty, b.co) in kinds && b.from < n
  {
    hide Combine;
    var a :| a in Ins(A, con.from) && Combine(con, a) == Compatible && a.from in K && b == con.(from := a.from, to := K[a.from]);
    CompatibleSwaps(con, a);
  }

  /** Where the back constraints after the pull come from. */
  lemma BackFrom(g: Ends, A: set<Arc>, B: set<Arc>, con: Arc, K: map<nat, nat>, b: Arc)
    requires PullOk(g, A, B, con, K) && b in Backs(g, B)
    ensures b in Backs(g, A) - {con} - Ins(A, con.from) + Enter(Backs(g, A) * Ins(A, con.from), con.to) + SwappedIn(Ins(A, con.from), con, K)
  {
    hide Combine, KeysOk, Regular;
    var D := Ins(A, con.from);
    Sorted(A, B, con, K, b);
    if b in Absorbed(D, con) {
      var a :| a in D && Combine(con, a) == Satisfied && b == a.(to := con.to);
      assert a in Backs(g, A) * D;
    } else if b in SwappedOut(D, con, K) {
      var a := WasSwapped(A, con, K, b);
    }
  }

  /** No back constraint leaves an intermediate state, so what it is ranked does not matter. */
  lemma StillRanked(g: Ends, A: set<Arc>, B: set<Arc>, con: Arc, K: map<nat, nat>, rank: map<nat, nat>, b: Arc)
    requires PullOk(g, A, B, con, K) && b in Backs(g, B)
    ensures RankOf(rank, b.from) == RankOf(RankWith(rank, K, rank[con.from]), b.from)
    requires con.from in rank
  {
    hide Combine, Pulled, KeysOk, Regular, PullOk;
    if b.from in K.Values {
      var x :| x in K && K[x] == b.from;
      var a := OutOfIntermediate(Reading(g, [], (i, j) => false), A, B, con, K, b, x);
    }
  }

  /** The base is so large that a constraint weighs more than all that a pull can add. */
  lemma PowMore(kinds: set<(ArcType, nat)>, n: nat, w: nat, r: nat)
    requires w > 2 * (|kinds| * n)
    ensures 2 * Below(kinds, n, w, r) < Pow(w, r)
  {
    hide Pow;
    var k := |kinds| * n;
    if r > 0 {
      PowIs(w, r);
      LargeBase(k, w, Pow(w, r - 1));
    } else {
      PowIs(w, r);
    }
  }

  /** A base that is large enough as long as states are numbered up to limit. */
  ghost function Base(kinds: set<(ArcType, nat)>, limit: nat): (w: nat)
    ensures w > 0
  {
    2 * (|kinds| * (limit + 1)) + 1
  }

  ghost function Toil(g: Ends, A: set<Arc>, rank: map<nat, nat>, kinds: set<(ArcType, nat)>, limit: nat): nat {
    Weight(g, A, rank, Base(kinds, limit))
  }

  /** One pull, without cloning or with it. */
  lemma PulledToil(g: Ends, A: set<Arc>, B: set<Arc>, con: Arc, K: map<nat, nat>, rank: map<nat, nat>,
                   kinds: set<(ArcType, nat)>, limit: nat)
    requires PullOk(g, A, B, con, K) && Ranked(A, rank) && Small(A, kinds, limit + 1) && con.from in rank
    ensures Toil(g, B, RankWith(rank, K, rank[con.from]), kinds, limit) < Toil(g, A, rank, kinds, limit)
  {
    hide Pow, Below, Base, RankWith, PullOk, Ranked, Small;
    BaseIs(kinds, limit);
    PulledWeight(g, A, B, con, K, rank, Base(kinds, limit), kinds, limit + 1);
    PowMore(kinds, limit + 1, Base(kinds, limit), rank[con.from]);
  }

  lemma ClonedToil(g: Ends, A: set<Arc>, B: set<Arc>, C: set<Arc>, con: Arc, f: nat, K: map<nat, nat>, rank: map<nat, nat>,
                   kinds: set<(ArcType, nat)>, limit: nat)
    requires Cloned(A, B, con, f) && Ranked(A, rank) && Small(A, kinds, limit + 1) && IsBack(con.ty) && con.from in rank
    requires con.from != g.pre && f != g.pre && PullOk(g, B, C, con.(from := f), K) && Small(B, kinds, limit + 1)
    requires Ranked(B, rank[f := rank[con.from]])
    ensures Toil(g, C, RankWith(rank[f := rank[con.from]], K, rank[con.from]), kinds, limit) < Toil(g, A, rank, kinds, limit)
  {
    hide Pow, Below, Base, RankWith, PullOk, Ranked, Small, Cloned;
    BaseIs(kinds, limit);
    ClonedWeight(g, A, B, con, f, rank, Base(kinds, limit), kinds, limit + 1);
    PulledWeight(g, B, C, con.(from := f), K, rank[f := rank[con.from]], Base(kinds, limit), kinds, limit + 1);
    PowMore(kinds, limit + 1, Base(kinds, limit), rank[con.from]);
  }

  lemma BaseIs(kinds: set<(ArcType, nat)>, limit: nat)
    ensures Base(kinds, limit) > 2 * (|kinds| * (limit + 1))
  {
  }

  /** Dropping arcs adds no weight, and dropping a constraint that is to be pulled takes some away. */
  lemma DroppedToil(g: Ends, A: set<Arc>, B: set<Arc>, rank: map<nat, nat>, kinds: set<(ArcType, nat)>, limit: nat)
    requires B <= A
    ensures Toil(g, B, rank, kinds, limit) <= Toil(g, A, rank, kinds, limit)
  {
    CostSubset(Backs(g, B), Backs(g, A), rank, Base(kinds, limit));
  }

  lemma FreedToil(g: Ends, A: set<Arc>, con: Arc, rank: map<nat, nat>, kinds: set<(ArcType, nat)>, limit: nat)
    requires con in A && IsBack(con.ty) && con.from != g.pre
    ensures Toil(g, A - {con}, rank, kinds, limit) < Toil(g, A, rank, kinds, limit)
  {
    CostTake(Backs(g, A), rank, Base(kinds, limit), con);
    assert Backs(g, A - {con}) == Backs(g, A) - {con};
  }

  lemma PowIs(w: nat, k: nat)
    requires w > 0
    ensures Pow(w, k) == (if k == 0 then 1 else w * Pow(w, k - 1)) && (k > 0 ==> Pow(w, k - 1) > 0)
  {
  }

  lemma LargeBase(k: nat, w: nat, p: nat)
    requires w > 2 * k && p > 0
    ensures 2 * (k * p) < w * p
  {
    Product(2 * k + 1, w, p);
    TwiceAndOne(k, p);
  }

  lemma TwiceAndOne(k: nat, p: nat)
    ensures (2 * k + 1) * p == 2 * (k * p) + p
  {
  }
}
