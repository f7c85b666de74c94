/** Pulling one back constraint past the state it leaves: what it does to the
    set of arcs, and why the NFA keeps its language. */
module PullStep {
  import opened NfaGraph
  import opened WordReading

  datatype Meeting = Incompatible | Satisfied | Compatible

  predicate IsBack(ty: ArcType) { ty == BOL || ty == BEHIND }

  /** A constraint lands on an arc: what happens? */
  function Combine(con: Arc, a: Arc): Meeting {
    match (con.ty, a.ty)
    case (BOL, PLAIN) => Incompatible
    case (EOL, PLAIN) => Incompatible
    case (AHEAD, PLAIN) => if con.co == a.co then Satisfied else Incompatible
    case (BEHIND, PLAIN) => if con.co == a.co then Satisfied else Incompatible
    case (BOL, BOL) => if con.co == a.co then Satisfied else Incompatible
    case (EOL, EOL) => if con.co == a.co then Satisfied else Incompatible
    case (AHEAD, AHEAD) => if con.co == a.co then Satisfied else Incompatible
    case (BEHIND, BEHIND) => if con.co == a.co then Satisfied else Incompatible
    case (BOL, BEHIND) => Incompatible
    case (BEHIND, BOL) => Incompatible
    case (EOL, AHEAD) => Incompatible
    case (AHEAD, EOL) => Incompatible
    case (BOL, EOL) => Compatible
    case (BOL, AHEAD) => Compatible
    case (BEHIND, EOL) => Compatible
    case (BEHIND, AHEAD) => Compatible
    case (EOL, BOL) => Compatible
    case (EOL, BEHIND) => Compatible
    case (AHEAD, BOL) => Compatible
    case (AHEAD, BEHIND) => Compatible
    case (BOL, LACON) => Compatible
    case (BEHIND, LACON) => Compatible
    case (EOL, LACON) => Compatible
    case (AHEAD, LACON) => Compatible
    case _ => Incompatible
  }

  /** The form that the rewriting relies on: no EMPTY arcs, only plain arcs and ^ leave pre, only plain
      arcs and $ enter post, and the end markers are not colours of the text. */
  ghost predicate Regular(g: Ends, A: set<Arc>) {
    && g.pre != g.post && g.bos0 != g.bos1
    && (forall a :: a in A ==> a.ty != EMPTY && a.from != g.post && a.to != g.pre)
    && (forall a :: a in A && a.from == g.pre ==> a.ty == PLAIN || a.ty == BOL)
    && (forall a :: a in A && a.to == g.post ==> a.ty == PLAIN || a.ty == EOL)
    && (forall a :: a in A && (a.ty == PLAIN || a.ty == BEHIND) ==> a.co != g.bos0 && a.co != g.bos1)
    && (forall a :: a in A && (a.ty == BOL || a.ty == EOL) ==> a.co < 2)
  }

  /** An inarc of f that can change places with a back constraint. */
  ghost predicate Swappable(a: Arc) { a.ty == EOL || a.ty == AHEAD || a.ty == LACON }

  /** A constraint that follows an arc, and what Combine says about the two. */
  lemma CombineMeans(r: Reading, A: set<Arc>, con: Arc, a: Arc, i: nat, j: nat)
    requires Regular(r.g, A) && con in A && a in A && IsBack(con.ty) && a.to == con.from
    requires con.from != r.g.pre && con.from != r.g.post
    ensures match Combine(con, a)
            case Incompatible => !(exists k: nat :: r.Takes(a, i, k) && r.Takes(con, k, j))
            case Satisfied => (exists k: nat :: r.Takes(a, i, k) && r.Takes(con, k, j)) <==> r.Takes(a.(to := con.to), i, j)
            case Compatible => Swappable(a) && a.from != r.g.pre
                               && ((exists k: nat :: r.Takes(a, i, k) && r.Takes(con, k, j))
                                   <==> i == j && r.Takes(a, i, i) && r.Takes(con, i, i))
  {
    if r.Takes(a, i, i) && r.Takes(con, i, j) {
    }
    if Combine(con, a) == Satisfied && r.Takes(a.(to := con.to), i, j) {
      assert r.Takes(a, i, j) && r.Takes(con, j, j);
    }
  }

  // ---------------------------------------------------------------- giving the constraint a state of its own

  /** con gets a copy f of its source that has all the inarcs and no other outarc. */
  ghost predicate Cloned(A: set<Arc>, B: set<Arc>, con: Arc, f: nat) {
    && con in A && f != con.from && f != con.to && (forall a :: a in A ==> a.from != f && a.to != f)
    && B == A + Enter(Ins(A, con.from), f) - {con} + {con.(from := f)}
  }

  lemma CloneReaches(r: Reading, A: set<Arc>, B: set<Arc>, con: Arc, f: nat, s: nat, i: nat)
    requires Cloned(A, B, con, f) && Regular(r.g, A) && IsBack(con.ty) && con.from != con.to
    requires con.from != r.g.pre && con.from != r.g.post && f != r.g.pre && f != r.g.post && r.Reached(A, s, i)
    ensures r.Reached(B, s, i)
  {
    var P := iset p: (nat, nat) | r.Reached(B, p.0, p.1) && (p.0 == con.from ==> r.Reached(B, f, p.1));
    forall a, k: nat, j: nat | a in A && (a.from, k) in P && r.Takes(a, k, j) ensures (a.to, j) in P {
      if a == con {
        Forward(r, B, con.(from := f), k, j);
      } else {
        Forward(r, B, a, k, j);
        if a.to == con.from {
          assert a.(to := f) in Enter(Ins(A, con.from), f);
          Forward(r, B, a.(to := f), k, j);
        }
      }
    }
    assert r.Closed(A, P);
    Least(r, A, P, s, i);
  }

  lemma CloneOnly(r: Reading, A: set<Arc>, B: set<Arc>, con: Arc, f: nat, s: nat, i: nat)
    requires Cloned(A, B, con, f) && Regular(r.g, A) && IsBack(con.ty) && con.from != con.to
    requires con.from != r.g.pre && con.from != r.g.post && f != r.g.pre && f != r.g.post && r.Reached(B, s, i)
    ensures r.Reached(A, if s == f then con.from else s, i)
  {
    var P := iset p: (nat, nat) | r.Reached(A, if p.0 == f then con.from else p.0, p.1);
    forall b, k: nat, j: nat | b in B && (b.from, k) in P && r.Takes(b, k, j) ensures (b.to, j) in P {
      if b.to == f {
        var a :| a in Ins(A, con.from) && b == a.(to := f);
        Forward(r, A, a, k, j);
      } else if b.from == f {
        Forward(r, A, con, k, j);
      } else {
        Forward(r, A, b, k, j);
      }
    }
    assert r.Closed(B, P);
    Least(r, B, P, s, i);
  }

  lemma CloneKeeps(g: Ends, A: set<Arc>, B: set<Arc>, con: Arc, f: nat)
    requires Cloned(A, B, con, f) && Regular(g, A) && IsBack(con.ty) && con.from != con.to
    requires con.from != g.pre && con.from != g.post && f != g.pre && f != g.post
    ensures SameLanguage(g, A, B)
  {
    forall r: Reading | r.g == g ensures r.Accepts(A) <==> r.Accepts(B) {
      if r.Accepts(A) { CloneReaches(r, A, B, con, f, g.post, |r.w|); }
      if r.Accepts(B) { CloneOnly(r, A, B, con, f, g.post, |r.w|); }
    }
  }

  // ---------------------------------------------------------------- pulling

  /** The swapped form of the compatible arcs in D that come from a state in K: first the constraint,
      then the arc. */
  ghost function SwappedIn(D: set<Arc>, con: Arc, K: map<nat, nat>): set<Arc> {
    set a | a in D && Combine(con, a) == Compatible && a.from in K :: con.(from := a.from, to := K[a.from])
  }

  ghost function SwappedOut(D: set<Arc>, con: Arc, K: map<nat, nat>): set<Arc> {
    set a | a in D && Combine(con, a) == Compatible && a.from in K :: a.(from := K[a.from], to := con.to)
  }

  ghost function Absorbed(D: set<Arc>, con: Arc): set<Arc> {
    set a | a in D && Combine(con, a) == Satisfied :: a.(to := con.to)
  }

  /** B is A with con pulled past its source, by way of the intermediate states in K. */
  ghost predicate Pulled(A: set<Arc>, B: set<Arc>, con: Arc, K: map<nat, nat>) {
    && con in A && IsBack(con.ty) && con.from != con.to && Outs(A, con.from) == {con}
    && (forall a :: a in Ins(A, con.from) && Combine(con, a) == Compatible ==> a.from in K)
    && (forall x :: x in K ==> exists a :: a in Ins(A, con.from) && a.from == x && Combine(con, a) == Compatible)
    && B == A - Ins(A, con.from) - {con} + Absorbed(Ins(A, con.from), con) + SwappedIn(Ins(A, con.from), con, K) + SwappedOut(Ins(A, con.from), con, K)
  }

  /** What all outarcs of an intermediate state between x and y are: the swappable arcs from x to f. */
  ghost function Relaid(A: set<Arc>, f: nat, x: nat, s: nat, y: nat): set<Arc> {
    set a | a in A && a.from == x && a.to == f && Swappable(a) :: a.(from := s, to := y)
  }

  /** The state s is unused, or an intermediate state between x and y for arcs into f. */
  ghost predicate Between(A: set<Arc>, f: nat, x: nat, s: nat, y: nat) {
    && s != f && s != x && s != y
    && (forall c :: c in Ins(A, s) ==> c.from == x && IsBack(c.ty))
    && (Outs(A, s) == {} || Outs(A, s) == Relaid(A, f, x, s, y))
    && (Ins(A, s) != {} ==> Outs(A, s) == Relaid(A, f, x, s, y))
  }

  ghost predicate KeysOk(g: Ends, A: set<Arc>, con: Arc, K: map<nat, nat>) {
    && (forall x :: x in K ==> K[x] != g.pre && K[x] != g.post && Between(A, con.from, x, K[x], con.to))
    && (forall x, x' :: x in K && x' in K && K[x] == K[x'] ==> x == x')
    && (forall x :: x in K ==> x !in K.Values) && con.to !in K.Values
  }

  /** What is needed for a pull that keeps the language. */
  ghost predicate PullOk(g: Ends, A: set<Arc>, B: set<Arc>, con: Arc, K: map<nat, nat>) {
    && Regular(g, A) && Pulled(A, B, con, K) && KeysOk(g, A, con, K)
    && con.from != g.pre && con.from != g.post
  }

  /** The configurations that a path of A can be in, as seen in B: just before con, it has taken an inarc. */
  ghost predicate Pending(r: Reading, A: set<Arc>, B: set<Arc>, f: nat, i: nat) {
    exists a, k: nat :: a in Ins(A, f) && r.Reached(B, a.from, k) && r.Takes(a, k, i)
  }

  /** A path through the source of con has a counterpart that takes the constraint first. */
  lemma PullReaches(r: Reading, A: set<Arc>, B: set<Arc>, con: Arc, K: map<nat, nat>, s: nat, i: nat)
    requires PullOk(r.g, A, B, con, K) && r.Reached(A, s, i) && s != con.from
    ensures r.Reached(B, s, i)
  {
    var f := con.from;
    var P := iset p: (nat, nat) | if p.0 == f then Pending(r, A, B, f, p.1) else r.Reached(B, p.0, p.1);
    forall b, k: nat, j: nat | b in A && (b.from, k) in P && r.Takes(b, k, j) ensures (b.to, j) in P {
      if b.from == f {
        assert b in Outs(A, f);
        PendingPasses(r, A, B, con, K, k, j);
      } else if b.to == f {
        assert b in Ins(A, f);
      } else {
        assert b in B;
        Forward(r, B, b, k, j);
      }
    }
    Start(r, B);
    assert r.Closed(A, P);
    Least(r, A, P, s, i);
  }

  lemma PendingPasses(r: Reading, A: set<Arc>, B: set<Arc>, con: Arc, K: map<nat, nat>, k: nat, j: nat)
    requires PullOk(r.g, A, B, con, K) && Pending(r, A, B, con.from, k) && r.Takes(con, k, j)
    ensures r.Reached(B, con.to, j)
  {
    hide Reading.Reached, Between;
    var a, i: nat :| a in Ins(A, con.from) && r.Reached(B, a.from, i) && r.Takes(a, i, k);
    CombineMeans(r, A, con, a, i, j);
    match Combine(con, a)
    case Incompatible => assert false;
    case Satisfied =>
      assert a.(to := con.to) in Absorbed(Ins(A, con.from), con);
      Forward(r, B, a.(to := con.to), i, j);
    case Compatible =>
      var x := K[a.from];
      var c, b := con.(from := a.from, to := x), a.(from := x, to := con.to);
      assert c in SwappedIn(Ins(A, con.from), con, K) && b in SwappedOut(Ins(A, con.from), con, K);
      assert r.Takes(c, i, i) && r.Takes(b, i, i);
      Forward(r, B, c, i, i);
      Forward(r, B, b, i, i);
  }

  /** What a path of B is doing in an intermediate state: it has passed a constraint. */
  ghost predicate Passed(r: Reading, A: set<Arc>, B: set<Arc>, K: map<nat, nat>, s: nat, i: nat) {
    exists x, c :: x in K && K[x] == s && r.Reached(A, x, i) && c in Ins(B, s) && c.from == x && r.Takes(c, i, i)
  }

  /** Every path through the new arcs has a counterpart through the old ones. */
  lemma PullOnly(r: Reading, A: set<Arc>, B: set<Arc>, con: Arc, K: map<nat, nat>, s: nat, i: nat)
    requires PullOk(r.g, A, B, con, K) && r.Reached(B, s, i) && s !in K.Values
    ensures r.Reached(A, s, i)
  {
    hide Reading.Reached, Between, Regular, Pulled, KeysOk;
    var P := iset p: (nat, nat) | if p.0 in K.Values then Passed(r, A, B, K, p.0, p.1) else r.Reached(A, p.0, p.1);
    forall b, k: nat, j: nat | b in B && (b.from, k) in P && r.Takes(b, k, j) ensures (b.to, j) in P {
      if b.from in K.Values {
        LeaveIntermediate(r, A, B, con, K, b, k, j);
      } else {
        StepThere(r, A, B, con, K, b, k, j);
      }
    }
    PreNotKey(r, A, B, con, K);
    assert r.Closed(B, P);
    Least(r, B, P, s, i);
  }

  lemma PreNotKey(r: Reading, A: set<Arc>, B: set<Arc>, con: Arc, K: map<nat, nat>)
    requires PullOk(r.g, A, B, con, K)
    ensures r.g.pre !in K.Values && r.g.post !in K.Values && r.Reached(A, r.g.pre, 0)
  {
    Start(r, A);
  }

  lemma StepThere(r: Reading, A: set<Arc>, B: set<Arc>, con: Arc, K: map<nat, nat>, b: Arc, k: nat, j: nat)
    requires PullOk(r.g, A, B, con, K) && b in B && b.from !in K.Values && r.Reached(A, b.from, k) && r.Takes(b, k, j)
    ensures if b.to in K.Values then Passed(r, A, B, K, b.to, j) else r.Reached(A, b.to, j)
  {
    hide Reading.Reached;
    if b.to in K.Values {
      var x :| x in K && K[x] == b.to;
      EnterIntermediate(r, A, B, con, K, b, x);
      assert b in Ins(B, b.to);
    } else if b in A {
      Forward(r, A, b, k, j);
    } else {
      var a :| a in Ins(A, con.from) && Combine(con, a) == Satisfied && b == a.(to := con.to);
      CombineMeans(r, A, con, a, k, j);
      var m: nat :| r.Takes(a, k, m) && r.Takes(con, m, j);
      Forward(r, A, a, k, m);
      Forward(r, A, con, m, j);
    }
  }

  lemma Sorted(A: set<Arc>, B: set<Arc>, con: Arc, K: map<nat, nat>, b: Arc)
    requires Pulled(A, B, con, K) && b in B
    ensures (b in A && b.to != con.from && b != con) || b in Absorbed(Ins(A, con.from), con) || b in SwappedIn(Ins(A, con.from), con, K) || b in SwappedOut(Ins(A, con.from), con, K)
  {
  }

  lemma KeyFacts(g: Ends, A: set<Arc>, B: set<Arc>, con: Arc, K: map<nat, nat>, x: nat)
    requires PullOk(g, A, B, con, K) && x in K
    ensures Between(A, con.from, x, K[x], con.to) && con.to !in K.Values && K[x] in K.Values && con.from != con.to
    ensures exists a :: a in Ins(A, con.from) && a.from == x && Combine(con, a) == Compatible
    ensures x != g.pre && K[x] != g.pre && K[x] != g.post && forall x' :: x' in K ==> x' !in K.Values
    ensures forall x' :: x' in K && K[x'] == K[x] ==> x' == x
  {
  }

  /** The arcs into an intermediate state are constraints from its key. */
  lemma EnterIntermediate(r: Reading, A: set<Arc>, B: set<Arc>, con: Arc, K: map<nat, nat>, b: Arc, x: nat)
    requires PullOk(r.g, A, B, con, K) && b in B && x in K && K[x] == b.to
    ensures b.from == x && IsBack(b.ty) && x != r.g.pre
  {
    assert Pulled(A, B, con, K);
    hide Pulled, KeysOk, Regular, PullOk, Combine;
    KeyFacts(r.g, A, B, con, K, x);
    Sorted(A, B, con, K, b);
    if b in A {
      assert b in Ins(A, K[x]);
    } else {
      assert b in SwappedIn(Ins(A, con.from), con, K);
      ConIsBack(A, B, con, K);
    }
  }

  lemma ConIsBack(A: set<Arc>, B: set<Arc>, con: Arc, K: map<nat, nat>)
    requires Pulled(A, B, con, K)
    ensures con in A && IsBack(con.ty) && con.from != con.to && con in Ins(A, con.to)
  {
  }

  lemma CompatibleSwaps(con: Arc, a: Arc)
    requires IsBack(con.ty) && Combine(con, a) == Compatible
    ensures Swappable(a)
  {
  }

  /** The arcs out of an intermediate state are the swappable arcs from its key. */
  lemma OutOfIntermediate(r: Reading, A: set<Arc>, B: set<Arc>, con: Arc, K: map<nat, nat>, b: Arc, x: nat)
      returns (a: Arc)
    requires PullOk(r.g, A, B, con, K) && b in B && x in K && K[x] == b.from
    ensures a in Ins(A, con.from) && a.from == x && Swappable(a) && b == a.(from := K[x], to := con.to)
  {
    assert Pulled(A, B, con, K);
    hide Pulled, KeysOk, Regular, PullOk, Combine;
    KeyFacts(r.g, A, B, con, K, x);
    Sorted(A, B, con, K, b);
    ConIsBack(A, B, con, K);
    if b in Absorbed(Ins(A, con.from), con) + SwappedIn(Ins(A, con.from), con, K) {
      NotFromKey(A, B, con, K, b, x);
    }
    if b in A {
      a := WasRelaid(A, con.from, x, K[x], con.to, b);
    } else {
      a := WasSwapped(A, con, K, b);
    }
  }

  lemma WasSwapped(A: set<Arc>, con: Arc, K: map<nat, nat>, b: Arc) returns (a: Arc)
    requires IsBack(con.ty) && b in SwappedOut(Ins(A, con.from), con, K)
    ensures a in Ins(A, con.from) && a.from in K && Swappable(a) && b == a.(from := K[a.from], to := con.to)
  {
    a :| a in Ins(A, con.from) && Combine(con, a) == Compatible && a.from in K && b == a.(from := K[a.from], to := con.to);
  }

  lemma WasRelaid(A: set<Arc>, f: nat, x: nat, s: nat, y: nat, b: Arc) returns (a: Arc)
    requires Between(A, f, x, s, y) && b in A && b.from == s
    ensures a in Ins(A, f) && a.from == x && Swappable(a) && b == a.(from := s, to := y)
  {
    assert b in Outs(A, s);
    a :| a in A && a.from == x && a.to == f && Swappable(a) && b == a.(from := s, to := y);
  }

  /** Absorbed arcs and constraints do not leave intermediate states. */
  lemma NotFromKey(A: set<Arc>, B: set<Arc>, con: Arc, K: map<nat, nat>, b: Arc, x: nat)
    requires Pulled(A, B, con, K) && x in K && Between(A, con.from, x, K[x], con.to) && (forall x' :: x' in K ==> x' !in K.Values)
    requires b in Absorbed(Ins(A, con.from), con) + SwappedIn(Ins(A, con.from), con, K)
    ensures b.from != K[x]
  {
    hide Combine;
    if b in SwappedIn(Ins(A, con.from), con, K) {
      assert b.from in K;
    } else {
      var a :| a in Ins(A, con.from) && Combine(con, a) == Satisfied && b == a.(to := con.to);
      var s := K[x];
      assert a.from == s ==> a in Outs(A, s);
    }
  }

  lemma LeaveIntermediate(r: Reading, A: set<Arc>, B: set<Arc>, con: Arc, K: map<nat, nat>, b: Arc, k: nat, j: nat)
    requires PullOk(r.g, A, B, con, K) && b in B && b.from in K.Values && Passed(r, A, B, K, b.from, k) && r.Takes(b, k, j)
    ensures b.to !in K.Values && r.Reached(A, b.to, j)
  {
    hide Reading.Reached, Pulled, KeysOk, Regular, PullOk, Combine;
    var x, c :| x in K && K[x] == b.from && r.Reached(A, x, k) && c in Ins(B, b.from) && c.from == x && r.Takes(c, k, k);
    KeyFacts(r.g, A, B, con, K, x);
    var a := OutOfIntermediate(r, A, B, con, K, b, x);
    SourceInside(r.g, A, B, con, K);
    assert j == k && r.Takes(a, k, k);
    if c in A {
      assert c in Ins(A, K[x]);
      assert b in Relaid(A, con.from, x, K[x], con.to);
      assert b in Outs(A, K[x]);
      Forward(r, A, c, k, k);
      Forward(r, A, b, k, j);
    } else {
      NewConstraint(r, A, B, con, K, c, x, k);
      Forward(r, A, a, k, k);
      Forward(r, A, con, k, k);
    }
  }

  lemma SourceInside(g: Ends, A: set<Arc>, B: set<Arc>, con: Arc, K: map<nat, nat>)
    requires PullOk(g, A, B, con, K)
    ensures con in A && con.from != g.post && con.from != g.pre && con.to != g.post
  {
  }

  lemma NewConstraint(r: Reading, A: set<Arc>, B: set<Arc>, con: Arc, K: map<nat, nat>, c: Arc, x: nat, k: nat)
    requires PullOk(r.g, A, B, con, K) && c in B && c !in A && x in K && c.to == K[x] && r.Takes(c, k, k)
    ensures r.Takes(con, k, k)
  {
    assert Pulled(A, B, con, K);
    SourceInside(r.g, A, B, con, K);
    ConIsBack(A, B, con, K);
    hide Pulled, KeysOk, Regular, PullOk, Combine;
    KeyFacts(r.g, A, B, con, K, x);
    Sorted(A, B, con, K, c);
    assert c in SwappedIn(Ins(A, con.from), con, K);
  }

  /** A pull keeps the language. */
  lemma PullKeeps(g: Ends, A: set<Arc>, B: set<Arc>, con: Arc, K: map<nat, nat>)
    requires PullOk(g, A, B, con, K)
    ensures SameLanguage(g, A, B)
  {
    forall r: Reading | r.g == g ensures r.Accepts(A) <==> r.Accepts(B) {
      PreNotKey(r, A, B, con, K);
      if r.Accepts(A) { PullReaches(r, A, B, con, K, g.post, |r.w|); }
      if r.Accepts(B) { PullOnly(r, A, B, con, K, g.post, |r.w|); }
    }
  }

  // ---------------------------------------------------------------- what a pull preserves

  predicate IsConstraint(ty: ArcType) { ty != PLAIN && ty != EMPTY }

  /** There is no loop of constraint arcs: each of them leads to a state of higher rank. */
  ghost predicate Ranked(A: set<Arc>, rank: map<nat, nat>) {
    forall a :: a in A && a.ty != PLAIN && a.ty != EMPTY ==> a.from in rank && a.to in rank && rank[a.from] < rank[a.to]
  }

  lemma CloneFit(g: Ends, A: set<Arc>, B: set<Arc>, con: Arc, f: nat, rank: map<nat, nat>)
    requires Cloned(A, B, con, f) && Regular(g, A) && Ranked(A, rank) && IsBack(con.ty)
    requires con.from != g.pre && con.from != g.post && f != g.pre && f != g.post
    ensures Regular(g, B) && Ranked(B, rank[f := rank[con.from]])
  {
  }

  lemma PulledFit(g: Ends, A: set<Arc>, B: set<Arc>, con: Arc, K: map<nat, nat>, rank: map<nat, nat>)
    requires PullOk(g, A, B, con, K) && Ranked(A, rank)
    ensures Regular(g, B) && Ranked(B, RankWith(rank, K, rank[con.from]))
  {
    forall b | b in B ensures ArcFits(g, b, RankWith(rank, K, rank[con.from])) {
      PulledArcFits(g, A, B, con, K, rank, b);
    }
  }

  /** The demands of Regular and Ranked on one arc. */
  ghost predicate ArcFits(g: Ends, a: Arc, rank: map<nat, nat>) {
    && a.ty != EMPTY && a.from != g.post && a.to != g.pre && (a.from == g.pre ==> a.ty == PLAIN || a.ty == BOL) && (a.to == g.post ==> a.ty == PLAIN || a.ty == EOL)
    && (a.ty == PLAIN || a.ty == BEHIND ==> a.co != g.bos0 && a.co != g.bos1)
    && (a.ty == BOL || a.ty == EOL ==> a.co < 2)
    && (IsConstraint(a.ty) ==> a.from in rank && a.to in rank && rank[a.from] < rank[a.to])
  }

  lemma PulledArcFits(g: Ends, A: set<Arc>, B: set<Arc>, con: Arc, K: map<nat, nat>, rank: map<nat, nat>, b: Arc)
    requires PullOk(g, A, B, con, K) && Ranked(A, rank) && b in B
    ensures ArcFits(g, b, RankWith(rank, K, rank[con.from]))
  {
    hide Combine, Between, KeysOk, Regular, Pulled, PullOk, Ranked;
    var D := Ins(A, con.from);
    ConFits(g, A, B, con, K, rank);
    Sorted(A, B, con, K, b);
    if b in Absorbed(D, con) {
      var a :| a in D && Combine(con, a) == Satisfied && b == a.(to := con.to);
      NotKey(g, A, B, con, K, a);
    } else if b in SwappedIn(D, con, K) {
      var a :| a in D && Combine(con, a) == Compatible && a.from in K && b == con.(from := a.from, to := K[a.from]);
      CompatibleSwaps(con, a);
      KeyFacts(g, A, B, con, K, a.from);
    } else if b in SwappedOut(D, con, K) {
      var a :| a in D && Combine(con, a) == Compatible && a.from in K && b == a.(from := K[a.from], to := con.to);
      CompatibleSwaps(con, a);
      KeyFacts(g, A, B, con, K, a.from);
    } else if IsConstraint(b.ty) {
      OldArcRank(g, A, B, con, K, rank, b);
    }
  }

  lemma ConFits(g: Ends, A: set<Arc>, B: set<Arc>, con: Arc, K: map<nat, nat>, rank: map<nat, nat>)
    requires PullOk(g, A, B, con, K) && Ranked(A, rank)
    ensures Pulled(A, B, con, K) && con in A && IsBack(con.ty) && con.to !in K.Values && con.from !in K.Values
    ensures forall a :: a in A ==> ArcFits(g, a, rank)
  {
  }

  /** No arc leads from an intermediate state to the source of the constraint. */
  lemma NotKey(g: Ends, A: set<Arc>, B: set<Arc>, con: Arc, K: map<nat, nat>, a: Arc)
    requires PullOk(g, A, B, con, K) && a in Ins(A, con.from)
    ensures a.from !in K.Values
  {
    forall x | x in K ensures K[x] != a.from {
      var s := K[x];
      assert Between(A, con.from, x, s, con.to);
      assert a.from == s ==> a in Outs(A, s);
    }
  }

  /** An old arc at an intermediate state agrees with the rank the state gets. */
  lemma OldArcRank(g: Ends, A: set<Arc>, B: set<Arc>, con: Arc, K: map<nat, nat>, rank: map<nat, nat>, b: Arc)
    requires PullOk(g, A, B, con, K) && Ranked(A, rank) && b in A && IsConstraint(b.ty)
    ensures var rank' := RankWith(rank, K, rank[con.from]);
            b.from in rank' && b.to in rank' && rank'[b.from] < rank'[b.to]
  {
    hide Combine;
    if b.to in K.Values {
      var x :| x in K && K[x] == b.to;
      KeyFacts(g, A, B, con, K, x);
      assert b in Ins(A, K[x]);
      var a :| a in Ins(A, con.from) && a.from == x && Combine(con, a) == Compatible;
      CompatibleSwaps(con, a);
    } else if b.from in K.Values {
      var x :| x in K && K[x] == b.from;
      KeyFacts(g, A, B, con, K, x);
      var a := WasRelaid(A, con.from, x, K[x], con.to, b);
    }
  }

  ghost function RankWith(rank: map<nat, nat>, K: map<nat, nat>, n: nat): map<nat, nat> {
    map z | z in rank.Keys + K.Values :: if z in K.Values then n else rank[z]
  }

  /** The types and colours that occur on arcs. */
  function Kinds(A: set<Arc>): (k: set<(ArcType, nat)>)
    ensures forall a :: a in A ==> (a.ty, a.co) in k
  {
    set a | a in A :: (a.ty, a.co)
  }

  lemma KindsMore(A: set<Arc>, B: set<Arc>)
    requires A <= B
    ensures Kinds(A) <= Kinds(B)
  {
  }

  lemma KindsCloned(A: set<Arc>, B: set<Arc>, con: Arc, f: nat)
    requires Cloned(A, B, con, f)
    ensures Kinds(B) <= Kinds(A)
  {
  }

  lemma KindsPulled(A: set<Arc>, B: set<Arc>, con: Arc, K: map<nat, nat>)
    requires Pulled(A, B, con, K)
    ensures Kinds(B) <= Kinds(A)
  {
    hide Combine;
    forall b | b in B ensures (b.ty, b.co) in Kinds(A) {
      Sorted(A, B, con, K, b);
    }
  }
}
