/** Bracket expressions: the arcs they make stand for exactly the characters listed, or for all the others. */
module Brackets {
  import opened ColorTree
  import opened ColorTable
  import opened ColorPartition
  import opened ColorMap
  import opened ColorRanges
  import opened ColorArcs
  import opened NfaGraph

  /** A list of characters and of ranges; a range that ends before it starts is empty. */
  datatype CharVec = CharVec(chrs: seq<nat>, ranges: seq<(nat, nat)>)

  ghost predicate Valid(cv: CharVec) {
    (forall i :: 0 <= i < |cv.chrs| ==> cv.chrs[i] < NCHRS) && (forall i :: 0 <= i < |cv.ranges| ==> cv.ranges[i].1 < NCHRS)
  }

  ghost function ChrSet(chrs: seq<nat>): set<nat> {
    set c | c in chrs
  }

  ghost function RangeSet(ranges: seq<(nat, nat)>): set<nat> {
    if ranges == [] then {}
    else RangeSet(ranges[..|ranges| - 1]) + Run(ranges[|ranges| - 1].0, ranges[|ranges| - 1].1 + 1)
  }

  ghost function Members(cv: CharVec): set<nat> {
    ChrSet(cv.chrs) + RangeSet(cv.ranges)
  }

  ghost function AllMembers(cvs: seq<CharVec>): set<nat> {
    if cvs == [] then {} else AllMembers(cvs[..|cvs| - 1]) + Members(cvs[|cvs| - 1])
  }

  /** The characters listed are those given singly, and those from the first to the last of a range. */
  lemma {:induction false} MembersAre(items: seq<CharVec>, c: nat)
    ensures c in AllMembers(items) <==>
            exists i :: 0 <= i < |items|
              && (c in items[i].chrs || exists k :: 0 <= k < |items[i].ranges| && items[i].ranges[k].0 <= c <= items[i].ranges[k].1)
    decreases |items|
  {
    if items != [] {
      var n := |items| - 1;
      MembersAre(items[..n], c);
      RangesAre(items[n].ranges, c);
      assert forall i :: 0 <= i < n ==> items[..n][i] == items[i];
    }
  }

  lemma {:induction false} RangesAre(ranges: seq<(nat, nat)>, c: nat)
    ensures c in RangeSet(ranges) <==> exists k :: 0 <= k < |ranges| && ranges[k].0 <= c <= ranges[k].1
    decreases |ranges|
  {
    if ranges != [] {
      var n := |ranges| - 1;
      RangesAre(ranges[..n], c);
      assert forall k :: 0 <= k < n ==> ranges[..n][k] == ranges[k];
    }
  }

  /** What has been taken since g, with arcs from lp to rp. */
  ghost predicate TookAll(cm: ColorMap, nfa: Nfa, g: Coloring, A: set<Arc>, X: set<nat>, lp: nat, rp: nat)
    reads cm, nfa
  {
    && cm.Valid() && nfa.Valid() && lp in nfa.states && rp in nfa.states
    && Drawn(g, A, X, lp, rp, cm.State(), nfa.arcs)
  }

  lemma TookStart(cm: ColorMap, nfa: Nfa, lp: nat, rp: nat)
    requires cm.Valid() && nfa.Valid() && lp in nfa.states && rp in nfa.states
    ensures TookAll(cm, nfa, Now(cm), nfa.arcs, {}, lp, rp)
  {
    hide TreeOk, ChainOk, BlocksOk, Painting, Sound, Solid, Nfa.Valid;
    DrawnNone(cm.State(), nfa.arcs, lp, rp);
  }

  lemma TookParts(cm: ColorMap, nfa: Nfa, g: Coloring, A: set<Arc>, X: set<nat>, lp: nat, rp: nat)
    requires TookAll(cm, nfa, g, A, X, lp, rp)
    ensures cm.Valid() && nfa.Valid() && lp in nfa.states && rp in nfa.states
    ensures Drawn(g, A, X, lp, rp, Now(cm), nfa.arcs)
  {
  }

  lemma TookMore(cm: ColorMap, nfa: Nfa, g: Coloring, A: set<Arc>, X: set<nat>, h: Coloring, B: set<Arc>, Y: set<nat>, lp: nat, rp: nat)
    requires Drawn(g, A, X, lp, rp, h, B) && cm.Valid() && nfa.Valid() && lp in nfa.states && rp in nfa.states
    requires Drawn(h, B, Y, lp, rp, Now(cm), nfa.arcs)
    ensures TookAll(cm, nfa, g, A, X + Y, lp, rp)
  {
    hide TreeOk, ChainOk, BlocksOk, Painting, Sound, Solid, Nfa.Valid, Drawn;
    DrawnBoth(g, A, X, h, B, Y, cm.State(), nfa.arcs, lp, rp);
  }

  method TakeChr(cm: ColorMap, nfa: Nfa, c: nat, lp: nat, rp: nat, ghost g: Coloring, ghost A: set<Arc>, ghost X: set<nat>)
    returns (ok: bool)
    requires TookAll(cm, nfa, g, A, X, lp, rp) && c < NCHRS
    modifies cm, nfa`arcs
    ensures cm.Valid() && nfa.Valid()
    ensures !ok ==> Spent(cm)
    ensures ok ==> TookAll(cm, nfa, g, A, X + {c}, lp, rp)
  {
    hide ColorMap.Valid, Nfa.Valid, Drawn, TookAll, ColorMap.State;
    TookParts(cm, nfa, g, A, X, lp, rp);
    ghost var h, B := Now(cm), nfa.arcs;
    ok := OneChr(cm, nfa, c, lp, rp);
    if ok {
      TookMore(cm, nfa, g, A, X, h, B, {c}, lp, rp);
    }
  }

  method TakeRange(cm: ColorMap, nfa: Nfa, from: nat, to: nat, lp: nat, rp: nat, ghost g: Coloring, ghost A: set<Arc>, ghost X: set<nat>)
    returns (ok: bool)
    requires TookAll(cm, nfa, g, A, X, lp, rp) && from <= to < NCHRS
    modifies cm, nfa`arcs
    ensures cm.Valid() && nfa.Valid()
    ensures !ok ==> Spent(cm)
    ensures ok ==> TookAll(cm, nfa, g, A, X + Run(from, to + 1), lp, rp)
  {
    hide ColorMap.Valid, Nfa.Valid, Drawn, TookAll, ColorMap.State;
    TookParts(cm, nfa, g, A, X, lp, rp);
    ghost var h, B := Now(cm), nfa.arcs;
    ok := SubRange(cm, nfa, from, to, lp, rp);
    if ok {
      TookMore(cm, nfa, g, A, X, h, B, Run(from, to + 1), lp, rp);
    }
  }

  lemma NextChr(X: set<nat>, chrs: seq<nat>, i: nat)
    requires i < |chrs|
    ensures X + ChrSet(chrs[..i + 1]) == X + ChrSet(chrs[..i]) + {chrs[i]}
  {
    assert chrs[..i + 1] == chrs[..i] + [chrs[i]];
  }

  lemma NextRange(X: set<nat>, ranges: seq<(nat, nat)>, i: nat)
    requires i < |ranges|
    ensures X + RangeSet(ranges[..i + 1]) == X + RangeSet(ranges[..i]) + Run(ranges[i].0, ranges[i].1 + 1)
    ensures ranges[i].0 > ranges[i].1 ==> RangeSet(ranges[..i + 1]) == RangeSet(ranges[..i])
  {
    assert ranges[..i + 1][..i] == ranges[..i];
  }

  /** Fills in arcs for the characters and ranges of a list. */
  method DoVec(cm: ColorMap, nfa: Nfa, cv: CharVec, lp: nat, rp: nat, ghost g: Coloring, ghost A: set<Arc>, ghost X: set<nat>)
    returns (ok: bool)
    requires TookAll(cm, nfa, g, A, X, lp, rp) && Valid(cv)
    modifies cm, nfa`arcs
    ensures cm.Valid() && nfa.Valid()
    ensures !ok ==> Spent(cm)
    ensures ok ==> TookAll(cm, nfa, g, A, X + Members(cv), lp, rp)
  {
    hide ColorMap.Valid, Nfa.Valid, TookAll;
    TookParts(cm, nfa, g, A, X, lp, rp);
    var i := 0;
    assert X + ChrSet(cv.chrs[..0]) == X;
    while i < |cv.chrs|
      invariant 0 <= i <= |cv.chrs| && TookAll(cm, nfa, g, A, X + ChrSet(cv.chrs[..i]), lp, rp) && cm.Valid() && nfa.Valid()
    {
      ok := TakeChr(cm, nfa, cv.chrs[i], lp, rp, g, A, X + ChrSet(cv.chrs[..i]));
      if !ok {
        return;
      }
      NextChr(X, cv.chrs, i);
      i := i + 1;
    }
    assert cv.chrs[..i] == cv.chrs;
    ghost var Y := X + ChrSet(cv.chrs);
    i := 0;
    assert Y + RangeSet(cv.ranges[..0]) == Y;
    while i < |cv.ranges|
      invariant 0 <= i <= |cv.ranges| && TookAll(cm, nfa, g, A, Y + RangeSet(cv.ranges[..i]), lp, rp) && cm.Valid() && nfa.Valid()
    {
      var from, to := cv.ranges[i].0, cv.ranges[i].1;
      NextRange(Y, cv.ranges, i);
      if from <= to {
        ok := TakeRange(cm, nfa, from, to, lp, rp, g, A, Y + RangeSet(cv.ranges[..i]));
        if !ok {
          return;
        }
      } else {
        assert Run(from, to + 1) == {};
      }
      i := i + 1;
    }
    assert cv.ranges[..i] == cv.ranges;
    assert Y + RangeSet(cv.ranges) == X + Members(cv);
    ok := true;
  }

  // ---------------------------------------------------------------- what the arcs mean

  /** No subcolour was open in g. */
  ghost predicate Flat(g: Coloring) {
    && g.taken == {} && g.was == g.paint && Sound(g)
    && forall k: nat :: InUse(g.cd, g.max, k) ==> k in g.full && g.cd[k].sub == NOSUB
  }

  lemma SoundLengths(g: Coloring)
    requires Sound(g)
    ensures |g.paint| == SPELLED && |g.was| == SPELLED && forall c :: c in g.taken ==> c < NCHRS
  {
  }

  /** A full colour still means the characters that had it. */
  lemma MeansBefore(h: Coloring, k: nat, c: nat)
    requires Sound(h) && k in h.full && c < NCHRS
    ensures Means(h.cd, k, h.paint[c]) <==> h.was[c] == k
  {
    assert SubOk(h.cd, h.max, h.full, k);
    assert SubOk(h.cd, h.max, h.full, h.was[c]);
  }

  /** The colour of a character that was taken means taken characters only. */
  lemma MeansTaken(h: Coloring, d: nat, c: nat)
    requires Sound(h) && d in h.taken && c < NCHRS && Means(h.cd, h.paint[d], h.paint[c])
    ensures c in h.taken
  {
    var k := h.paint[d];
    PaintReal(h, d);
    assert SubOk(h.cd, h.max, h.full, k);
    if k in h.full {
      FullWas(h, d);
      MeansBefore(h, k, c);
    }
  }

  /** Arcs drawn for the characters X fit exactly those, and the other arcs fit what they fitted. */
  lemma DrawnFits(g: Coloring, A: set<Arc>, X: set<nat>, lp: nat, rp: nat, h: Coloring, B: set<Arc>)
    requires Flat(g) && Sound(h) && Drawn(g, A, X, lp, rp, h, B) && ArcsInUse(A, g.cd, g.max)
    requires forall k: nat :: Arc(PLAIN, k, lp, rp) !in A
    ensures forall c: nat :: c < NCHRS ==> (Fits(B, h.cd, h.paint[c], PLAIN, lp, rp) <==> c in X)
    ensures forall c: nat, ty, from, to :: c < NCHRS && Tinted(ty) && !(ty == PLAIN && from == lp && to == rp) ==>
      (Fits(B, h.cd, h.paint[c], ty, from, to) <==> Arc(ty, g.paint[c], from, to) in A)
  {
    hide Sound, Grouped, Counted, Touched, Peopled, SubsOk;
    SoundLengths(g);
    SoundLengths(h);
    forall c: nat | c < NCHRS ensures Fits(B, h.cd, h.paint[c], PLAIN, lp, rp) <==> c in X {
      if c in X {
        assert Arc(PLAIN, h.paint[c], lp, rp) in B && Means(h.cd, h.paint[c], h.paint[c]);
      }
      if Fits(B, h.cd, h.paint[c], PLAIN, lp, rp) {
        var k: nat :| Arc(PLAIN, k, lp, rp) in B && Means(h.cd, k, h.paint[c]);
        assert Arc(PLAIN, k, lp, rp) in PaintArcs(h.paint, X, lp, rp);
        var d :| d in X && Arc(PLAIN, h.paint[d], lp, rp) == Arc(PLAIN, k, lp, rp);
        MeansTaken(h, d, c);
      }
    }
    forall c: nat, ty, from, to | c < NCHRS && Tinted(ty) && !(ty == PLAIN && from == lp && to == rp)
      ensures Fits(B, h.cd, h.paint[c], ty, from, to) <==> Arc(ty, g.paint[c], from, to) in A
    {
      OtherFits(g, A, X, lp, rp, h, B, c, ty, from, to);
    }
  }

  lemma OtherFits(g: Coloring, A: set<Arc>, X: set<nat>, lp: nat, rp: nat, h: Coloring, B: set<Arc>, c: nat, ty: ArcType, from: nat, to: nat)
    requires Flat(g) && Sound(h) && Drawn(g, A, X, lp, rp, h, B) && ArcsInUse(A, g.cd, g.max)
    requires c < NCHRS && Tinted(ty) && !(ty == PLAIN && from == lp && to == rp)
    ensures Fits(B, h.cd, h.paint[c], ty, from, to) <==> Arc(ty, g.paint[c], from, to) in A
  {
    assert forall k: nat :: Arc(ty, k, from, to) in B <==> Arc(ty, k, from, to) in A;
    forall k: nat | Arc(ty, k, from, to) in A ensures Means(h.cd, k, h.paint[c]) <==> g.paint[c] == k {
      assert InUse(g.cd, g.max, k);
      MeansBefore(h, k, c);
    }
    if Arc(ty, g.paint[c], from, to) in A {
      assert Means(h.cd, g.paint[c], h.paint[c]);
    }
  }

  lemma DrawnInUse(g: Coloring, A: set<Arc>, X: set<nat>, lp: nat, rp: nat, h: Coloring, B: set<Arc>)
    requires Flat(g) && Sound(h) && Drawn(g, A, X, lp, rp, h, B) && ArcsInUse(A, g.cd, g.max)
    ensures ArcsInUse(B, h.cd, h.max)
  {
    forall a | a in B && Tinted(a.ty) ensures InUse(h.cd, h.max, a.co) {
      if a in A {
        assert InUse(g.cd, g.max, a.co);
      } else {
        var c :| c in X && a == Arc(PLAIN, h.paint[c], lp, rp);
        PaintReal(h, c);
      }
    }
  }

  /** When no subcolour is open, an arc stands for the characters of its colour. */
  lemma FlatFits(B: set<Arc>, cd: seq<Desc>, max: nat, x: nat, ty: ArcType, from: nat, to: nat)
    requires ArcsInUse(B, cd, max) && Tinted(ty) && forall k: nat :: InUse(cd, max, k) ==> cd[k].sub == NOSUB
    ensures Fits(B, cd, x, ty, from, to) <==> Arc(ty, x, from, to) in B
  {
    if Arc(ty, x, from, to) in B {
      assert Means(cd, x, x);
    }
    if Fits(B, cd, x, ty, from, to) {
      var k: nat :| Arc(ty, k, from, to) in B && Means(cd, k, x);
      assert InUse(cd, max, k);
    }
  }

  /** The same characters as before stand on the arcs, except on the plain ones from lp to rp, which have exactly X. */
  ghost predicate OnlyGained(paint: seq<nat>, A: set<Arc>, quilt: seq<nat>, B: set<Arc>, X: set<nat>, lp: nat, rp: nat)
    requires |paint| == SPELLED && |quilt| == SPELLED
  {
    && (forall c: nat :: c < NCHRS ==> (Arc(PLAIN, quilt[c], lp, rp) in B <==> c in X))
    && (forall c: nat, ty, from, to :: c < NCHRS && Tinted(ty) && !(ty == PLAIN && from == lp && to == rp) ==>
          (Arc(ty, quilt[c], from, to) in B <==> Arc(ty, paint[c], from, to) in A))
  }

  /**
   * Bracket expression: whatever was split and recoloured on the way, in the
   * end a character has an arc from lp to rp exactly if it is listed, and every
   * other arc stands for the characters it stood for.
   */
  method Bracket(cm: ColorMap, nfa: Nfa, items: seq<CharVec>, lp: nat, rp: nat) returns (ok: bool)
    requires Settled(cm) && nfa.Valid() && ArcsInUse(nfa.arcs, cm.cd, cm.max) && lp in nfa.states && rp in nfa.states
    requires forall k: nat :: Arc(PLAIN, k, lp, rp) !in nfa.arcs
    requires forall i :: 0 <= i < |items| ==> Valid(items[i])
    modifies cm, nfa`arcs
    ensures cm.Valid() && nfa.Valid()
    ensures !ok ==> Spent(cm)
    ensures ok ==> Settled(cm) && ArcsInUse(nfa.arcs, cm.cd, cm.max)
    ensures ok ==> OnlyGained(old(cm.Paint()), old(nfa.arcs), cm.Paint(), nfa.arcs, AllMembers(items), lp, rp)
    ensures ok ==> Untinted(nfa.arcs) == Untinted(old(nfa.arcs))
  {
    hide ColorMap.Valid, Nfa.Valid, TookAll, Settled, ArcsInUse, OnlyGained, Untinted;
    SettledFlat(cm);
    ghost var g, A := Now(cm), nfa.arcs;
    TookStart(cm, nfa, lp, rp);
    var i := 0;
    while i < |items|
      invariant 0 <= i <= |items| && TookAll(cm, nfa, g, A, AllMembers(items[..i]), lp, rp) && cm.Valid() && nfa.Valid()
    {
      ok := DoVec(cm, nfa, items[i], lp, rp, g, A, AllMembers(items[..i]));
      if !ok {
        return;
      }
      assert items[..i + 1][..i] == items[..i];
      i := i + 1;
    }
    assert items[..i] == items;
    BracketEnd(cm, nfa, g, A, AllMembers(items), lp, rp);
    SettledFlat(cm);
    ok := true;
  }

  lemma SettledFlat(cm: ColorMap)
    requires Settled(cm)
    ensures cm.Valid() && Flat(Now(cm)) && Now(cm).cd == cm.cd && Now(cm).max == cm.max && Now(cm).paint == cm.Paint()
  {
  }

  /** Closing the bracket. */
  method BracketEnd(cm: ColorMap, nfa: Nfa, ghost g: Coloring, ghost A: set<Arc>, ghost X: set<nat>, lp: nat, rp: nat)
    requires TookAll(cm, nfa, g, A, X, lp, rp) && Flat(g) && ArcsInUse(A, g.cd, g.max) && |g.paint| == SPELLED
    requires forall k: nat :: Arc(PLAIN, k, lp, rp) !in A
    modifies cm, nfa`arcs
    ensures Settled(cm) && nfa.Valid() && ArcsInUse(nfa.arcs, cm.cd, cm.max)
    ensures OnlyGained(g.paint, A, cm.Paint(), nfa.arcs, X, lp, rp) && Untinted(nfa.arcs) == Untinted(A)
  {
    hide TreeOk, ChainOk, BlocksOk, Painting, Sound, Solid, Nfa.Valid, Drawn, Flat, ArcsInUse, Untinted, OnlyGained, SameFits;
    DrawnInUse(g, A, X, lp, rp, cm.State(), nfa.arcs);
    DrawnUntinted(g, A, X, lp, rp, cm.State(), nfa.arcs);
    DrawnFits(g, A, X, lp, rp, cm.State(), nfa.arcs);
    ghost var h, B := cm.State(), nfa.arcs;
    OkColors(cm, nfa);
    Gained(g, A, X, lp, rp, h, B, nfa.arcs, cm.cd, cm.max);
  }

  lemma DrawnUntinted(g: Coloring, A: set<Arc>, X: set<nat>, lp: nat, rp: nat, h: Coloring, B: set<Arc>)
    requires Drawn(g, A, X, lp, rp, h, B)
    ensures Untinted(B) == Untinted(A)
  {
  }

  lemma Gained(g: Coloring, A: set<Arc>, X: set<nat>, lp: nat, rp: nat, h: Coloring, B: set<Arc>, C: set<Arc>, ce: seq<Desc>, top: nat)
    requires |g.paint| == SPELLED && |h.paint| == SPELLED && SameFits(h.paint, B, h.cd, C, ce) && ArcsInUse(C, ce, top)
    requires forall k: nat :: InUse(ce, top, k) ==> ce[k].sub == NOSUB
    requires forall c: nat :: c < NCHRS ==> (Fits(B, h.cd, h.paint[c], PLAIN, lp, rp) <==> c in X)
    requires forall c: nat, ty, from, to :: c < NCHRS && Tinted(ty) && !(ty == PLAIN && from == lp && to == rp) ==>
      (Fits(B, h.cd, h.paint[c], ty, from, to) <==> Arc(ty, g.paint[c], from, to) in A)
    ensures OnlyGained(g.paint, A, h.paint, C, X, lp, rp)
  {
    hide Fits, ArcsInUse;
    forall c: nat, ty, from, to | c < NCHRS && Tinted(ty)
      ensures Arc(ty, h.paint[c], from, to) in C <==> Fits(B, h.cd, h.paint[c], ty, from, to)
    {
      FlatFits(C, ce, top, h.paint[c], ty, from, to);
    }
  }

  // ---------------------------------------------------------------- complements

  /** Some plain arc of the colour leaves the state. */
  predicate FindArc(A: set<Arc>, of: nat, co: nat) {
    exists a :: a in A && a.ty == PLAIN && a.co == co && a.from == of
  }

  /** Added are the arcs, of colours below end, for whose colour no plain arc leaves the state of. */
  ghost predicate ComplementAdded(A: set<Arc>, B: set<Arc>, cd: seq<Desc>, max: nat, end: nat, of: nat, from: nat, to: nat) {
    forall a :: a in B <==> (a in A || (a == Arc(PLAIN, a.co, from, to) && NotFrom(A, cd, max, end, of, a.co)))
  }

  ghost predicate NotFrom(A: set<Arc>, cd: seq<Desc>, max: nat, end: nat, of: nat, co: nat) {
    co < end && Real(cd, max, co) && !FindArc(A, of, co)
  }

  /** Adds arcs of the colours for which no plain arc leaves the state of. */
  method ColorComplement(cm: ColorMap, nfa: Nfa, of: nat, from: nat, to: nat)
    requires cm.Valid() && nfa.Valid() && of != from && from in nfa.states && to in nfa.states
    modifies nfa`arcs
    ensures nfa.Valid() && ComplementAdded(old(nfa.arcs), nfa.arcs, cm.cd, cm.max, cm.max + 1, of, from, to)
  {
    hide TreeOk, Colored, ChainOk, Solid, BlocksOk, Sound, Painting, Nfa.Valid;
    ghost var A := nfa.arcs;
    InTable(cm);
    var co: nat := 0;
    while co < cm.max + 1
      invariant co <= cm.max + 1 && nfa.Valid() && ComplementAdded(A, nfa.arcs, cm.cd, cm.max, co, of, from, to)
    {
      if !cm.cd[co].freed && !cm.cd[co].pseudo {
        var found := FindArc(nfa.arcs, of, co);
        SameFound(A, nfa.arcs, of, from, co);
        if !found {
          nfa.NewArc(PLAIN, co, from, to);
        }
      }
      co := co + 1;
    }
  }

  lemma SameFound(A: set<Arc>, B: set<Arc>, of: nat, from: nat, co: nat)
    requires of != from && A <= B && forall a :: a in B && a !in A ==> a.from == from
    ensures FindArc(A, of, co) <==> FindArc(B, of, co)
  {
  }

  /** Two states to hold the arcs of the uncomplemented expression for a while. */
  method TwoStates(nfa: Nfa) returns (left: nat, right: nat)
    requires nfa.Valid()
    modifies nfa`states, nfa`nstates
    ensures nfa.Valid() && left in nfa.states && right in nfa.states && left != right
    ensures left !in old(nfa.states) && right !in old(nfa.states) && !nfa.Flag(left) && !nfa.Flag(right)
    ensures forall s :: s in nfa.states <==> s in old(nfa.states) || s == left || s == right
    ensures forall a :: a in nfa.arcs ==> Apart(a, left, right)
  {
    left := nfa.NewState();
    right := nfa.NewState();
  }

  method DropTwo(nfa: Nfa, left: nat, right: nat)
    requires nfa.Valid() && left in nfa.states && right in nfa.states && left != right && !nfa.Flag(left) && !nfa.Flag(right)
    modifies nfa`states, nfa`arcs
    ensures nfa.Valid() && Unhooked(old(nfa.arcs), nfa.arcs, left, right)
    ensures forall s :: s in nfa.states <==> s in old(nfa.states) && s != left && s != right
  {
    hide Nfa.Valid, Ins, Outs;
    ghost var A := nfa.arcs;
    nfa.DropState(left);
    ghost var B := nfa.arcs;
    nfa.DropState(right);
    DroppedTwo(A, B, nfa.arcs, left, right);
  }

  lemma DroppedTwo(A: set<Arc>, B: set<Arc>, C: set<Arc>, left: nat, right: nat)
    requires B == A - Ins(A, left) - Outs(A, left) && C == B - Ins(B, right) - Outs(B, right)
    ensures Unhooked(A, C, left, right)
  {
  }

  /**
   * Complemented bracket expression: a character has an arc from lp to rp
   * exactly if it is not listed.
   */
  method CBracket(cm: ColorMap, nfa: Nfa, items: seq<CharVec>, lp: nat, rp: nat) returns (ok: bool)
    requires Settled(cm) && nfa.Valid() && ArcsInUse(nfa.arcs, cm.cd, cm.max) && lp in nfa.states && rp in nfa.states
    requires forall a :: a in nfa.arcs ==> a.from != lp
    requires forall i :: 0 <= i < |items| ==> Valid(items[i])
    modifies cm, nfa
    ensures cm.Valid()
    ensures !ok ==> Spent(cm)
    ensures ok ==> Settled(cm) && nfa.Valid() && ArcsInUse(nfa.arcs, cm.cd, cm.max)
    ensures ok ==> forall s :: s in nfa.states <==> s in old(nfa.states)
    ensures ok ==> OnlyGained(old(cm.Paint()), old(nfa.arcs), cm.Paint(), nfa.arcs, Run(0, NCHRS) - AllMembers(items), lp, rp)
  {
    hide ColorMap.Valid, Settled, ArcsInUse, OnlyGained, Untinted, Painting, Nfa.Valid, Flat, ComplementAdded, Unhooked, AllMembers;
    SettledFlat(cm);
    ghost var g, A := Now(cm), nfa.arcs;
    var left, right := TwoStates(nfa);
    ok := Bracket(cm, nfa, items, left, right);
    if !ok {
      return;
    }
    SettledFlat(cm);
    ghost var B := nfa.arcs;
    ColorComplement(cm, nfa, left, lp, rp);
    ghost var C := nfa.arcs;
    DropTwo(nfa, left, right);
    Complemented(g, A, Now(cm), B, C, nfa.arcs, AllMembers(items), left, right, lp, rp);
  }

  ghost predicate Unhooked(C: set<Arc>, D: set<Arc>, left: nat, right: nat) {
    forall a :: a in D <==> a in C && Apart(a, left, right)
  }

  predicate Apart(a: Arc, left: nat, right: nat) {
    a.from != left && a.from != right && a.to != left && a.to != right
  }

  lemma Complemented(g: Coloring, A: set<Arc>, h: Coloring, B: set<Arc>, C: set<Arc>, D: set<Arc>, X: set<nat>,
                     left: nat, right: nat, lp: nat, rp: nat)
    requires Flat(h) && |g.paint| == SPELLED && |h.paint| == SPELLED
    requires OnlyGained(g.paint, A, h.paint, B, X, left, right) && ArcsInUse(B, h.cd, h.max)
    requires forall a :: a in A ==> a.from != lp && Apart(a, left, right)
    requires left != right && lp != left && lp != right && rp != left && rp != right
    requires ComplementAdded(B, C, h.cd, h.max, h.max + 1, left, lp, rp) && Unhooked(C, D, left, right)
    ensures OnlyGained(g.paint, A, h.paint, D, Run(0, NCHRS) - X, lp, rp) && ArcsInUse(D, h.cd, h.max)
  {
    hide Flat, OnlyGained, ComplementAdded, NotFrom, ArcsInUse;
    forall c: nat | c < NCHRS ensures Arc(PLAIN, h.paint[c], lp, rp) in D <==> c in Run(0, NCHRS) - X {
      ComplementedOne(g, A, h, B, C, X, left, right, lp, rp, c);
    }
    forall c: nat, ty, from, to | c < NCHRS && Tinted(ty) && !(ty == PLAIN && from == lp && to == rp)
      ensures Arc(ty, h.paint[c], from, to) in D <==> Arc(ty, g.paint[c], from, to) in A
    {
      ComplementedOther(g, A, h, B, C, X, left, right, lp, rp, c, ty, from, to);
    }
    OnlyGainedIs(g.paint, A, h.paint, D, Run(0, NCHRS) - X, lp, rp);
    ComplementInUse(B, C, D, h.cd, h.max, left, right, lp, rp);
  }

  lemma OnlyGainedIs(paint: seq<nat>, A: set<Arc>, quilt: seq<nat>, B: set<Arc>, X: set<nat>, lp: nat, rp: nat)
    requires |paint| == SPELLED && |quilt| == SPELLED
    requires forall c: nat :: c < NCHRS ==> (Arc(PLAIN, quilt[c], lp, rp) in B <==> c in X)
    requires forall c: nat, ty, from, to :: c < NCHRS && Tinted(ty) && !(ty == PLAIN && from == lp && to == rp) ==>
      (Arc(ty, quilt[c], from, to) in B <==> Arc(ty, paint[c], from, to) in A)
    ensures OnlyGained(paint, A, quilt, B, X, lp, rp)
  {
  }

  lemma ComplementedOne(g: Coloring, A: set<Arc>, h: Coloring, B: set<Arc>, C: set<Arc>, X: set<nat>,
                        left: nat, right: nat, lp: nat, rp: nat, c: nat)
    requires Flat(h) && |g.paint| == SPELLED && |h.paint| == SPELLED && c < NCHRS
    requires OnlyGained(g.paint, A, h.paint, B, X, left, right)
    requires forall a :: a in A ==> a.from != lp && Apart(a, left, right)
    requires lp != left && ComplementAdded(B, C, h.cd, h.max, h.max + 1, left, lp, rp)
    ensures Arc(PLAIN, h.paint[c], lp, rp) in C <==> c !in X
  {
    hide Sound;
    var k := h.paint[c];
    PaintRealFlat(h, c);
    assert Arc(PLAIN, k, lp, rp) !in B by {
      assert Arc(PLAIN, g.paint[c], lp, rp) !in A;
    }
    if c in X {
      assert Arc(PLAIN, k, left, right) in B;
      assert FindArc(B, left, k);
    }
    if FindArc(B, left, k) {
      var a :| a in B && a.ty == PLAIN && a.co == k && a.from == left;
      assert a == Arc(PLAIN, k, left, a.to);
      assert Arc(PLAIN, g.paint[c], left, a.to) !in A;
    }
  }

  lemma PaintRealFlat(h: Coloring, c: nat)
    requires Flat(h) && c < NCHRS
    ensures |h.paint| == SPELLED && Real(h.cd, h.max, h.paint[c])
  {
    PaintReal(h, c);
  }

  lemma ComplementedOther(g: Coloring, A: set<Arc>, h: Coloring, B: set<Arc>, C: set<Arc>, X: set<nat>,
                          left: nat, right: nat, lp: nat, rp: nat, c: nat, ty: ArcType, from: nat, to: nat)
    requires |g.paint| == SPELLED && |h.paint| == SPELLED && c < NCHRS && Tinted(ty) && !(ty == PLAIN && from == lp && to == rp)
    requires OnlyGained(g.paint, A, h.paint, B, X, left, right)
    requires forall a :: a in A ==> a.from != lp && Apart(a, left, right)
    requires ComplementAdded(B, C, h.cd, h.max, h.max + 1, left, lp, rp)
    ensures Arc(ty, h.paint[c], from, to) in C && Apart(Arc(ty, h.paint[c], from, to), left, right)
      <==> Arc(ty, g.paint[c], from, to) in A
  {
    hide NotFrom;
    assert Arc(ty, h.paint[c], from, to) in C <==> Arc(ty, h.paint[c], from, to) in B;
  }

  lemma ComplementInUse(B: set<Arc>, C: set<Arc>, D: set<Arc>, cd: seq<Desc>, max: nat, left: nat, right: nat, lp: nat, rp: nat)
    requires ArcsInUse(B, cd, max) && ComplementAdded(B, C, cd, max, max + 1, left, lp, rp) && Unhooked(C, D, left, right)
    ensures ArcsInUse(D, cd, max)
  {
  }
}
