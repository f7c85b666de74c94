/** Promoting subcolours to full colours, with the NFA's arcs repaired so that they still mean the same characters. */
module ColorArcs {
  import opened ColorTree
  import opened ColorTable
  import opened ColorPartition
  import opened ColorMap
  import opened ColorRanges
  import opened NfaGraph

  predicate Tinted(ty: ArcType) {
    ty == PLAIN || ty == AHEAD || ty == BEHIND
  }

  /** An arc of colour k stands for the characters of colour k and of k's open subcolour. */
  ghost predicate Means(cd: seq<Desc>, k: nat, x: nat) {
    k == x || (k < |cd| && cd[k].sub == x)
  }

  /** Some arc between two states stands for the characters of colour x. */
  ghost predicate Fits(A: set<Arc>, cd: seq<Desc>, x: nat, ty: ArcType, from: nat, to: nat) {
    exists k: nat :: Arc(ty, k, from, to) in A && Means(cd, k, x)
  }

  /** Arcs have colours in use. */
  ghost predicate ArcsInUse(A: set<Arc>, cd: seq<Desc>, max: nat) {
    forall a :: a in A && Tinted(a.ty) ==> InUse(cd, max, a.co)
  }

  // ---------------------------------------------------------------- one promotion

  /** Colour co and its subcolour no longer belong together. */
  ghost function Parted(cd: seq<Desc>, co: nat, sco: nat): (ce: seq<Desc>)
    requires co < |cd| && sco < |cd|
    ensures |ce| == |cd|
    ensures forall k: nat :: k < |cd| ==> ce[k] == cd[k].(sub := if k == co || k == sco then NOSUB else cd[k].sub)
  {
    var less := cd[co := cd[co].(sub := NOSUB)];
    less[sco := less[sco].(sub := NOSUB)]
  }

  ghost function Promoted(g: Coloring, co: nat, sco: nat): Coloring
    requires co < |g.cd| && sco < |g.cd| && |g.was| == SPELLED
  {
    g.(cd := Parted(g.cd, co, sco), full := g.full + {sco},
       was := seq(SPELLED, c requires 0 <= c < SPELLED => if c in g.taken && g.was[c] == co then sco else g.was[c]),
       taken := set c | c in g.taken && c < SPELLED && g.was[c] != co)
  }

  ghost predicate Splits(g: Coloring, co: nat, sco: nat) {
    co in g.full && co < |g.cd| && sco < |g.cd| && g.cd[co].sub == sco
  }

  lemma SplitsAt(g: Coloring, co: nat)
    requires Sound(g) && co in g.full && co < |g.cd| && g.cd[co].sub >= 0
    ensures Splits(g, co, g.cd[co].sub)
  {
    assert SubOk(g.cd, g.max, g.full, co);
  }

  lemma SplitsFacts(g: Coloring, co: nat, sco: nat)
    requires Sound(g) && Splits(g, co, sco)
    ensures Real(g.cd, g.max, co) && Real(g.cd, g.max, sco) && sco !in g.full && g.cd[sco].sub == sco && sco != co
    ensures |g.was| == SPELLED && exists c :: c in g.taken && c < SPELLED && g.was[c] == co
  {
    assert SubOk(g.cd, g.max, g.full, co);
    assert SomeTaken(g, co);
  }

  lemma PromotedSubs(g: Coloring, co: nat, sco: nat)
    requires Sound(g) && Splits(g, co, sco)
    ensures SubsOk(Parted(g.cd, co, sco), g.max, g.full + {sco})
    ensures forall k: nat :: Real(Parted(g.cd, co, sco), g.max, k) == Real(g.cd, g.max, k)
  {
    hide Grouped, Counted, Touched, Peopled;
    SplitsFacts(g, co, sco);
    PartedSubs(g.cd, g.max, g.full, co, sco);
  }

  lemma PartedSubs(cd: seq<Desc>, max: nat, full: set<nat>, co: nat, sco: nat)
    requires SubsOk(cd, max, full) && co in full && Real(cd, max, co) && Real(cd, max, sco)
    requires cd[co].sub == sco && sco !in full && cd[sco].sub == sco
    ensures SubsOk(Parted(cd, co, sco), max, full + {sco})
    ensures forall k: nat :: Real(Parted(cd, co, sco), max, k) == Real(cd, max, k)
  {
    var ce := Parted(cd, co, sco);
    forall k: nat | InUse(ce, max, k) ensures SubOk(ce, max, full + {sco}, k) {
      assert SubOk(cd, max, full, k);
      if k !in full && k != sco {
        var p :| IsParent(cd, full, p, k);
        assert IsParent(ce, full + {sco}, p, k);
      }
    }
  }

  lemma PromotedGrouped(g: Coloring, co: nat, sco: nat)
    requires Sound(g) && Splits(g, co, sco)
    ensures Grouped(Promoted(g, co, sco)) && Counted(Promoted(g, co, sco))
  {
    hide Counted, Touched, Peopled;
    SplitsFacts(g, co, sco);
    PromotedSubs(g, co, sco);
    var h := Promoted(g, co, sco);
    forall c | 0 <= c < SPELLED ensures h.paint[c] == if c in h.taken then Target(h.cd, h.was[c]) else h.was[c] {
      assert g.was[c] != sco;
    }
    PromotedCounted(g, co, sco);
  }

  lemma PromotedCounted(g: Coloring, co: nat, sco: nat)
    requires Counted(g) && co < |g.cd| && sco < |g.cd| && |g.was| == SPELLED
    ensures Counted(Promoted(g, co, sco))
  {
  }

  /** All is as it should be, except that co may have no characters left. */
  lemma PromotedTouched(g: Coloring, co: nat, sco: nat)
    requires Sound(g) && Splits(g, co, sco) && Grouped(Promoted(g, co, sco))
    ensures Touched(Promoted(g, co, sco), -1)
    ensures var h := Promoted(g, co, sco);
            forall k :: k in h.full && Real(h.cd, h.max, k) && k != WHITE && k != co ==> exists c: nat :: c < NCHRS && h.was[c] == k
  {
    SplitsFacts(g, co, sco);
    var h := Promoted(g, co, sco);
    forall k | k in h.full && k < |h.cd| && h.cd[k].sub != NOSUB ensures SomeTaken(h, k) {
      assert SomeTaken(g, k);
      var c :| c in g.taken && g.was[c] == k;
      assert c in h.taken && h.was[c] == k;
    }
    forall k | k in h.full && Real(h.cd, h.max, k) && k != WHITE && k != co ensures exists c: nat :: c < NCHRS && h.was[c] == k {
      if k == sco {
        var c :| c in g.taken && c < SPELLED && g.was[c] == co;
        assert h.was[c] == sco;
      } else {
        var c: nat :| c < NCHRS && g.was[c] == k;
        assert h.was[c] == k;
      }
    }
  }

  /** A parent that has characters left stays a colour beside its former subcolour. */
  lemma PromotedSound(g: Coloring, co: nat, sco: nat)
    requires Sound(g) && Splits(g, co, sco) && g.cd[co].nchrs != 0
    ensures Sound(Promoted(g, co, sco))
  {
    hide SubsOk, Touched, Counted;
    PromotedSubs(g, co, sco);
    PromotedGrouped(g, co, sco);
    PromotedTouched(g, co, sco);
    var h := Promoted(g, co, sco);
    var c := ColoredSo(g, co, sco);
    assert h.was[c] == co;
  }

  lemma ColoredSo(g: Coloring, co: nat, sco: nat) returns (c: nat)
    requires Sound(g) && Splits(g, co, sco) && g.cd[co].nchrs != 0
    ensures c < NCHRS && g.was[c] == co && c !in g.taken
  {
    SplitsFacts(g, co, sco);
    assert multiset(g.paint[..NCHRS])[co] != 0;
    assert co in g.paint[..NCHRS];
    c :| 0 <= c < NCHRS && g.paint[..NCHRS][c] == co;
    FullWas(g, c);
  }

  /** A parent that has no characters left is freed. */
  lemma PromotedFreed(g: Coloring, co: nat, sco: nat, ce: seq<Desc>, top: nat)
    requires Sound(g) && Splits(g, co, sco) && g.cd[co].nchrs == 0 && co != WHITE
    requires |ce| == |g.cd| && forall k: nat :: InUse(ce, top, k) <==> InUse(g.cd, g.max, k) && k != co
    requires forall k: nat :: InUse(ce, top, k) ==> ce[k] == Parted(g.cd, co, sco)[k]
    ensures var h := Promoted(g, co, sco);
            Sound(h.(cd := ce, max := top, full := h.full - {co}))
  {
    hide SubsOk, Touched, Counted;
    PromotedSubs(g, co, sco);
    PromotedGrouped(g, co, sco);
    PromotedTouched(g, co, sco);
    var h := Promoted(g, co, sco);
    var k := h.(cd := ce, max := top, full := h.full - {co});
    FreedSubs(h.cd, h.max, h.full, co, ce, top);
    FreedCounted(h, co, ce, top);
    forall c | 0 <= c < SPELLED ensures g.paint[c] != co && h.was[c] != co {
      NoColor(g, co, sco, c);
    }
    FullInUse(h.cd, h.max, h.full);
    FreedGrouped(h, co, ce, top);
  }

  lemma FullInUse(cd: seq<Desc>, max: nat, full: set<nat>)
    requires SubsOk(cd, max, full)
    ensures forall k :: k in full ==> InUse(cd, max, k)
  {
  }

  lemma FreedCounted(h: Coloring, co: nat, ce: seq<Desc>, top: nat)
    requires Counted(h) && |ce| == |h.cd| && forall k: nat :: InUse(ce, top, k) <==> InUse(h.cd, h.max, k) && k != co
    requires forall k: nat :: InUse(ce, top, k) ==> ce[k] == h.cd[k]
    ensures Counted(h.(cd := ce, max := top, full := h.full - {co}))
  {
  }

  lemma FreedGrouped(h: Coloring, co: nat, ce: seq<Desc>, top: nat)
    requires Grouped(h) && Touched(h, -1) && |ce| == |h.cd|
    requires forall k: nat :: InUse(ce, top, k) <==> InUse(h.cd, h.max, k) && k != co
    requires forall k: nat :: InUse(ce, top, k) ==> ce[k] == h.cd[k]
    requires forall k :: k in h.full ==> InUse(h.cd, h.max, k)
    requires forall c :: 0 <= c < SPELLED ==> h.was[c] != co
    requires forall k :: k in h.full && Real(h.cd, h.max, k) && k != WHITE && k != co ==> exists c: nat :: c < NCHRS && h.was[c] == k
    ensures var k := h.(cd := ce, max := top, full := h.full - {co});
            Grouped(k) && Touched(k, -1) && Peopled(k)
  {
    var r := h.(cd := ce, max := top, full := h.full - {co});
    assert Grouped(r);
    forall k | k in r.full && k < |r.cd| && r.cd[k].sub != NOSUB ensures SomeTaken(r, k) {
      assert SomeTaken(h, k);
      var c :| c in h.taken && h.was[c] == k;
      assert c in r.taken && r.was[c] == k;
    }
    forall k | k in r.full && Real(r.cd, r.max, k) && k != WHITE ensures exists c: nat :: c < NCHRS && r.was[c] == k {
      var c: nat :| c < NCHRS && h.was[c] == k;
      assert r.was[c] == k;
    }
  }

  lemma FreedSubs(cd: seq<Desc>, max: nat, full: set<nat>, co: nat, ce: seq<Desc>, top: nat)
    requires SubsOk(cd, max, full) && co in full && co != WHITE && co < |cd| && cd[co].sub == NOSUB && |ce| == |cd|
    requires forall k: nat :: InUse(ce, top, k) <==> InUse(cd, max, k) && k != co
    requires forall k: nat :: InUse(ce, top, k) ==> ce[k] == cd[k]
    ensures SubsOk(ce, top, full - {co})
  {
    forall k: nat | InUse(ce, top, k) ensures SubOk(ce, top, full - {co}, k) {
      assert SubOk(cd, max, full, k);
      if k !in full {
        var p :| IsParent(cd, full, p, k);
        assert IsParent(ce, full - {co}, p, k);
      }
    }
  }

  /** No character has the colour of an empty parent, nor had it and was not taken. */
  lemma NoColor(g: Coloring, co: nat, sco: nat, c: nat)
    requires Sound(g) && Splits(g, co, sco) && g.cd[co].nchrs == 0 && co != WHITE && c < SPELLED
    ensures g.paint[c] != co && Promoted(g, co, sco).was[c] != co
  {
    SplitsFacts(g, co, sco);
    if c < NCHRS {
      CountSome(g.paint[..NCHRS], c);
    }
  }

  lemma CountSome(s: seq<nat>, c: nat)
    requires c < |s|
    ensures multiset(s)[s[c]] > 0
  {
    assert s[c] in s;
  }

  // ---------------------------------------------------------------- the arcs of one promotion

  predicate OfColor(a: Arc, co: nat) {
    Tinted(a.ty) && a.co == co
  }

  /** The arcs of colour co, in colour sco instead. */
  function InColor(A: set<Arc>, co: nat, sco: nat): set<Arc> {
    set a | a in A && OfColor(a, co) :: a.(co := sco)
  }

  function NotOfColor(A: set<Arc>, co: nat): set<Arc> {
    set a | a in A && !OfColor(a, co)
  }

  /** The colour chain of co is emptied into that of sco. */
  method RecolorArcs(nfa: Nfa, co: nat, sco: nat)
    requires nfa.Valid() && co != sco
    modifies nfa`arcs
    ensures nfa.Valid() && nfa.arcs == NotOfColor(old(nfa.arcs), co) + InColor(old(nfa.arcs), co, sco)
  {
    ghost var A := nfa.arcs;
    var chain := set a | a in nfa.arcs && OfColor(a, co);
    while chain != {}
      invariant nfa.Valid() && chain <= A && (forall a :: a in chain ==> OfColor(a, co))
      invariant nfa.arcs == NotOfColor(A, co) + chain + InColor(A - chain, co, sco)
      decreases chain
    {
      var a :| a in chain;
      Recolor(A, chain, a, co, sco);
      assert a in nfa.arcs;
      nfa.arcs := nfa.arcs - {a} + {a.(co := sco)};
      chain := chain - {a};
    }
    assert A - chain == A;
  }

  lemma Recolor(A: set<Arc>, chain: set<Arc>, a: Arc, co: nat, sco: nat)
    requires co != sco && chain <= A && a in chain && forall b :: b in chain ==> OfColor(b, co)
    ensures NotOfColor(A, co) + chain + InColor(A - chain, co, sco) - {a} + {a.(co := sco)}
         == NotOfColor(A, co) + (chain - {a}) + InColor(A - (chain - {a}), co, sco)
  {
    assert InColor(A - (chain - {a}), co, sco) == InColor(A - chain, co, sco) + {a.(co := sco)};
    assert a !in NotOfColor(A, co) && a !in InColor(A - chain, co, sco) && a.(co := sco) != a;
  }

  /** Every arc of colour co gets a parallel one of colour sco. */
  method ParallelArcs(nfa: Nfa, co: nat, sco: nat)
    requires nfa.Valid() && co != sco
    modifies nfa`arcs
    ensures nfa.Valid() && nfa.arcs == old(nfa.arcs) + InColor(old(nfa.arcs), co, sco)
  {
    ghost var A := nfa.arcs;
    var chain := set a | a in nfa.arcs && OfColor(a, co);
    while chain != {}
      invariant nfa.Valid() && chain <= A && (forall a :: a in chain ==> OfColor(a, co))
      invariant nfa.arcs == A + InColor(A - chain, co, sco)
      decreases chain
    {
      var a :| a in chain;
      nfa.NewArc(a.ty, sco, a.from, a.to);
      assert InColor(A - (chain - {a}), co, sco) == InColor(A - chain, co, sco) + {a.(co := sco)};
      chain := chain - {a};
    }
    assert A - chain == A;
  }

  /** The arcs after colour co was parted from its subcolour: parallel ones, instead of the old ones if co is empty. */
  ghost function PartedArcs(A: set<Arc>, co: nat, sco: nat, empty: bool): set<Arc> {
    (if empty then NotOfColor(A, co) else A) + InColor(A, co, sco)
  }

  /** The arcs that fit a character of colour x are the same before and after. */
  lemma PartedFits(A: set<Arc>, cd: seq<Desc>, max: nat, co: nat, sco: nat, empty: bool, ce: seq<Desc>, top: nat,
                   x: nat, ty: ArcType, from: nat, to: nat)
    requires ArcsInUse(A, cd, max) && co < |cd| && sco < |cd| && cd[co].sub == sco && cd[sco].sub == sco && co != sco
    requires InUse(cd, max, sco)
    requires |ce| == |cd| && forall k: nat :: InUse(ce, top, k) <==> InUse(cd, max, k) && (empty && co != WHITE ==> k != co)
    requires forall k: nat :: InUse(ce, top, k) ==> ce[k] == Parted(cd, co, sco)[k]
    requires Tinted(ty) && (empty ==> x != co)
    ensures Fits(A, cd, x, ty, from, to) <==> Fits(PartedArcs(A, co, sco, empty), ce, x, ty, from, to)
  {
    var B := PartedArcs(A, co, sco, empty);
    if Fits(A, cd, x, ty, from, to) {
      var k: nat :| Arc(ty, k, from, to) in A && Means(cd, k, x);
      assert InUse(cd, max, k);
      if k == co {
        assert Arc(ty, k, from, to).(co := sco) in InColor(A, co, sco);
        if x == co {
          assert Arc(ty, co, from, to) in B && Means(ce, co, x);
        } else {
          assert Arc(ty, sco, from, to) in B && Means(ce, sco, x);
        }
      } else {
        assert Arc(ty, k, from, to) in B;
        assert Means(ce, k, x);
      }
    }
    if Fits(B, ce, x, ty, from, to) {
      var k: nat :| Arc(ty, k, from, to) in B && Means(ce, k, x);
      if Arc(ty, k, from, to) in A {
        assert InUse(cd, max, k);
        assert Means(cd, k, x);
      } else {
        assert Arc(ty, co, from, to) in A && k == sco;
        assert Means(cd, co, x);
      }
    }
  }

  /** Before and after, the same characters fit the arcs between two states. */
  ghost predicate SameFits(paint: seq<nat>, A: set<Arc>, cd: seq<Desc>, B: set<Arc>, ce: seq<Desc>)
    requires |paint| == SPELLED
  {
    forall c: nat, ty, from, to :: c < NCHRS && Tinted(ty) ==>
      (Fits(A, cd, paint[c], ty, from, to) <==> Fits(B, ce, paint[c], ty, from, to))
  }

  lemma SameFitsTwice(paint: seq<nat>, A: set<Arc>, cd: seq<Desc>, B: set<Arc>, ce: seq<Desc>, C: set<Arc>, cf: seq<Desc>)
    requires |paint| == SPELLED && SameFits(paint, A, cd, B, ce) && SameFits(paint, B, ce, C, cf)
    ensures SameFits(paint, A, cd, C, cf)
  {
    forall c: nat, ty, from, to | c < NCHRS && Tinted(ty)
      ensures Fits(A, cd, paint[c], ty, from, to) <==> Fits(C, cf, paint[c], ty, from, to)
    {
      assert Fits(A, cd, paint[c], ty, from, to) <==> Fits(B, ce, paint[c], ty, from, to);
    }
  }

  ghost function Untinted(A: set<Arc>): set<Arc> {
    set a | a in A && !Tinted(a.ty)
  }

  /** What parting a colour from its subcolour leaves of the arcs. */
  lemma PartedSame(g: Coloring, A: set<Arc>, co: nat, sco: nat, ce: seq<Desc>, top: nat)
    requires Sound(g) && Splits(g, co, sco) && ArcsInUse(A, g.cd, g.max)
    requires var empty := g.cd[co].nchrs == 0;
             && |ce| == |g.cd| && (forall k: nat :: InUse(ce, top, k) <==> InUse(g.cd, g.max, k) && (empty && co != WHITE ==> k != co))
             && (forall k: nat :: InUse(ce, top, k) ==> ce[k] == Parted(g.cd, co, sco)[k])
    ensures var B := PartedArcs(A, co, sco, g.cd[co].nchrs == 0);
            SameFits(g.paint, A, g.cd, B, ce) && ArcsInUse(B, ce, top) && Untinted(B) == Untinted(A)
  {
    hide PartedArcs, ArcsInUse, InUse, Fits, Untinted, Grouped, SubsOk, Touched, Peopled;
    SplitsFacts(g, co, sco);
    var empty := g.cd[co].nchrs == 0;
    var B := PartedArcs(A, co, sco, empty);
    PartedInUse(A, g.cd, g.max, co, sco, empty, ce, top);
    forall c: nat, ty, from, to | c < NCHRS && Tinted(ty)
      ensures Fits(A, g.cd, g.paint[c], ty, from, to) <==> Fits(B, ce, g.paint[c], ty, from, to)
    {
      NotEmpty(g, co, sco, c);
      PartedFits(A, g.cd, g.max, co, sco, empty, ce, top, g.paint[c], ty, from, to);
    }
  }

  lemma PartedInUse(A: set<Arc>, cd: seq<Desc>, max: nat, co: nat, sco: nat, empty: bool, ce: seq<Desc>, top: nat)
    requires ArcsInUse(A, cd, max) && InUse(cd, max, sco) && co != sco
    requires forall k: nat :: InUse(ce, top, k) <==> InUse(cd, max, k) && (empty && co != WHITE ==> k != co)
    ensures var B := PartedArcs(A, co, sco, empty);
            ArcsInUse(B, ce, top) && Untinted(B) == Untinted(A)
  {
  }

  /** A character's colour is not the emptied one. */
  lemma NotEmpty(g: Coloring, co: nat, sco: nat, c: nat)
    requires Counted(g) && c < NCHRS && Real(g.cd, g.max, co)
    ensures g.cd[co].nchrs == 0 ==> g.paint[c] != co
  {
    CountSome(g.paint[..NCHRS], c);
  }

  /** Closes the subcolour of co. */
  method Part(cm: ColorMap, co: nat, sco: nat)
    requires cm.TreeFine() && ChainOk(cm.cd, cm.max, cm.free, cm.chain)
    requires InUse(cm.cd, cm.max, co) && InUse(cm.cd, cm.max, sco)
    modifies cm`cd
    ensures cm.TreeFine() && ChainOk(cm.cd, cm.max, cm.free, cm.chain) && cm.cd == Parted(old(cm.cd), co, sco)
  {
    hide TreeOk, Colored, ChainOk, Solid, BlocksOk;
    SameBlocksFine(cm.tree, cm.cd, cm.max, Parted(cm.cd, co, sco));
    SameBlocksChain(cm.cd, cm.max, cm.free, cm.chain, Parted(cm.cd, co, sco));
    cm.cd := cm.cd[co := cm.cd[co].(sub := NOSUB)];
    cm.cd := cm.cd[sco := cm.cd[sco].(sub := NOSUB)];
  }

  /** Makes the open subcolour of a full colour a full colour. */
  method Promote(cm: ColorMap, nfa: Nfa, co: nat)
    requires cm.Valid() && nfa.Valid() && ArcsInUse(nfa.arcs, cm.cd, cm.max)
    requires co in cm.full && InUse(cm.cd, cm.max, co) && cm.cd[co].sub >= 0
    modifies cm, nfa`arcs
    ensures cm.Valid() && nfa.Valid() && ArcsInUse(nfa.arcs, cm.cd, cm.max) && cm.Paint() == old(cm.Paint())
    ensures SameFits(cm.Paint(), old(nfa.arcs), old(cm.cd), nfa.arcs, cm.cd) && Untinted(nfa.arcs) == Untinted(old(nfa.arcs))
    ensures forall k: nat :: InUse(cm.cd, cm.max, k) ==> old(InUse(cm.cd, cm.max, k))
    ensures forall k: nat :: InUse(cm.cd, cm.max, k) ==> cm.cd[k].sub == NOSUB || (k != co && cm.cd[k].sub == old(cm.cd[k].sub))
    ensures co in cm.full ==> cm.cd[co].sub == NOSUB
    ensures |cm.cd| == old(|cm.cd|) && cm.max <= old(cm.max)
    ensures forall k :: k in cm.full ==> k in old(cm.full) || (k < |cm.cd| && cm.cd[k].sub == NOSUB)
    ensures forall k: nat :: old(cm.max) < k < |cm.cd| ==> cm.cd[k].freed == old(cm.cd[k].freed)
    ensures forall k: nat :: cm.max < k <= old(cm.max) ==> cm.cd[k].freed
  {
    hide TreeOk, Colored, ChainOk, Solid, BlocksOk, Sound, Painting, SameFits, Fits, ArcsInUse;
    ColoredClosed(cm.tree, cm.cd, cm.max);
    ghost var g, A := cm.State(), nfa.arcs;
    var sco := cm.cd[co].sub;
    SplitsAt(g, co);
    SplitsFacts(g, co, sco);
    Part(cm, co, sco);
    if cm.cd[co].nchrs == 0 {
      RecolorArcs(nfa, co, sco);
      PromoteFree(cm, g, co, sco);
    } else {
      ParallelArcs(nfa, co, sco);
      PromotedSound(g, co, sco);
      SetPromoted(cm, g, co, sco);
    }
    PartedSame(g, A, co, sco, cm.cd, cm.max);
  }

  method SetPromoted(cm: ColorMap, ghost g: Coloring, co: nat, sco: nat)
    requires co < |g.cd| && sco < |g.cd| && |g.was| == SPELLED
    requires Closed(cm.tree) && cm.State() == g.(cd := cm.cd, max := cm.max)
    modifies cm`full, cm`was, cm`taken
    ensures cm.State() == Promoted(g, co, sco).(cd := cm.cd, max := cm.max)
    ensures co in g.full ==> cm.full == g.full + {sco}
  {
    hide Painting;
    ghost var h := Promoted(g, co, sco);
    cm.full, cm.was, cm.taken := h.full, h.was, h.taken;
  }

  /** Frees a colour that has lost all its characters to its subcolour. */
  method PromoteFree(cm: ColorMap, ghost g: Coloring, co: nat, sco: nat)
    requires cm.TreeFine() && ChainOk(cm.cd, cm.max, cm.free, cm.chain)
    requires Sound(g) && Splits(g, co, sco) && g.cd[co].nchrs == 0
    requires cm.cd == Parted(g.cd, co, sco) && cm.State() == g.(cd := cm.cd)
    modifies cm
    ensures cm.Valid() && cm.Paint() == old(cm.Paint()) && |cm.cd| == |g.cd|
    ensures forall k: nat :: InUse(cm.cd, cm.max, k) <==> InUse(g.cd, g.max, k) && (co != WHITE ==> k != co)
    ensures forall k: nat :: InUse(cm.cd, cm.max, k) ==> cm.cd[k] == Parted(g.cd, co, sco)[k]
    ensures co in cm.full ==> co == WHITE
    ensures cm.max <= old(cm.max) && forall k: nat :: cm.max < k <= old(cm.max) ==> cm.cd[k].freed
    ensures forall k: nat :: old(cm.max) < k < |cm.cd| ==> cm.cd[k].freed == g.cd[k].freed
    ensures cm.full <= g.full + {sco}
  {
    hide TreeOk, Colored, ChainOk, Solid, BlocksOk, Sound, Painting;
    ColoredClosed(cm.tree, cm.cd, cm.max);
    SplitsFacts(g, co, sco);
    if co == WHITE {
      PromotedWhite(g, sco);
      SetPromoted(cm, g, co, sco);
      cm.FreeColor(co);
    } else {
      forall c: nat | c < SPELLED ensures g.paint[c] != co {
        NoColor(g, co, sco, c);
      }
      cm.FreeColor(co);
      ColoredClosed(cm.tree, cm.cd, cm.max);
      PromotedFreed(g, co, sco, cm.cd, cm.max);
      SetPromoted(cm, g, co, sco);
      cm.full := cm.full - {co};
    }
    ColoredClosed(cm.tree, cm.cd, cm.max);
  }

  lemma PromotedWhite(g: Coloring, sco: nat)
    requires Sound(g) && Splits(g, WHITE, sco)
    ensures Sound(Promoted(g, WHITE, sco))
  {
    hide SubsOk, Touched, Counted;
    PromotedSubs(g, WHITE, sco);
    PromotedGrouped(g, WHITE, sco);
    PromotedTouched(g, WHITE, sco);
  }

  // ---------------------------------------------------------------- all promotions

  /** No subcolour is open. */
  ghost predicate Settled(cm: ColorMap)
    reads cm
  {
    && cm.Valid() && cm.taken == {} && cm.was == cm.Paint()
    && forall k: nat :: InUse(cm.cd, cm.max, k) ==> k in cm.full && cm.cd[k].sub == NOSUB
  }

  lemma OpenHasParent(g: Coloring, k: nat)
    requires Sound(g) && InUse(g.cd, g.max, k) && k !in g.full
    ensures exists p: nat :: InUse(g.cd, g.max, p) && p in g.full && g.cd[p].sub == k
  {
    assert SubOk(g.cd, g.max, g.full, k);
    var p: nat :| IsParent(g.cd, g.full, p, k);
    assert InUse(g.cd, g.max, p) && p in g.full && g.cd[p].sub == k;
  }

  /** When no full colour has a subcolour, all colours are full and every character has the colour it had. */
  lemma Settles(g: Coloring)
    requires Sound(g) && forall k: nat :: InUse(g.cd, g.max, k) && k in g.full ==> g.cd[k].sub == NOSUB
    ensures Sound(g.(taken := {})) && g.was == g.paint
    ensures forall k: nat :: InUse(g.cd, g.max, k) ==> k in g.full
  {
    forall k: nat | InUse(g.cd, g.max, k) ensures k in g.full {
      if k !in g.full {
        OpenHasParent(g, k);
      }
    }
    var h := g.(taken := {});
    assert Grouped(h);
    forall k | k in h.full && Real(h.cd, h.max, k) && k != WHITE ensures exists c: nat :: c < NCHRS && h.was[c] == k {
      var c: nat :| c < NCHRS && g.was[c] == k;
      assert h.was[c] == k;
    }
  }

  /** Promotes all open subcolours, so that from now on arcs stand for the characters of their own colour only. */
  method OkColors(cm: ColorMap, nfa: Nfa)
    requires cm.Valid() && nfa.Valid() && ArcsInUse(nfa.arcs, cm.cd, cm.max)
    modifies cm, nfa`arcs
    ensures Settled(cm) && nfa.Valid() && ArcsInUse(nfa.arcs, cm.cd, cm.max) && cm.Paint() == old(cm.Paint())
    ensures SameFits(cm.Paint(), old(nfa.arcs), old(cm.cd), nfa.arcs, cm.cd) && Untinted(nfa.arcs) == Untinted(old(nfa.arcs))
  {
    hide TreeOk, ChainOk, Solid, BlocksOk, Sound, Painting, SameFits, Fits, ArcsInUse, Nfa.Valid, Untinted;
    ghost var paint := Now(cm).paint;
    var end := cm.max + 1;
    var co: nat := 0;
    SameFitsNow(paint, nfa.arcs, cm.cd);
    InTable(cm);
    while co < end
      invariant cm.Valid() && nfa.Valid() && ArcsInUse(nfa.arcs, cm.cd, cm.max) && cm.Paint() == paint
      invariant SameFits(paint, old(nfa.arcs), old(cm.cd), nfa.arcs, cm.cd) && Untinted(nfa.arcs) == Untinted(old(nfa.arcs))
      invariant cm.max < end <= |cm.cd| && forall k: nat :: cm.max < k < end ==> cm.cd[k].freed
      invariant forall k: nat :: k < co && InUse(cm.cd, cm.max, k) && k in cm.full ==> cm.cd[k].sub == NOSUB
    {
      var sco := cm.cd[co].sub;
      if cm.cd[co].freed || sco == NOSUB {
      } else if sco == co {
        OwnSub(cm, co);
      } else {
        OwnSub(cm, co);
        ghost var A, cd := nfa.arcs, cm.cd;
        Promote(cm, nfa, co);
        SameFitsTwice(paint, old(nfa.arcs), old(cm.cd), A, cd, nfa.arcs, cm.cd);
      }
      co := co + 1;
    }
    Settles(cm.State());
    cm.taken := {};
  }

  lemma SameFitsNow(paint: seq<nat>, A: set<Arc>, cd: seq<Desc>)
    requires |paint| == SPELLED
    ensures SameFits(paint, A, cd, A, cd)
  {
  }

  lemma InTable(cm: ColorMap)
    requires cm.Valid()
    ensures cm.max < |cm.cd|
  {
  }

  /** A colour is its own open subcolour exactly if it is not full. */
  lemma OwnSub(cm: ColorMap, co: nat)
    requires cm.Valid() && InUse(cm.cd, cm.max, co) && cm.cd[co].sub != NOSUB
    ensures cm.cd[co].sub == co <==> co !in cm.full
    ensures cm.cd[co].sub >= 0
  {
    assert SubOk(cm.cd, cm.max, cm.full, co);
  }
}
