/** Taking whole ranges of characters, a tree block at a time, with an arc for every colour they end up with. */
module ColorRanges {
  import opened ColorTree
  import opened ColorTable
  import opened ColorPartition
  import opened ColorMap
  import opened NfaGraph

  /** The arcs from lp to rp for the colours that the characters X have. */
  ghost function PaintArcs(paint: seq<nat>, X: set<nat>, lp: nat, rp: nat): set<Arc>
    requires forall c :: c in X ==> c < |paint|
  {
    set c | c in X :: Arc(PLAIN, paint[c], lp, rp)
  }

  ghost predicate AllColor(paint: seq<nat>, a: nat, b: nat, co: int) {
    b <= |paint| && forall c :: a <= c < b ==> paint[c] == co
  }

  /** There are no more colours. */
  ghost predicate Spent(cm: ColorMap)
    reads cm
  {
    cm.free == 0 && cm.max == MAX_COLOR
  }

  /** More characters, the first ones unchanged. */
  lemma MoreArcs(paint: seq<nat>, quilt: seq<nat>, X: set<nat>, Y: set<nat>, lp: nat, rp: nat)
    requires |paint| == |quilt| && forall c :: c in X ==> c < |paint| && quilt[c] == paint[c]
    requires forall c :: c in Y ==> c < |paint|
    ensures PaintArcs(quilt, X + Y, lp, rp) == PaintArcs(paint, X, lp, rp) + PaintArcs(quilt, Y, lp, rp)
  {
    forall c | c in X ensures Arc(PLAIN, quilt[c], lp, rp) in PaintArcs(quilt, X + Y, lp, rp) {
      assert c in X + Y;
    }
    forall c | c in Y ensures Arc(PLAIN, quilt[c], lp, rp) in PaintArcs(quilt, X + Y, lp, rp) {
      assert c in X + Y;
    }
  }

  lemma OneArc(paint: seq<nat>, X: set<nat>, c: nat, co: nat, lp: nat, rp: nat)
    requires c in X && forall d :: d in X ==> d < |paint| && paint[d] == co
    ensures PaintArcs(paint, X, lp, rp) == {Arc(PLAIN, co, lp, rp)}
  {
    assert Arc(PLAIN, paint[c], lp, rp) in PaintArcs(paint, X, lp, rp);
  }

  /** The colours of a block of characters are the entries of the colour block. */
  lemma BlockColors(t: Tree, start: nat, k: nat)
    requires Closed(t) && start % BYTTAB == 0 && k == Reach(t, NBYTS - 1, Shifted(start, 1))
    ensures Exists(t, NBYTS - 1, k)
    ensures forall i: nat :: i < BYTTAB && start + i < SPELLED ==> Painting(t)[start + i] == t.colors[k][i]
  {
    forall i: nat | i < BYTTAB && start + i < SPELLED ensures Painting(t)[start + i] == t.colors[k][i] {
      assert (start + i) / BYTTAB == start / BYTTAB && (start + i) % BYTTAB == i;
    }
  }

  lemma BlockTable(t: Tree, cd: seq<Desc>, max: nat, free: int, chain: seq<nat>, sco: nat, k: nat)
    requires Colored(t, cd, max) && BlocksOk(cd) && ChainOk(cd, max, free, chain) && Real(cd, max, sco)
    requires cd[sco].block == NOBLOCK
    ensures var ce := cd[sco := cd[sco].(block := k)];
            && sco !in Solid(cd, max) && Solid(ce, max) == Solid(cd, max)[sco := k]
            && Colored(t, ce, max) && BlocksOk(ce) && ChainOk(ce, max, free, chain)
  {
    var ce := cd[sco := cd[sco].(block := k)];
    assert forall co: nat :: InUse(ce, max, co) == InUse(cd, max, co);
    LinkedKept(cd, ce, free, chain);
  }

  /** Gives a colour a solid block. */
  method MakeSolid(cm: ColorMap, sco: nat, co: nat)
    requires cm.Pending(co) && Real(cm.cd, cm.max, sco) && cm.cd[sco].block == NOBLOCK
    modifies cm`tree, cm`made, cm`cd
    ensures cm.Pending(co) && cm.Paint() == old(cm.Paint())
    ensures |cm.cd| == old(|cm.cd|) && cm.cd[sco].block >= 0 && Real(cm.cd, cm.max, sco)
    ensures forall k: nat :: k < |cm.cd| ==> cm.cd[k] == old(cm.cd[k]).(block := cm.cd[k].block)
    ensures forall level: nat, p :: level < NBYTS ==> Reach(cm.tree, level, p) == old(Reach(cm.tree, level, p))
  {
    hide TreeOk, Colored, ChainOk, Solid, BlocksOk, Painting, Counted, Grouped, Touched, Peopled, SubsOk;
    ColoredClosed(cm.tree, cm.cd, cm.max);
    BlockTable(cm.tree, cm.cd, cm.max, cm.free, cm.chain, sco, cm.made);
    AddedSolid(cm.tree, cm.made, Solid(cm.cd, cm.max), cm.home, sco);
    BlockChanged(cm.State(), co, sco, cm.made);
    ghost var r, ce := WithSolid(cm.tree, cm.made, sco), cm.cd[sco := cm.cd[sco].(block := cm.made)];
    OkClosed(r, cm.made + 1, Solid(ce, cm.max), cm.home);
    ColoredKept(cm.tree, r, ce, cm.max);
    cm.tree := WithSolid(cm.tree, cm.made, sco);
    cm.cd := cm.cd[sco := cm.cd[sco].(block := cm.made)];
    cm.made := cm.made + 1;
  }

  /** A block of characters that leads to a shared block has one colour. */
  lemma OneColor(t: Tree, cd: seq<Desc>, max: nat, home: Homes, start: nat, no: nat)
    requires WellMade(t, Solid(cd, max), home) && Colored(t, cd, max) && BlocksOk(cd)
    requires start % BYTTAB == 0 && start + BYTTAB <= SPELLED
    requires no == Reach(t, NBYTS - 2, Shifted(start, 2)) && no != 0
    requires t.ptrs[Name(NBYTS - 2, no)][Shifted(start, 1) % BYTTAB] in Solid(cd, max).Values
    ensures var k := t.ptrs[Name(NBYTS - 2, no)][Shifted(start, 1) % BYTTAB];
            k in t.colors && |t.colors[k]| == BYTTAB &&
            AllColor(Painting(t), start, start + BYTTAB, t.colors[k][0])
  {
    hide WellMade, Reach, Painting, Colored, SolidsSolid;
    var b := Shifted(start, 1) % BYTTAB;
    PartsOf(t, Solid(cd, max), home);
    Down(t, start, NBYTS - 2);
    SharedTest(t, cd, max, home, Name(NBYTS - 2, no), b);
    var k := t.ptrs[Name(NBYTS - 2, no)][b];
    BlockColors(t, start, k);
    ItsSolid(t, Solid(cd, max), t.colors[k][0]);
    SolidRun(Painting(t), start, t.colors[k]);
  }

  lemma SolidRun(paint: seq<nat>, start: nat, block: seq<nat>)
    requires |block| == BYTTAB && start + BYTTAB <= |paint|
    requires forall i: nat :: i < BYTTAB && start + i < SPELLED ==> paint[start + i] == block[i]
    requires start + BYTTAB <= SPELLED && forall i :: 0 <= i < BYTTAB ==> block[i] == block[0]
    ensures AllColor(paint, start, start + BYTTAB, block[0])
  {
    forall c | start <= c < start + BYTTAB ensures paint[c] == block[0] {
      var i: nat := c - start;
      assert paint[start + i] == block[i];
    }
  }

  lemma ItsSolid(t: Tree, solid: Blocks, co: nat)
    requires SolidsSolid(t, solid) && co in solid
    ensures IsSolid(t, solid[co], co)
  {
  }

  /** Takes a block of characters that leads to a fill block or a solid block: the block becomes the subcolour's solid block. */
  method SolidBlock(cm: ColorMap, start: nat, no: nat) returns (sco: int)
    requires cm.Valid() && start % BYTTAB == 0 && start + BYTTAB <= NCHRS && cm.OnWay(start, NBYTS - 2, no)
    requires cm.tree.ptrs[Name(NBYTS - 2, no)][Shifted(start, 1) % BYTTAB] in Solid(cm.cd, cm.max).Values
    modifies cm
    ensures cm.Valid() && Keeps(old(cm.State()), cm.State())
    ensures sco == COLORLESS ==> Spent(cm)
    ensures sco != COLORLESS ==> sco >= 0 && cm.taken == old(cm.taken) + Run(start, start + BYTTAB)
    ensures sco != COLORLESS ==> AllColor(cm.Paint(), start, start + BYTTAB, sco)
  {
    hide TreeOk, WellMade, Colored, ChainOk, Solid, Painting, Counted, Grouped, Touched, Peopled, SubsOk, Sound, Took, Recolored, AllColor;
    ColoredClosed(cm.tree, cm.cd, cm.max);
    OkMade(cm.tree, cm.made, Solid(cm.cd, cm.max), cm.home);
    OneColor(cm.tree, cm.cd, cm.max, cm.home, start, no);
    var t := cm.tree.ptrs[Name(NBYTS - 2, no)][Shifted(start, 1) % BYTTAB];
    var co := cm.tree.colors[t][0];
    FirstColor(cm.Paint(), start, start + BYTTAB, co);
    sco := cm.NewSub(co, start);
    if sco == COLORLESS {
      return;
    }
    if cm.cd[sco].block == NOBLOCK {
      MakeSolid(cm, sco, co);
    }
    ColoredClosed(cm.tree, cm.cd, cm.max);
    PutSolid(cm, start, no, co, sco);
  }

  lemma OkMade(t: Tree, made: nat, solid: Blocks, home: Homes)
    requires TreeOk(t, made, solid, home)
    ensures WellMade(t, solid, home) && Closed(t)
  {
  }

  lemma FirstColor(paint: seq<nat>, a: nat, b: nat, co: int)
    requires AllColor(paint, a, b, co) && a < b
    ensures paint[a] == co
  {
  }

  /** Leads a block of characters of colour co to the solid block of the subcolour sco. */
  method PutSolid(cm: ColorMap, start: nat, no: nat, co: nat, sco: nat)
    requires cm.Pending(co) && start % BYTTAB == 0 && start + BYTTAB <= NCHRS && cm.OnWay(start, NBYTS - 2, no)
    requires AllColor(cm.Paint(), start, start + BYTTAB, co)
    requires Chosen(cm.cd, co, sco) && Real(cm.cd, cm.max, sco) && cm.cd[sco].block >= 0
    modifies cm`tree, cm`home, cm`cd, cm`taken
    ensures cm.Valid() && Keeps(old(cm.State()), cm.State())
    ensures cm.taken == old(cm.taken) + Run(start, start + BYTTAB)
    ensures AllColor(cm.Paint(), start, start + BYTTAB, sco)
  {
    hide TreeOk, Colored, ChainOk, BlocksOk, Painting, Counted, Grouped, Touched, Peopled, SubsOk, Sound, Moved, Recolored, Reach;
    ColoredClosed(cm.tree, cm.cd, cm.max);
    ghost var g := cm.State();
    TookSound(g, start, start + BYTTAB, co, sco);
    PlaceSolid(cm, start, no, sco);
    cm.Recount(co, sco, BYTTAB);
    cm.taken := cm.taken + Run(start, start + BYTTAB);
    ColoredClosed(cm.tree, cm.cd, cm.max);
    assert cm.State() == Took(g, start, start + BYTTAB, co, sco);
  }

  method PlaceSolid(cm: ColorMap, start: nat, no: nat, sco: nat)
    requires cm.TreeFine() && start % BYTTAB == 0 && start + BYTTAB <= NCHRS && cm.OnWay(start, NBYTS - 2, no)
    requires Real(cm.cd, cm.max, sco) && cm.cd[sco].block >= 0
    modifies cm`tree, cm`home
    ensures cm.TreeFine() && cm.Paint() == Recolored(old(cm.Paint()), start, start + BYTTAB, sco)
  {
    hide TreeOk, Colored, BlocksOk, Painting, Recolored;
    ColoredClosed(cm.tree, cm.cd, cm.max);
    ghost var solid := Solid(cm.cd, cm.max);
    var n, b := Name(NBYTS - 2, no), Shifted(start, 1) % BYTTAB;
    OneShift(start);
    SolidSlot(cm.tree, cm.made, solid, cm.home, start, sco, n);
    ghost var r, homes := SetSlot(cm.tree, n, b, cm.cd[sco].block), cm.home[Name(NBYTS - 1, solid[sco]) := (no, b)];
    OkClosed(r, cm.made, solid, homes);
    RunPainted(cm.tree, r, cm.cd, cm.max, start, start + BYTTAB, sco);
    cm.tree, cm.home := SetSlot(cm.tree, n, b, cm.cd[sco].block), homes;
  }

  lemma RunPainted(t: Tree, r: Tree, cd: seq<Desc>, max: nat, a: nat, b: nat, sco: nat)
    requires Closed(t) && Closed(r) && Colored(t, cd, max) && Real(cd, max, sco) && a <= b <= SPELLED
    requires forall d: nat :: d < SPELLED ==> Painting(r)[d] == if a <= d < b then sco else Painting(t)[d]
    ensures Painting(r) == Recolored(Painting(t), a, b, sco) && Colored(r, cd, max)
  {
  }

  /** All the characters of a block go the same way. */
  lemma SameWay(cm: ColorMap, start: nat, i: nat, t: nat)
    requires Closed(cm.tree) && start % BYTTAB == 0 && i < BYTTAB
    ensures cm.OnWay(start, NBYTS - 1, t) <==> cm.OnWay(start + i, NBYTS - 1, t)
  {
    OneShift(start);
    OneShift(start + i);
  }

  /** One more character of a run. */
  lemma LongerRun(paint: seq<nat>, a: nat, b: nat, co: int, sco: nat)
    requires a <= b < |paint| && AllColor(paint, a, b, co)
    ensures Put(Recolored(paint, a, b, sco), b, sco) == Recolored(paint, a, b + 1, sco)
    ensures paint[b] == co ==> AllColor(paint, a, b + 1, co)
    ensures Recolored(paint, a, b, sco)[b] == paint[b]
  {
  }

  /** Writes one entry of a mixed block. */
  method PaintEntry(cm: ColorMap, start: nat, t: nat, i: nat, sco: nat)
    requires cm.TreeFine() && start % BYTTAB == 0 && start + BYTTAB <= NCHRS && cm.OnWay(start, NBYTS - 1, t)
    requires i < BYTTAB && Real(cm.cd, cm.max, sco)
    modifies cm`tree
    ensures cm.TreeFine() && cm.OnWay(start, NBYTS - 1, t)
    ensures cm.Paint() == Put(old(cm.Paint()), start + i, sco)
  {
    hide TreeOk, Painting, Real, InUse;
    SameWay(cm, start, i, t);
    var prev := cm.PaintOne(start + i, t, sco);
    SameWay(cm, start, i, t);
  }

  /** Reads one entry of a mixed block: a character's colour. */
  lemma EntryColor(cm: ColorMap, start: nat, t: nat, i: nat)
    requires cm.TreeFine() && start % BYTTAB == 0 && start + BYTTAB <= NCHRS && cm.OnWay(start, NBYTS - 1, t)
    requires i < BYTTAB
    ensures t in cm.tree.colors && |cm.tree.colors[t]| == BYTTAB && cm.tree.colors[t][i] == cm.Paint()[start + i]
  {
    BlockColors(cm.tree, start, t);
  }

  /** Recolours the run of characters of colour co that starts at entry i of a mixed block. */
  method PaintRun(cm: ColorMap, start: nat, t: nat, i: nat, co: nat, sco: nat) returns (j: nat)
    requires cm.TreeFine() && start % BYTTAB == 0 && start + BYTTAB <= NCHRS && cm.OnWay(start, NBYTS - 1, t)
    requires i < BYTTAB && Real(cm.cd, cm.max, sco) && cm.Paint()[start + i] == co
    modifies cm`tree
    ensures cm.TreeFine() && cm.OnWay(start, NBYTS - 1, t)
    ensures i < j <= BYTTAB && AllColor(old(cm.Paint()), start + i, start + j, co)
    ensures cm.Paint() == Recolored(old(cm.Paint()), start + i, start + j, sco)
  {
    hide TreeOk, Painting, Real, InUse, Reach, AllColor, Recolored, ColorMap.OnWay, BlocksOk;
    ghost var was := Colors(cm);
    PaintEntry(cm, start, t, i, sco);
    j := i + 1;
    EmptyRun(was, start + i, co, sco);
    LongerRun(was, start + i, start + i, co, sco);
    while true
      invariant i < j <= BYTTAB && cm.TreeFine() && cm.OnWay(start, NBYTS - 1, t)
      invariant AllColor(was, start + i, start + j, co) && cm.Paint() == Recolored(was, start + i, start + j, sco)
      decreases BYTTAB - j
    {
      if j == BYTTAB {
        break;
      }
      EntryColor(cm, start, t, j);
      if cm.tree.colors[t][j] != co {
        break;
      }
      PaintEntry(cm, start, t, j, sco);
      LongerRun(was, start + i, start + j, co, sco);
      j := j + 1;
    }
  }

  lemma EmptyRun(paint: seq<nat>, a: nat, co: int, sco: nat)
    requires a <= |paint|
    ensures Recolored(paint, a, a, sco) == paint && AllColor(paint, a, a, co)
  {
  }

  ghost function Colors(cm: ColorMap): (paint: seq<nat>)
    requires cm.TreeFine()
    reads cm
    ensures Closed(cm.tree) && paint == cm.Paint() && |paint| == SPELLED
  {
    cm.Paint()
  }

  lemma TookShows(g: Coloring, a: nat, b: nat, co: nat, sco: nat)
    requires a <= b <= |g.paint| && co < |g.cd| && sco < |g.cd| && g.cd[co].nchrs >= b - a
    requires forall c :: c in g.taken && c < |g.paint| ==> Took(g, a, b, co, sco).paint[c] == g.paint[c]
    ensures var h := Took(g, a, b, co, sco);
            Keeps(g, h) && h.taken == g.taken + Run(a, b) && AllColor(h.paint, a, b, sco)
  {
    hide Moved;
  }

  /** Moves the counts of a run that has been painted, and notes that it is taken. */
  method CountRun(cm: ColorMap, a: nat, b: nat, co: nat, sco: nat, ghost g: Coloring)
    requires cm.TreeFine() && ChainOk(cm.cd, cm.max, cm.free, cm.chain) && a <= b <= |g.paint|
    requires co < |g.cd| && sco < |g.cd| && g.cd[co].nchrs >= b - a && Sound(Took(g, a, b, co, sco))
    requires forall c :: c in g.taken && c < |g.paint| ==> Took(g, a, b, co, sco).paint[c] == g.paint[c]
    requires Closed(cm.tree) && cm.State() == g.(paint := Recolored(g.paint, a, b, sco))
    modifies cm`cd, cm`taken
    ensures cm.Valid() && Closed(cm.tree) && Keeps(g, cm.State())
    ensures cm.taken == g.taken + Run(a, b) && AllColor(cm.Paint(), a, b, sco)
    ensures Solid(cm.cd, cm.max) == old(Solid(cm.cd, cm.max))
  {
    hide TreeOk, Colored, ChainOk, BlocksOk, Painting, Recolored, Sound, Moved, Solid, Closed, AllColor, Keeps;
    cm.Recount(co, sco, b - a);
    cm.taken := cm.taken + Run(a, b);
    TookShows(g, a, b, co, sco);
  }

  /** Takes one run of equally coloured characters in a mixed block. */
  method TakeRun(cm: ColorMap, start: nat, t: nat, i: nat) returns (j: nat, sco: int)
    requires cm.Valid() && start % BYTTAB == 0 && start + BYTTAB <= NCHRS && cm.OnWay(start, NBYTS - 1, t) && i < BYTTAB
    modifies cm
    ensures cm.Valid() && Keeps(old(cm.State()), cm.State())
    ensures sco == COLORLESS ==> Spent(cm)
    ensures sco != COLORLESS ==> sco >= 0 && i < j <= BYTTAB && cm.OnWay(start, NBYTS - 1, t)
    ensures sco != COLORLESS ==> cm.taken == old(cm.taken) + Run(start + i, start + j)
    ensures sco != COLORLESS ==> AllColor(cm.Paint(), start + i, start + j, sco)
  {
    hide TreeOk, Colored, ChainOk, BlocksOk, Painting, Counted, Grouped, Touched, Peopled, SubsOk, Sound, Moved, Reach, Solid, Took, Recolored;
    ColoredClosed(cm.tree, cm.cd, cm.max);
    EntryColor(cm, start, t, i);
    var co := cm.tree.colors[t][i];
    j := i;
    sco := cm.NewSub(co, start + i);
    if sco == COLORLESS {
      return;
    }
    ghost var g := cm.State();
    j := PaintRun(cm, start, t, i, co, sco);
    TookSound(g, start + i, start + j, co, sco);
    CountRun(cm, start + i, start + j, co, sco, g);
  }

  // ---------------------------------------------------------------- blocks and ranges

  /**
   * The characters X have been taken since g, and arcs from lp to rp added for
   * all the colours they have.
   */
  ghost predicate Drawn(g: Coloring, A: set<Arc>, X: set<nat>, lp: nat, rp: nat, h: Coloring, B: set<Arc>) {
    && Keeps(g, h) && h.taken == g.taken + X && (forall c :: c in X ==> c < |h.paint|)
    && B == A + PaintArcs(h.paint, X, lp, rp)
  }

  lemma DrawnNone(g: Coloring, A: set<Arc>, lp: nat, rp: nat)
    ensures Drawn(g, A, {}, lp, rp, g, A)
  {
  }

  /** Taking X and then Y is taking both. */
  lemma DrawnBoth(g: Coloring, A: set<Arc>, X: set<nat>, h: Coloring, B: set<Arc>, Y: set<nat>, k: Coloring, C: set<Arc>, lp: nat, rp: nat)
    requires Drawn(g, A, X, lp, rp, h, B) && Drawn(h, B, Y, lp, rp, k, C)
    ensures Drawn(g, A, X + Y, lp, rp, k, C)
  {
    MoreArcs(h.paint, k.paint, X, Y, lp, rp);
  }

  /** Taking a run of characters that end up with one colour takes one arc. */
  lemma DrawnRun(g: Coloring, A: set<Arc>, a: nat, b: nat, co: nat, h: Coloring, lp: nat, rp: nat)
    requires Keeps(g, h) && a < b && AllColor(h.paint, a, b, co) && h.taken == g.taken + Run(a, b)
    ensures Drawn(g, A, Run(a, b), lp, rp, h, A + {Arc(PLAIN, co, lp, rp)})
  {
    OneArc(h.paint, Run(a, b), a, co, lp, rp);
  }

  lemma RunOn(a: nat, b: nat, c: nat)
    requires a <= b <= c
    ensures Run(a, b) + Run(b, c) == Run(a, c)
  {
  }

  lemma RunNone(a: nat)
    ensures Run(a, a) == {}
  {
  }

  /** Since g, the characters from a up to b have been taken and their arcs added. */
  ghost predicate Since(cm: ColorMap, nfa: Nfa, g: Coloring, A: set<Arc>, a: nat, b: nat, lp: nat, rp: nat)
    reads cm, nfa
  {
    && cm.Valid() && nfa.Valid() && lp in nfa.states && rp in nfa.states
    && Drawn(g, A, Run(a, b), lp, rp, cm.State(), nfa.arcs)
  }

  lemma SinceStart(cm: ColorMap, nfa: Nfa, a: nat, lp: nat, rp: nat)
    requires cm.Valid() && nfa.Valid() && lp in nfa.states && rp in nfa.states
    ensures Since(cm, nfa, cm.State(), nfa.arcs, a, a, lp, rp)
  {
    hide TreeOk, ChainOk, BlocksOk, Painting, Sound, Solid, Nfa.Valid;
    RunNone(a);
    DrawnNone(cm.State(), nfa.arcs, lp, rp);
  }

  lemma SinceEnd(cm: ColorMap, nfa: Nfa, g: Coloring, A: set<Arc>, a: nat, b: nat, lp: nat, rp: nat)
    requires Since(cm, nfa, g, A, a, b, lp, rp)
    ensures cm.Valid() && nfa.Valid() && lp in nfa.states && rp in nfa.states
    ensures Drawn(g, A, Run(a, b), lp, rp, cm.State(), nfa.arcs)
  {
  }

  /** What was drawn since a state that itself came after g. */
  lemma SinceNext(cm: ColorMap, nfa: Nfa, g: Coloring, A: set<Arc>, a: nat, b: nat, h: Coloring, B: set<Arc>, c: nat, lp: nat, rp: nat)
    requires a <= b <= c && Drawn(g, A, Run(a, b), lp, rp, h, B)
    requires cm.Valid() && nfa.Valid() && lp in nfa.states && rp in nfa.states
    requires Drawn(h, B, Run(b, c), lp, rp, cm.State(), nfa.arcs)
    ensures Since(cm, nfa, g, A, a, c, lp, rp)
  {
    hide TreeOk, ChainOk, BlocksOk, Painting, Sound, Solid, Nfa.Valid, Drawn;
    DrawnBoth(g, A, Run(a, b), h, B, Run(b, c), cm.State(), nfa.arcs, lp, rp);
    RunOn(a, b, c);
  }

  /** Takes the next run of a mixed block. */
  method NextRun(cm: ColorMap, nfa: Nfa, start: nat, t: nat, i: nat, lp: nat, rp: nat, ghost g: Coloring, ghost A: set<Arc>)
    returns (j: nat, ok: bool)
    requires Since(cm, nfa, g, A, start, start + i, lp, rp)
    requires start % BYTTAB == 0 && start + BYTTAB <= NCHRS && cm.OnWay(start, NBYTS - 1, t) && i < BYTTAB
    modifies cm, nfa`arcs
    ensures cm.Valid() && nfa.Valid()
    ensures !ok ==> Spent(cm)
    ensures ok ==> i < j <= BYTTAB && Since(cm, nfa, g, A, start, start + j, lp, rp) && cm.OnWay(start, NBYTS - 1, t)
  {
    hide TreeOk, ChainOk, BlocksOk, Painting, Sound, Reach, Drawn, Solid, Nfa.Valid, Since, Keeps;
    SinceEnd(cm, nfa, g, A, start, start + i, lp, rp);
    ghost var h, B := cm.State(), nfa.arcs;
    var sco;
    j, sco := TakeRun(cm, start, t, i);
    if sco == COLORLESS {
      return j, false;
    }
    nfa.NewArc(PLAIN, sco, lp, rp);
    DrawnRun(h, B, start + i, start + j, sco, cm.State(), lp, rp);
    SinceNext(cm, nfa, g, A, start, start + i, h, B, start + j, lp, rp);
    ok := true;
  }

  /** Takes a mixed block, run by run. */
  method MixedBlock(cm: ColorMap, nfa: Nfa, start: nat, t: nat, lp: nat, rp: nat) returns (ok: bool)
    requires cm.Valid() && start % BYTTAB == 0 && start + BYTTAB <= NCHRS && cm.OnWay(start, NBYTS - 1, t)
    requires nfa.Valid() && lp in nfa.states && rp in nfa.states
    modifies cm, nfa`arcs
    ensures cm.Valid() && nfa.Valid()
    ensures !ok ==> Spent(cm)
    ensures ok ==> Drawn(old(cm.State()), old(nfa.arcs), Run(start, start + BYTTAB), lp, rp, cm.State(), nfa.arcs)
  {
    hide ColorMap.Valid, Drawn, Nfa.Valid, Since, ColorMap.OnWay, ColorMap.TreeFine, ColorMap.State, Run;
    ghost var g, A := Now(cm), nfa.arcs;
    SinceStart(cm, nfa, start, lp, rp);
    var i: nat := 0;
    while i < BYTTAB
      invariant i <= BYTTAB && Since(cm, nfa, g, A, start, start + i, lp, rp) && cm.OnWay(start, NBYTS - 1, t)
    {
      i, ok := NextRun(cm, nfa, start, t, i, lp, rp, g, A);
      if !ok {
        return;
      }
    }
    SinceEnd(cm, nfa, g, A, start, start + BYTTAB, lp, rp);
    ok := true;
  }

  ghost function Now(cm: ColorMap): (g: Coloring)
    requires cm.Valid()
    reads cm
    ensures Closed(cm.tree) && g == cm.State()
  {
    cm.State()
  }

  /** Takes one tree block of characters. */
  method SubBlock(cm: ColorMap, nfa: Nfa, start: nat, lp: nat, rp: nat) returns (ok: bool)
    requires cm.Valid() && start % BYTTAB == 0 && start + BYTTAB <= NCHRS
    requires nfa.Valid() && lp in nfa.states && rp in nfa.states
    modifies cm, nfa`arcs
    ensures cm.Valid() && nfa.Valid()
    ensures !ok ==> Spent(cm)
    ensures ok ==> Drawn(old(cm.State()), old(nfa.arcs), Run(start, start + BYTTAB), lp, rp, cm.State(), nfa.arcs)
  {
    hide TreeOk, WellMade, ChainOk, BlocksOk, Painting, Sound, Reach, Drawn, Solid, Nfa.Valid, Keeps;
    var t: nat, level: nat, k: nat := 0, 0, NBYTS - 1;
    ColoredClosed(cm.tree, cm.cd, cm.max);
    TopReach(cm.tree, start);
    while k > 1
      invariant k >= 1 && level + k == NBYTS - 1 && cm.Valid() && cm.OnWay(start, level, t) && cm.State() == old(cm.State())
      invariant nfa.Valid() && nfa.arcs == old(nfa.arcs)
    {
      t := cm.OwnWay(start, level, t);
      level, k := level + 1, k - 1;
    }
    var shared, u := IsShared(cm, start, t);
    if shared {
      ghost var g, A := cm.State(), nfa.arcs;
      var sco := SolidBlock(cm, start, t);
      if sco == COLORLESS {
        return false;
      }
      nfa.NewArc(PLAIN, sco, lp, rp);
      DrawnRun(g, A, start, start + BYTTAB, sco, cm.State(), lp, rp);
      ok := true;
    } else {
      ok := MixedBlock(cm, nfa, start, u, lp, rp);
    }
  }

  /** Finds the colour block of a block of characters, and whether it is the fill block or a solid block. */
  method IsShared(cm: ColorMap, start: nat, t: nat) returns (shared: bool, u: nat)
    requires cm.TreeFine() && cm.OnWay(start, NBYTS - 2, t)
    ensures u == cm.tree.ptrs[Name(NBYTS - 2, t)][Shifted(start, 1) % BYTTAB]
    ensures shared <==> u in Solid(cm.cd, cm.max).Values
    ensures !shared ==> cm.OnWay(start, NBYTS - 1, u)
  {
    hide TreeOk, WellMade, Painting;
    OkMade(cm.tree, cm.made, Solid(cm.cd, cm.max), cm.home);
    Down(cm.tree, start, NBYTS - 2);
    var n, b := Name(NBYTS - 2, t), Shifted(start, 1) % BYTTAB;
    SharedTest(cm.tree, cm.cd, cm.max, cm.home, n, b);
    u := cm.tree.ptrs[n][b];
    shared := u == 0 || u == cm.cd[cm.tree.colors[u][0]].block;
  }

  /** Takes one character. */
  method OneChr(cm: ColorMap, nfa: Nfa, c: nat, lp: nat, rp: nat) returns (ok: bool)
    requires cm.Valid() && c < NCHRS && nfa.Valid() && lp in nfa.states && rp in nfa.states
    modifies cm, nfa`arcs
    ensures cm.Valid() && nfa.Valid()
    ensures !ok ==> Spent(cm)
    ensures ok ==> Drawn(old(cm.State()), old(nfa.arcs), {c}, lp, rp, cm.State(), nfa.arcs)
  {
    hide TreeOk, Colored, ChainOk, BlocksOk, Painting, Sound, Solid, Nfa.Valid;
    var sco := cm.SubColor(c);
    if sco == COLORLESS {
      return false;
    }
    nfa.NewArc(PLAIN, sco, lp, rp);
    ColoredClosed(cm.tree, cm.cd, cm.max);
    OneArc(cm.Paint(), {c}, c, sco, lp, rp);
    ok := true;
  }

  /** Takes single characters, from c up to end. */
  method SingleChrs(cm: ColorMap, nfa: Nfa, ghost from: nat, c: nat, end: nat, lp: nat, rp: nat, ghost g: Coloring, ghost A: set<Arc>)
    returns (ok: bool)
    requires from <= c <= end <= NCHRS && Since(cm, nfa, g, A, from, c, lp, rp)
    modifies cm, nfa`arcs
    ensures cm.Valid() && nfa.Valid()
    ensures !ok ==> Spent(cm)
    ensures ok ==> Since(cm, nfa, g, A, from, end, lp, rp)
  {
    hide ColorMap.Valid, Drawn, Nfa.Valid, Since, ColorMap.TreeFine, ColorMap.State, Run;
    SinceEnd(cm, nfa, g, A, from, c, lp, rp);
    var d := c;
    while d < end
      invariant c <= d <= end && Since(cm, nfa, g, A, from, d, lp, rp) && cm.Valid() && nfa.Valid()
    {
      ok := NextChr(cm, nfa, from, d, lp, rp, g, A);
      if !ok {
        return;
      }
      d := d + 1;
    }
    ok := true;
  }

  /** Takes one more character of a range. */
  method NextChr(cm: ColorMap, nfa: Nfa, ghost from: nat, c: nat, lp: nat, rp: nat, ghost g: Coloring, ghost A: set<Arc>)
    returns (ok: bool)
    requires from <= c < NCHRS && Since(cm, nfa, g, A, from, c, lp, rp)
    modifies cm, nfa`arcs
    ensures cm.Valid() && nfa.Valid()
    ensures !ok ==> Spent(cm)
    ensures ok ==> Since(cm, nfa, g, A, from, c + 1, lp, rp)
  {
    hide TreeOk, ChainOk, BlocksOk, Painting, Sound, Solid, Nfa.Valid, Drawn, Since;
    SinceEnd(cm, nfa, g, A, from, c, lp, rp);
    ghost var h, B := cm.State(), nfa.arcs;
    ok := OneChr(cm, nfa, c, lp, rp);
    if ok {
      assert Run(c, c + 1) == {c};
      SinceNext(cm, nfa, g, A, from, c, h, B, c + 1, lp, rp);
    }
  }

  /** Takes one more block of a range. */
  method NextBlock(cm: ColorMap, nfa: Nfa, ghost from: nat, c: nat, lp: nat, rp: nat, ghost g: Coloring, ghost A: set<Arc>)
    returns (ok: bool)
    requires from <= c && c % BYTTAB == 0 && c + BYTTAB <= NCHRS && Since(cm, nfa, g, A, from, c, lp, rp)
    modifies cm, nfa`arcs
    ensures cm.Valid() && nfa.Valid()
    ensures !ok ==> Spent(cm)
    ensures ok ==> Since(cm, nfa, g, A, from, c + BYTTAB, lp, rp)
  {
    hide TreeOk, ChainOk, BlocksOk, Painting, Sound, Solid, Nfa.Valid, Drawn, Since;
    SinceEnd(cm, nfa, g, A, from, c, lp, rp);
    ghost var h, B := cm.State(), nfa.arcs;
    ok := SubBlock(cm, nfa, c, lp, rp);
    if ok {
      SinceNext(cm, nfa, g, A, from, c, h, B, c + BYTTAB, lp, rp);
    }
  }

  /**
   * Takes the characters from from up to to, with arcs from lp to rp for the
   * colours they end up with: singly up to the first block boundary, then by
   * whole blocks, then singly again.
   */
  method SubRange(cm: ColorMap, nfa: Nfa, from: nat, to: nat, lp: nat, rp: nat) returns (ok: bool)
    requires cm.Valid() && from <= to < NCHRS && nfa.Valid() && lp in nfa.states && rp in nfa.states
    modifies cm, nfa`arcs
    ensures cm.Valid() && nfa.Valid()
    ensures !ok ==> Spent(cm)
    ensures ok ==> Drawn(old(cm.State()), old(nfa.arcs), Run(from, to + 1), lp, rp, cm.State(), nfa.arcs)
  {
    hide ColorMap.Valid, Drawn, Nfa.Valid, Since, ColorMap.TreeFine, ColorMap.State, Run;
    ghost var g, A := Now(cm), nfa.arcs;
    SinceStart(cm, nfa, from, lp, rp);
    var i := (from + BYTTAB - 1) / BYTTAB * BYTTAB - from;
    var c := if from + i <= to + 1 then from + i else to + 1;
    ok := SingleChrs(cm, nfa, from, from, c, lp, rp, g, A);
    if !ok {
      return;
    }
    if c > to {
      SinceEnd(cm, nfa, g, A, from, c, lp, rp);
      return true;
    }
    while to - c >= BYTTAB
      invariant from <= c <= to && c % BYTTAB == 0 && Since(cm, nfa, g, A, from, c, lp, rp)
    {
      ok := NextBlock(cm, nfa, from, c, lp, rp, g, A);
      if !ok {
        return;
      }
      c := c + BYTTAB;
    }
    ok := SingleChrs(cm, nfa, from, c, to + 1, lp, rp, g, A);
    if ok {
      SinceEnd(cm, nfa, g, A, from, to + 1, lp, rp);
    }
  }
}
